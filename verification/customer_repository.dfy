/** `CustomerRepository`: the statements against the Customers table. */
module CustomerRepository {
  import opened Wrappers
  import opened Errors
  import opened Text
  import opened Tables
  import opened Entities
  import opened Schema

  /** The row a customer becomes; `CreatedAt` is the store's default `now`.
      The customer's own id and timestamp are not inserted. */
  function ToRow(c: Customer, now: nat): (row: CustomerRow) {
    CustomerRow(c.name, c.phone, c.email, c.address, now)
  }

  /** The customer a selected row is read back as. */
  function FromRow(id: int, row: CustomerRow): (rec: Customer) {
    Customer(Some(id), row.name, row.phone, row.email, row.address, Some(row.createdAt))
  }

  /** The (id, row) pair a listed customer was read from. */
  function Key(c: Customer): (k: (int, CustomerRow)) {
    (c.customerId.GetOr(0), ToRow(c, c.createdAt.GetOr(0)))
  }

  /** Reading a row back and keying it again recovers it. */
  lemma KeyFromRow(id: int, row: CustomerRow)
    ensures Key(FromRow(id, row)) == (id, row)
  {
  }

  function Keys(cs: seq<Customer>): (ks: seq<(int, CustomerRow)>) {
    seq(|cs|, i requires 0 <= i < |cs| => Key(cs[i]))
  }

  /** `Name LIKE %s% OR Phone LIKE %s% OR Email LIKE %s%`; a NULL email
      never matches. */
  predicate Matches(search: string, name: string, phone: string, email: Option<string>) {
    Contains(name, search) || Contains(phone, search) || (email.Some? && Contains(email.value, search))
  }

  /** The `WHERE` clause `list` uses: the search when it is truthy, none otherwise. */
  function Filter(search: Option<string>): (keep: CustomerRow -> bool) {
    if Truthy(search) then (row: CustomerRow) => Matches(search.value, row.name, row.phone, row.email)
    else (row: CustomerRow) => true
  }

  /** `create`: one new row holding the given fields under a fresh id. */
  function Create(t: Table<CustomerRow>, c: Customer, now: nat): (r: (Table<CustomerRow>, int))
    ensures r.1 >= 1 && r.1 !in t.rows
    ensures forall k :: k in t.rows ==> k < r.1
    ensures r.1 == t.nextId && r.0.nextId == t.nextId + 1
    ensures r.0.rows.Keys == t.rows.Keys + {r.1}
    ensures r.0.rows[r.1] == CustomerRow(c.name, c.phone, c.email, c.address, now)
    ensures forall k :: k in t.rows ==> r.0.rows[k] == t.rows[k]
  {
    Insert(t, ToRow(c, now))
  }

  /** `list`: newest first, at most `limit`, filtered by a truthy search. */
  function List(t: Table<CustomerRow>, search: Option<string>, limit: int): (r: Result<seq<Customer>, Error>)
    ensures r.Err? <==> limit < 0
    ensures r.Ok? ==> forall i :: 0 <= i < |r.value| ==> r.value[i].customerId.Some? && r.value[i].createdAt.Some?
    ensures r.Ok? ==> IsTop(t.rows, Filter(search), limit, Keys(r.value))
    ensures r.Ok? && Truthy(search) ==> forall i :: 0 <= i < |r.value| ==>
              Matches(search.value, r.value[i].name, r.value[i].phone, r.value[i].email)
  {
    if limit < 0 then Err(PersistenceError(NegativeTop))
    else
      var sel := Select(t, Filter(search), limit);
      var cs := Project(sel, FromRow);
      assert Keys(cs) == sel by {
        forall i | 0 <= i < |sel| ensures Keys(cs)[i] == sel[i] {
          KeyFromRow(sel[i].0, sel[i].1);
        }
      }
      assert forall i :: 0 <= i < |cs| ==> Filter(search)(sel[i].1);
      Ok(cs)
  }

  /** `update`: a falsy id (`None` or 0) is refused; otherwise the matching
      row gets the new Name/Phone/Email/Address and keeps its CreatedAt, and
      an absent id changes nothing. */
  function Update(t: Table<CustomerRow>, c: Customer): (r: Result<Table<CustomerRow>, Error>)
    ensures r.Err? <==> !TruthyId(c.customerId)
    ensures r.Err? ==> r.error.ValidationError?
    ensures r.Ok? ==> r.value.rows.Keys == t.rows.Keys && r.value.nextId == t.nextId
    ensures r.Ok? ==> forall k :: k in t.rows && k != c.customerId.value ==> r.value.rows[k] == t.rows[k]
    ensures r.Ok? && c.customerId.value in t.rows ==>
              r.value.rows[c.customerId.value]
              == CustomerRow(c.name, c.phone, c.email, c.address, t.rows[c.customerId.value].createdAt)
  {
    if !TruthyId(c.customerId) then Err(ValidationError("CustomerID required for update"))
    else
      Ok(Modify(t, c.customerId.value,
                (row: CustomerRow) => row.(name := c.name, phone := c.phone, email := c.email, address := c.address)))
  }

  /** `delete`: exactly the row with that id goes, if present. */
  function Delete(t: Table<CustomerRow>, id: int): (r: Table<CustomerRow>)
    ensures r.rows.Keys == t.rows.Keys - {id} && r.nextId == t.nextId
    ensures forall k :: k in r.rows ==> r.rows[k] == t.rows[k]
  {
    Remove(t, id)
  }
}
