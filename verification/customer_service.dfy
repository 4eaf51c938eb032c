/** `CustomerServiceManager`: validation and normalisation in front of the
    customer repository. */
module CustomerService {
  import opened Wrappers
  import opened Errors
  import opened Text
  import opened Config
  import opened Tables
  import opened Entities
  import opened Schema
  import Repo = CustomerRepository

  const NameAndPhoneRequired: string := "Name and phone are required"

  /** `create_customer`: an empty name or phone is refused before the store
      is touched (the test is on the untrimmed text); otherwise one row is
      added holding the stripped name and phone and the stripped-or-null
      email and address. Only the Customers table changes. */
  function CreateCustomer(db: Store, name: string, phone: string, email: Option<string>,
                          address: Option<string>, now: nat): (r: Reply<int>)
    ensures r.outcome.Err? <==> (name == [] || phone == [])
    ensures r.outcome.Err? ==> r.db == db && r.outcome.error.ValidationError?
    ensures r.outcome.Ok? ==>
              var id, before, after := r.outcome.value, db.customers.rows, r.db.customers.rows;
              && id >= 1 && id !in before
              && id == db.customers.nextId && r.db.customers.nextId == id + 1
              && after.Keys == before.Keys + {id}
              && (forall k :: k in before ==> after[k] == before[k])
              && after[id] == CustomerRow(Strip(name), Strip(phone), StripOrNone(email), StripOrNone(address), now)
    ensures r.db.technicians == db.technicians && r.db.orders == db.orders
  {
    if name == [] || phone == [] then Reply(db, Err(ValidationError(NameAndPhoneRequired)))
    else
      var c := Customer(None, Strip(name), Strip(phone), StripOrNone(email), StripOrNone(address), None);
      var (customers, id) := Repo.Create(db.customers, c, now);
      Reply(db.(customers := customers), Ok(id))
  }

  /** `list_customers`: the repository's page, unchanged. */
  function ListCustomers(db: Store, search: Option<string>, limit: int): (r: Result<seq<Customer>, Error>)
    ensures r.Err? <==> limit < 0
    ensures r.Ok? ==> forall i :: 0 <= i < |r.value| ==> r.value[i].customerId.Some? && r.value[i].createdAt.Some?
    ensures r.Ok? ==> IsTop(db.customers.rows, Repo.Filter(search), limit, Repo.Keys(r.value))
    ensures r.Ok? && Truthy(search) ==> forall i :: 0 <= i < |r.value| ==>
              Repo.Matches(search.value, r.value[i].name, r.value[i].phone, r.value[i].email)
  {
    Repo.List(db.customers, search, limit)
  }

  /** `update_customer`: no emptiness check; the fields are normalised as on
      creation and the repository refuses a falsy id. The matching row gets
      the new fields and keeps its CreatedAt; all other rows and tables stay. */
  function UpdateCustomer(db: Store, customerId: Option<int>, name: string, phone: string,
                          email: Option<string>, address: Option<string>): (r: Reply<()>)
    ensures r.outcome.Err? <==> !TruthyId(customerId)
    ensures r.outcome.Err? ==> r.db == db && r.outcome.error.ValidationError?
    ensures r.db.customers.rows.Keys == db.customers.rows.Keys && r.db.customers.nextId == db.customers.nextId
    ensures forall k :: k in db.customers.rows && Some(k) != customerId ==> r.db.customers.rows[k] == db.customers.rows[k]
    ensures r.outcome.Ok? && customerId.value in db.customers.rows ==>
              r.db.customers.rows[customerId.value]
              == CustomerRow(Strip(name), Strip(phone), StripOrNone(email), StripOrNone(address),
                             db.customers.rows[customerId.value].createdAt)
    ensures r.db.technicians == db.technicians && r.db.orders == db.orders
  {
    var c := Customer(customerId, Strip(name), Strip(phone), StripOrNone(email), StripOrNone(address), None);
    match Repo.Update(db.customers, c)
    case Err(e) => Reply(db, Err(e))
    case Ok(customers) => Reply(db.(customers := customers), Ok(()))
  }

  /** `delete_customer`: exactly that customer row goes, if present. */
  function DeleteCustomer(db: Store, customerId: int): (r: Store)
    ensures r.customers.rows.Keys == db.customers.rows.Keys - {customerId} && r.customers.nextId == db.customers.nextId
    ensures forall k :: k in r.customers.rows ==> r.customers.rows[k] == db.customers.rows[k]
    ensures r.technicians == db.technicians && r.orders == db.orders
  {
    db.(customers := Repo.Delete(db.customers, customerId))
  }

  /** A whitespace-only name passes the check, because the check precedes
      the strip, and is stored as "". */
  lemma BlankNameIsStoredEmpty(db: Store, name: string, phone: string, now: nat)
    requires name != [] && AllSpace(name) && phone != []
    ensures var r := CreateCustomer(db, name, phone, None, None, now);
            r.outcome.Ok? && r.db.customers.rows[r.outcome.value].name == []
  {
  }

  /** The default `list_customers()` page holds at most 100 customers. */
  lemma DefaultListing(db: Store)
    ensures var r := ListCustomers(db, None, DefaultPageSize);
            r.Ok? && |r.value| <= 100
  {
  }
}
