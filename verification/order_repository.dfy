/** `ServiceOrderRepository`: the statements against the ServiceOrders table. */
module ServiceOrderRepository {
  import opened Wrappers
  import opened Errors
  import opened Text
  import opened Config
  import opened Tables
  import opened Entities
  import opened Schema

  /** The row an order becomes: every column the insert names comes from the
      order, `CreatedAt` is the store's `now`, and `UpdatedAt` is left NULL
      because the insert does not set it. */
  function ToRow(o: ServiceOrder, now: nat): (row: OrderRow) {
    OrderRow(o.customerId, o.technicianId, o.serviceType, o.description, o.status, o.scheduledAt, now, None)
  }

  function FromRow(id: int, row: OrderRow): (rec: ServiceOrder) {
    ServiceOrder(Some(id), row.customerId, row.technicianId, row.serviceType, row.description,
                 row.status, row.scheduledAt, Some(row.createdAt), row.updatedAt)
  }

  function Key(o: ServiceOrder): (k: (int, OrderRow)) {
    (o.orderId.GetOr(0), ToRow(o, o.createdAt.GetOr(0)).(updatedAt := o.updatedAt))
  }

  /** Reading a row back and keying it again recovers it. */
  lemma KeyFromRow(id: int, row: OrderRow)
    ensures Key(FromRow(id, row)) == (id, row)
  {
  }

  function Keys(os: seq<ServiceOrder>): (ks: seq<(int, OrderRow)>) {
    seq(|os|, i requires 0 <= i < |os| => Key(os[i]))
  }

  /** `WHERE Status = ?` when the status is truthy, no filter otherwise. */
  function Filter(status: Option<string>): (keep: OrderRow -> bool) {
    if Truthy(status) then (row: OrderRow) => row.status == status.value else (row: OrderRow) => true
  }

  /** `create`: one new row holding the given fields under a fresh id. */
  function Create(t: Table<OrderRow>, o: ServiceOrder, now: nat): (r: (Table<OrderRow>, int))
    ensures r.1 >= 1 && r.1 !in t.rows
    ensures forall k :: k in t.rows ==> k < r.1
    ensures r.1 == t.nextId && r.0.nextId == t.nextId + 1
    ensures r.0.rows.Keys == t.rows.Keys + {r.1}
    ensures r.0.rows[r.1]
            == OrderRow(o.customerId, o.technicianId, o.serviceType, o.description, o.status, o.scheduledAt, now, None)
    ensures forall k :: k in t.rows ==> r.0.rows[k] == t.rows[k]
  {
    Insert(t, ToRow(o, now))
  }

  /** `list`: newest first, at most `limit`, only the given status when it
      is truthy. */
  function List(t: Table<OrderRow>, status: Option<string>, limit: int): (r: Result<seq<ServiceOrder>, Error>)
    ensures r.Err? <==> limit < 0
    ensures r.Ok? ==> forall i :: 0 <= i < |r.value| ==> r.value[i].orderId.Some? && r.value[i].createdAt.Some?
    ensures r.Ok? ==> IsTop(t.rows, Filter(status), limit, Keys(r.value))
    ensures r.Ok? && Truthy(status) ==> forall i :: 0 <= i < |r.value| ==> r.value[i].status == status.value
  {
    if limit < 0 then Err(PersistenceError(NegativeTop))
    else
      var sel := Select(t, Filter(status), limit);
      var os := Project(sel, FromRow);
      assert Keys(os) == sel by {
        forall i | 0 <= i < |sel| ensures Keys(os)[i] == sel[i] {
          KeyFromRow(sel[i].0, sel[i].1);
        }
      }
      assert forall i :: 0 <= i < |os| ==> Filter(status)(sel[i].1);
      Ok(os)
  }

  /** The `CASE WHEN Status = 'Pending' THEN 'Assigned' ELSE Status END` of
      `assign_technician`. */
  function Advance(status: string): (next: string) {
    if status == InitialStatus then AssignedStatus else status
  }

  /** `assign_technician`: the matching order gets the technician and the
      current tick as UpdatedAt; its status becomes Assigned exactly when it
      was Pending and is otherwise kept; nothing else changes. */
  function AssignTechnician(t: Table<OrderRow>, orderId: int, technicianId: int, now: nat): (r: Table<OrderRow>)
    ensures r.rows.Keys == t.rows.Keys && r.nextId == t.nextId
    ensures forall k :: k in t.rows && k != orderId ==> r.rows[k] == t.rows[k]
    ensures orderId in t.rows ==>
              var before, after := t.rows[orderId], r.rows[orderId];
              && after.technicianId == Some(technicianId)
              && after.updatedAt == Some(now)
              && (before.status == "Pending" ==> after.status == "Assigned")
              && (before.status != "Pending" ==> after.status == before.status)
              && after.(technicianId := before.technicianId, status := before.status, updatedAt := before.updatedAt)
                 == before
  {
    Modify(t, orderId,
           (row: OrderRow) => row.(technicianId := Some(technicianId), status := Advance(row.status), updatedAt := Some(now)))
  }

  /** `update_status`: the matching order gets the status and the current
      tick, whatever its status was; nothing else changes. */
  function UpdateStatus(t: Table<OrderRow>, orderId: int, status: string, now: nat): (r: Table<OrderRow>)
    ensures r.rows.Keys == t.rows.Keys && r.nextId == t.nextId
    ensures forall k :: k in t.rows && k != orderId ==> r.rows[k] == t.rows[k]
    ensures orderId in t.rows ==>
              var before, after := t.rows[orderId], r.rows[orderId];
              && after.status == status
              && after.updatedAt == Some(now)
              && after.(status := before.status, updatedAt := before.updatedAt) == before
  {
    Modify(t, orderId, (row: OrderRow) => row.(status := status, updatedAt := Some(now)))
  }

  /** `delete`: exactly the row with that id goes, if present. */
  function Delete(t: Table<OrderRow>, id: int): (r: Table<OrderRow>)
    ensures r.rows.Keys == t.rows.Keys - {id} && r.nextId == t.nextId
    ensures forall k :: k in r.rows ==> r.rows[k] == t.rows[k]
  {
    Remove(t, id)
  }

  /** Assignment never takes a status out of the enumeration. */
  lemma AdvanceKeepsStatusValid(status: string)
    ensures IsStatus(status) ==> IsStatus(Advance(status))
    ensures Advance(status) == AssignedStatus <==> (status == InitialStatus || status == AssignedStatus)
  {
  }
}
