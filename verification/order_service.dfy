/** `ServiceorderServiceManager`: validation in front of the service-order
    repository. */
module ServiceOrderService {
  import opened Wrappers
  import opened Errors
  import opened Text
  import opened Config
  import opened Tables
  import opened Entities
  import opened Schema
  import Repo = ServiceOrderRepository

  const InvalidServiceType: string := "Invalid service type. Allowed: ['Repair', 'Tuning', 'Installation']"
  const InvalidStatus: string :=
    "Invalid status. Allowed: ['Pending', 'Assigned', 'In Progress', 'Completed', 'Canceled']"

  /** Every stored order has a status and a service type from the
      enumerations. */
  ghost predicate OrdersValid(t: Table<OrderRow>) {
    forall k :: k in t.rows ==> IsStatus(t.rows[k].status) && IsServiceType(t.rows[k].serviceType)
  }

  /** `create_order`: a service type outside the enumeration is refused
      before the store is touched; otherwise one row is added, Pending and
      without a technician whatever the inputs, with the stripped-or-null
      description. Only the ServiceOrders table changes. */
  function CreateOrder(db: Store, customerId: int, serviceType: string, description: Option<string>,
                       scheduledAt: Option<nat>, now: nat): (r: Reply<int>)
    ensures r.outcome.Err? <==> !IsServiceType(serviceType)
    ensures r.outcome.Err? ==> r.db == db && r.outcome.error.ValidationError?
    ensures r.outcome.Ok? ==>
              var id, before, after := r.outcome.value, db.orders.rows, r.db.orders.rows;
              && id >= 1 && id !in before
              && id == db.orders.nextId && r.db.orders.nextId == id + 1
              && after.Keys == before.Keys + {id}
              && (forall k :: k in before ==> after[k] == before[k])
              && after[id].status == "Pending"
              && after[id].technicianId == None
              && after[id] == OrderRow(customerId, None, serviceType, StripOrNone(description), "Pending",
                                       scheduledAt, now, None)
    ensures OrdersValid(db.orders) ==> OrdersValid(r.db.orders)
    ensures r.db.customers == db.customers && r.db.technicians == db.technicians
  {
    if !IsServiceType(serviceType) then Reply(db, Err(ValidationError(InvalidServiceType)))
    else
      var o := ServiceOrder(None, customerId, None, serviceType, StripOrNone(description),
                            InitialStatus, scheduledAt, None, None);
      var (orders, id) := Repo.Create(db.orders, o, now);
      Reply(db.(orders := orders), Ok(id))
  }

  /** `list_orders`: a truthy status outside the enumeration is refused;
      `None` or "" means no filter. */
  function ListOrders(db: Store, status: Option<string>, limit: int): (r: Result<seq<ServiceOrder>, Error>)
    ensures r.Err? <==> (Truthy(status) && !IsStatus(status.value)) || limit < 0
    ensures Truthy(status) && !IsStatus(status.value) ==> r.Err? && r.error.ValidationError?
    ensures r.Ok? ==> forall i :: 0 <= i < |r.value| ==> r.value[i].orderId.Some? && r.value[i].createdAt.Some?
    ensures r.Ok? ==> IsTop(db.orders.rows, Repo.Filter(status), limit, Repo.Keys(r.value))
    ensures r.Ok? && Truthy(status) ==> forall i :: 0 <= i < |r.value| ==> r.value[i].status == status.value
  {
    if Truthy(status) && !IsStatus(status.value) then Err(ValidationError(InvalidStatus))
    else Repo.List(db.orders, status, limit)
  }

  /** `assign_technician`: no validation; the repository sets the technician
      and advances a Pending order to Assigned. */
  function AssignTechnician(db: Store, orderId: int, technicianId: int, now: nat): (r: Store)
    ensures r.orders.rows.Keys == db.orders.rows.Keys && r.orders.nextId == db.orders.nextId
    ensures forall k :: k in db.orders.rows && k != orderId ==> r.orders.rows[k] == db.orders.rows[k]
    ensures orderId in db.orders.rows ==>
              var before, after := db.orders.rows[orderId], r.orders.rows[orderId];
              && after.technicianId == Some(technicianId)
              && after.updatedAt == Some(now)
              && (after.status == "Assigned" <==> before.status in {"Pending", "Assigned"})
              && (before.status != "Pending" ==> after.status == before.status)
              && after.(technicianId := before.technicianId, status := before.status, updatedAt := before.updatedAt)
                 == before
    ensures OrdersValid(db.orders) ==> OrdersValid(r.orders)
    ensures r.customers == db.customers && r.technicians == db.technicians
  {
    var orders := Repo.AssignTechnician(db.orders, orderId, technicianId, now);
    assert OrdersValid(db.orders) ==> OrdersValid(orders) by {
      if orderId in db.orders.rows {
        Repo.AdvanceKeepsStatusValid(db.orders.rows[orderId].status);
      }
    }
    db.(orders := orders)
  }

  /** `update_order_status`: a status outside the enumeration is refused;
      every member is accepted whatever the order's current status, and the
      order gets it with the current tick. */
  function UpdateOrderStatus(db: Store, orderId: int, status: string, now: nat): (r: Reply<()>)
    ensures r.outcome.Err? <==> !IsStatus(status)
    ensures r.outcome.Err? ==> r.db == db && r.outcome.error.ValidationError?
    ensures r.db.orders.rows.Keys == db.orders.rows.Keys && r.db.orders.nextId == db.orders.nextId
    ensures forall k :: k in db.orders.rows && k != orderId ==> r.db.orders.rows[k] == db.orders.rows[k]
    ensures r.outcome.Ok? && orderId in db.orders.rows ==>
              var before, after := db.orders.rows[orderId], r.db.orders.rows[orderId];
              && after.status == status
              && after.updatedAt == Some(now)
              && after.(status := before.status, updatedAt := before.updatedAt) == before
    ensures OrdersValid(db.orders) ==> OrdersValid(r.db.orders)
    ensures r.db.customers == db.customers && r.db.technicians == db.technicians
  {
    if !IsStatus(status) then Reply(db, Err(ValidationError(InvalidStatus)))
    else Reply(db.(orders := Repo.UpdateStatus(db.orders, orderId, status, now)), Ok(()))
  }

  /** `delete_order`: exactly that order row goes, if present. */
  function DeleteOrder(db: Store, orderId: int): (r: Store)
    ensures r.orders.rows.Keys == db.orders.rows.Keys - {orderId} && r.orders.nextId == db.orders.nextId
    ensures forall k :: k in r.orders.rows ==> r.orders.rows[k] == db.orders.rows[k]
    ensures OrdersValid(db.orders) ==> OrdersValid(r.orders)
    ensures r.customers == db.customers && r.technicians == db.technicians
  {
    db.(orders := Repo.Delete(db.orders, orderId))
  }
}
