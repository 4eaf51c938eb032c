/** Properties that span several manager calls. */
module Scenarios {
  import opened Wrappers
  import opened Text
  import opened Config
  import opened Tables
  import opened Entities
  import opened Schema
  import CustomerRepository
  import TechnicianRepository
  import ServiceOrderRepository
  import CustomerService
  import TechnicianService
  import ServiceOrderService

  /** A listed customer is determined by the row it was read from. */
  lemma CustomerFromKey(c: Customer, id: int, row: CustomerRow)
    requires c.customerId.Some? && c.createdAt.Some?
    requires CustomerRepository.Key(c) == (id, row)
    ensures c == CustomerRepository.FromRow(id, row)
  {
  }

  /** A customer just created heads every unfiltered page that has room
      for one row, read back with its stripped fields. */
  lemma CreatedCustomerIsListedFirst(db: Store, name: string, phone: string, email: Option<string>,
                                     address: Option<string>, now: nat, limit: int)
    requires name != [] && phone != [] && limit >= 1
    ensures var r := CustomerService.CreateCustomer(db, name, phone, email, address, now);
            var page := CustomerService.ListCustomers(r.db, None, limit);
            && r.outcome.Ok? && page.Ok? && |page.value| >= 1
            && page.value[0]
               == Customer(Some(r.outcome.value), Strip(name), Strip(phone), StripOrNone(email),
                           StripOrNone(address), Some(now))
  {
    var r := CustomerService.CreateCustomer(db, name, phone, email, address, now);
    var id := r.outcome.value;
    var rows := r.db.customers.rows;
    var page := CustomerService.ListCustomers(r.db, None, limit);
    var keep := CustomerRepository.Filter(None);
    var keyed := CustomerRepository.Keys(page.value);
    assert IsTop(rows, keep, limit, keyed);
    assert keep(rows[id]);
    assert |keyed| >= 1 by {
      assert (id, rows[id]) in keyed || |keyed| == limit;
    }
    TopHead(rows, keep, limit, keyed, id);
    assert keyed[0].0 in rows;
    assert keyed[0] == (id, rows[id]);
    CustomerFromKey(page.value[0], id, rows[id]);
  }

  /** The walk-through of the desk: Jane Doe is customer 1, her Repair order
      is order 1 and Pending, assigning technician 7 makes it Assigned, and
      it can then be Completed. */
  lemma DeskWalkthrough()
    ensures var r1 := CustomerService.CreateCustomer(EmptyStore(), "Jane Doe", "555-1111", None, None, 0);
            var r2 := ServiceOrderService.CreateOrder(r1.db, 1, "Repair", Some("AC not cooling"), None, 1);
            var db3 := ServiceOrderService.AssignTechnician(r2.db, 1, 7, 2);
            var r4 := ServiceOrderService.UpdateOrderStatus(db3, 1, "Completed", 3);
            && r1.outcome == Ok(1)
            && r2.outcome == Ok(1) && r2.db.orders.rows[1].status == "Pending"
            && r2.db.orders.rows[1].technicianId == None
            && db3.orders.rows[1].technicianId == Some(7) && db3.orders.rows[1].status == "Assigned"
            && r4.outcome.Ok? && r4.db.orders.rows[1].status == "Completed"
  {
  }

  /** Refusals from the walk-through: an unknown service type and an update
      without a customer id. */
  lemma DeskRefusals(db: Store)
    ensures ServiceOrderService.CreateOrder(db, 1, "Flying", None, None, 0).outcome.Err?
    ensures ServiceOrderService.CreateOrder(db, 1, "Flying", None, None, 0).db == db
    ensures CustomerService.UpdateCustomer(db, None, "Jane", "555", None, None).outcome.Err?
    ensures CustomerService.UpdateCustomer(db, Some(0), "Jane", "555", None, None).outcome.Err?
  {
  }

  /** A new order can only be assigned from Pending: creating and then
      assigning it always gives an Assigned order with that technician. */
  lemma CreateThenAssign(db: Store, customerId: int, serviceType: string, description: Option<string>,
                         scheduledAt: Option<nat>, technicianId: int, now: nat, later: nat)
    requires IsServiceType(serviceType)
    ensures var r := ServiceOrderService.CreateOrder(db, customerId, serviceType, description, scheduledAt, now);
            var db' := ServiceOrderService.AssignTechnician(r.db, r.outcome.value, technicianId, later);
            && r.outcome.Ok?
            && db'.orders.rows[r.outcome.value].status == AssignedStatus
            && db'.orders.rows[r.outcome.value].technicianId == Some(technicianId)
  {
  }

  /** A technician just created heads every page with room for one row that
      its Active flag does not exclude. */
  lemma CreatedTechnicianIsListedFirst(db: Store, name: string, phone: string, skillLevel: string,
                                       active: bool, now: nat, activeOnly: bool, limit: int)
    requires name != [] && phone != [] && skillLevel != [] && limit >= 1
    requires active || !activeOnly
    ensures var r := TechnicianService.CreateTechnician(db, name, phone, skillLevel, active, now);
            var page := TechnicianService.ListTechnicians(r.db, activeOnly, limit);
            && r.outcome.Ok? && page.Ok? && |page.value| >= 1
            && page.value[0]
               == Technician(Some(r.outcome.value), Strip(name), Strip(phone), Strip(skillLevel), active, Some(now))
  {
    var row := TechnicianRow(Strip(name), Strip(phone), Strip(skillLevel), active, now);
    InsertHeadsSelect(db.technicians, row, TechnicianRepository.Filter(activeOnly), limit);
  }

  /** An order just created heads every unfiltered or Pending page with
      room for one row. */
  lemma CreatedOrderIsListedFirst(db: Store, customerId: int, serviceType: string, description: Option<string>,
                                  scheduledAt: Option<nat>, now: nat, status: Option<string>, limit: int)
    requires IsServiceType(serviceType) && limit >= 1
    requires status == None || status == Some("") || status == Some("Pending")
    ensures var r := ServiceOrderService.CreateOrder(db, customerId, serviceType, description, scheduledAt, now);
            var page := ServiceOrderService.ListOrders(r.db, status, limit);
            && r.outcome.Ok? && page.Ok? && |page.value| >= 1
            && page.value[0]
               == ServiceOrder(Some(r.outcome.value), customerId, None, serviceType, StripOrNone(description),
                               "Pending", scheduledAt, Some(now), None)
  {
    var row := OrderRow(customerId, None, serviceType, StripOrNone(description), "Pending", scheduledAt, now, None);
    InsertHeadsSelect(db.orders, row, ServiceOrderRepository.Filter(status), limit);
  }

  /** A deleted customer appears on no later page. */
  lemma DeletedCustomerIsNotListed(db: Store, customerId: int, search: Option<string>, limit: int)
    ensures var page := CustomerService.ListCustomers(CustomerService.DeleteCustomer(db, customerId), search, limit);
            page.Ok? ==> forall i :: 0 <= i < |page.value| ==> page.value[i].customerId != Some(customerId)
  {
    if limit >= 0 {
      RemovedNotSelected(db.customers, customerId, CustomerRepository.Filter(search), limit);
    }
  }

  /** A deleted order appears on no later page. */
  lemma DeletedOrderIsNotListed(db: Store, orderId: int, status: Option<string>, limit: int)
    ensures var page := ServiceOrderService.ListOrders(ServiceOrderService.DeleteOrder(db, orderId), status, limit);
            page.Ok? ==> forall i :: 0 <= i < |page.value| ==> page.value[i].orderId != Some(orderId)
  {
    if limit >= 0 {
      RemovedNotSelected(db.orders, orderId, ServiceOrderRepository.Filter(status), limit);
    }
  }

  /** A deactivated technician drops out of the active-only list. */
  lemma DeactivatedTechnicianIsNotListed(db: Store, technicianId: int, limit: int)
    ensures var page := TechnicianService.ListTechnicians(
                          TechnicianService.SetTechnicianActive(db, technicianId, false), true, limit);
            page.Ok? ==> forall i :: 0 <= i < |page.value| ==> page.value[i].technicianId != Some(technicianId)
  {
  }

  /** After a status change an order is listed under no other status. */
  lemma UpdatedOrderLeavesOtherStatuses(db: Store, orderId: int, status: string, other: string, now: nat, limit: int)
    requires orderId in db.orders.rows && other != status && other != []
    ensures var r := ServiceOrderService.UpdateOrderStatus(db, orderId, status, now);
            var page := ServiceOrderService.ListOrders(r.db, Some(other), limit);
            r.outcome.Ok? && page.Ok? ==> forall i :: 0 <= i < |page.value| ==> page.value[i].orderId != Some(orderId)
  {
  }

  /** A `None` and an empty search or status filter give the same page. */
  lemma FalsyFiltersAgree(db: Store, limit: int)
    ensures CustomerService.ListCustomers(db, Some(""), limit) == CustomerService.ListCustomers(db, None, limit)
    ensures ServiceOrderService.ListOrders(db, Some(""), limit) == ServiceOrderService.ListOrders(db, None, limit)
  {
  }

  /** The id of a deleted customer is not given to the next customer created. */
  lemma DeletedCustomerIdNotReused(db: Store, customerId: int, name: string, phone: string,
                                   email: Option<string>, address: Option<string>, now: nat)
    requires customerId in db.customers.rows && name != [] && phone != []
    ensures var r := CustomerService.CreateCustomer(CustomerService.DeleteCustomer(db, customerId),
                                                    name, phone, email, address, now);
            r.outcome.Ok? && r.outcome.value != customerId
  {
  }

  /** The id of a deleted order is not given to the next order created. */
  lemma DeletedOrderIdNotReused(db: Store, orderId: int, customerId: int, serviceType: string,
                                description: Option<string>, scheduledAt: Option<nat>, now: nat)
    requires orderId in db.orders.rows && IsServiceType(serviceType)
    ensures var r := ServiceOrderService.CreateOrder(ServiceOrderService.DeleteOrder(db, orderId),
                                                     customerId, serviceType, description, scheduledAt, now);
            r.outcome.Ok? && r.outcome.value != orderId
  {
  }
}
