/** The domain records the managers and repositories exchange. An id or a
    timestamp is `None` until the store has assigned it. Timestamps are
    opaque ticks. */
module Entities {
  import opened Wrappers

  datatype Customer = Customer(
    customerId: Option<int>,
    name: string,
    phone: string,
    email: Option<string>,
    address: Option<string>,
    createdAt: Option<nat>)

  datatype Technician = Technician(
    technicianId: Option<int>,
    name: string,
    phone: string,
    skillLevel: string,
    active: bool,
    createdAt: Option<nat>)

  datatype ServiceOrder = ServiceOrder(
    orderId: Option<int>,
    customerId: int,
    technicianId: Option<int>,
    serviceType: string,
    description: Option<string>,
    status: string,
    scheduledAt: Option<nat>,
    createdAt: Option<nat>,
    updatedAt: Option<nat>)
}

/** The three tables of the store. A row holds the columns other than the
    identity key, which is the table's map key. */
module Schema {
  import opened Wrappers
  import opened Errors
  import opened Tables

  datatype CustomerRow = CustomerRow(
    name: string,
    phone: string,
    email: Option<string>,
    address: Option<string>,
    createdAt: nat)

  datatype TechnicianRow = TechnicianRow(
    name: string,
    phone: string,
    skillLevel: string,
    active: bool,
    createdAt: nat)

  datatype OrderRow = OrderRow(
    customerId: int,
    technicianId: Option<int>,
    serviceType: string,
    description: Option<string>,
    status: string,
    scheduledAt: Option<nat>,
    createdAt: nat,
    updatedAt: Option<nat>)

  datatype Store = Store(
    customers: Table<CustomerRow>,
    technicians: Table<TechnicianRow>,
    orders: Table<OrderRow>)

  /** A store with three empty tables. */
  function EmptyStore(): (db: Store)
    ensures db.customers.rows == map[] && db.technicians.rows == map[] && db.orders.rows == map[]
  {
    Store(Empty(), Empty(), Empty())
  }

  /** What a manager call leaves behind: the store after the call, and the
      value it returned or the error it raised. */
  datatype Reply<+T> = Reply(db: Store, outcome: Result<T, Error>)

  /** The message the model attaches to the `PersistenceError` for a
      negative `TOP` count. */
  const NegativeTop: string := "negative TOP row count refused by the store"
}
