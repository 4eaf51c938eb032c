# Desk-service core: a Dafny model

This project models the domain layer of an appliance-repair service desk.
The layer tracks customers, technicians and service orders (Repair, Tuning and
Installation jobs). Three service managers validate and normalise their
inputs. Each then delegates to a repository method against a three-table store.
Each method issues one SQL statement, except `create`, which issues an
`INSERT` and then a separate `SELECT SCOPE_IDENTITY()` to read back the new id.

The model is functional:

- **Store.** `Schema.Store` holds three `Tables.Table`s. A table is a map from
  identity id to row plus the next identity value. A subset type keeps every
  stored id in `[1, nextId)`.
- **Repository statements.** Each statement is a pure function on one table.
  - `INSERT` followed by `SELECT SCOPE_IDENTITY()` is `Tables.Insert`, taken as one step that returns the new id. It hands out `nextId`, which is larger than every stored id, and ids are never reused.
  - `UPDATE … WHERE id = ?` is `Tables.Modify`.
  - `DELETE … WHERE id = ?` is `Tables.Remove`.
  - `SELECT TOP (?) … WHERE … ORDER BY id DESC` is `Tables.Select`. It scans ids downward, filters, then cuts the result at `limit`.
- **Reference for `SELECT`.** `Tables.IsTop` is a declarative definition of a correct `TOP`/`ORDER BY` page. `Tables.TopUnique` proves that it determines the page uniquely.
- **Domain records.** `Entities.Customer`, `Entities.Technician` and `Entities.ServiceOrder` mirror the dataclasses. They have `Option` ids, `Option` nullable fields and timestamps as opaque `nat` ticks. Rows hold only the non-key columns. `list` reads each row back into a record carrying its id.
- **Manager calls.** A manager call returns `Schema.Reply(db, outcome)`.
  - A Python `ValueError` becomes `Err(ValidationError(..))`, and the store comes back unchanged.
  - Calls that raise no `ValueError` (`delete_*`, `assign_technician`, `set_technician_active`) return the new store directly. In the real store these calls can still fail on a foreign key, which this model leaves out.
  - Queries return a `Result` and never change the store.
- **Python string behaviour.** `Text` models what the managers rely on:
  - `str.strip()`, using the full `str.isspace()` character set;
  - truthiness of optional strings and of optional ids (`None`, `""` and `0` are falsy);
  - the substring test behind `LIKE '%s%'`.
- **Clock.** Store-assigned timestamps are a `now` tick that the caller passes in. UpdatedAt comes from `SYSUTCDATETIME()`, which is UTC. CreatedAt comes from a column default in the schema, which is not part of this model. The two ticks need not come from the same clock.

The intended rules are that a customer's name and phone, and a technician's name, phone and skill level, are non-empty after trimming, and that an optional field with no content is stored as null. In three places the code is looser than these rules. The model follows the code:

- `create_customer` tests `name` and `phone` for emptiness *before* stripping them. A whitespace-only name is therefore accepted and stored as `""` (`CustomerService.BlankNameIsStoredEmpty`).
- `create_technician` likewise tests `name`, `phone` and `skill_level` before stripping them. A whitespace-only skill level is therefore accepted and stored as `""` (`TechnicianService.BlankSkillLevelIsStoredEmpty`).
- An optional field that contains only whitespace is stored as `""`, not as null (`Text.StripOrNoneCases`).

## Model

| member | source | states |
|---|---|---|
| Config.StatusEnumeration | app/config.py:15 | the status enumeration has exactly five distinct, case-sensitive members, and both Pending and Assigned are among them |
| Config.ServiceTypeEnumeration | app/config.py:16 | the service-type enumeration has exactly three distinct, case-sensitive members |
| Text.Strip | app/services/customerServiceManager.py:20 | the result is the input with only leading and trailing whitespace removed; it neither starts nor ends with whitespace; it is empty exactly when the input is all whitespace |
| Text.StripIdempotent | app/services/technicianServiceManager.py:17 | stripping a stripped string changes nothing |
| Text.StripOrNoneCases | app/services/customerServiceManager.py:21-22 | `x.strip() if x else None` is null exactly for `None` or `""`; a whitespace-only value becomes `""` |
| Text.ContainsFrom | app/model/CURDoperations.py:37 | the scan succeeds exactly when the search text occurs at some position at or after the start index |
| Text.ContainsIff | app/model/CURDoperations.py:34 | `LIKE '%s%'` holds exactly when `s` occurs somewhere in the column |
| Tables.Insert | app/model/CURDoperations.py:11-24 | insert-then-`SCOPE_IDENTITY()` returns the next identity value, which was not present and exceeds every stored id, and advances the counter by one; it adds exactly that row and leaves every other row unchanged |
| Tables.Modify | app/model/CURDoperations.py:59-66 | a point update changes only the row with that id, and does nothing when the id is absent |
| Tables.Remove | app/model/CURDoperations.py:69-73 | a delete removes exactly that key and leaves every other row unchanged |
| Tables.Select | app/model/CURDoperations.py:32-35 | `TOP (limit) … ORDER BY id DESC` returns at most `limit` stored rows that pass the filter, strictly descending by id, and skips a passing row only when the page is full of larger ids |
| Tables.TopUnique | app/model/CURDoperations.py:42-44 | two pages that both meet the reference meaning of the query are equal |
| Tables.SelectIsTheTop | app/model/CURDoperations.py:147-156 | every correct page for the query is exactly what the scan returns |
| CustomerRepository.KeyFromRow | app/model/CURDoperations.py:49-52 | reading a row back into a Customer loses nothing |
| CustomerRepository.Create | app/model/CURDoperations.py:11-24 | returns a fresh id, and adds exactly one row holding the customer's Name/Phone/Email/Address and CreatedAt = now |
| CustomerRepository.List | app/model/CURDoperations.py:26-52 | a negative limit is refused; otherwise the page is the correct `TOP`/`ORDER BY` page; with a truthy search every returned customer has the search in Name, Phone or a non-null Email, and a falsy search applies no filter |
| CustomerRepository.Update | app/model/CURDoperations.py:54-67 | a falsy id (`None` or `0`) is a ValidationError; otherwise only the matching row's Name/Phone/Email/Address change, its CreatedAt is kept, and an absent id is a no-op |
| CustomerRepository.Delete | app/model/CURDoperations.py:69-73 | removes exactly that key; all other rows are unchanged |
| TechnicianRepository.KeyFromRow | app/model/CURDoperations.py:114-117 | reading a row back into a Technician loses nothing |
| TechnicianRepository.Create | app/model/CURDoperations.py:76-89 | returns a fresh id, and adds exactly one row holding Name/Phone/SkillLevel/Active and CreatedAt = now |
| TechnicianRepository.List | app/model/CURDoperations.py:91-117 | a negative limit is refused; otherwise the page is the correct page; with active_only, every returned technician is active |
| TechnicianRepository.SetActive | app/model/CURDoperations.py:119-126 | only the Active flag of the matching row changes; an absent id is a no-op |
| TechnicianRepository.SetActiveIdempotent | app/model/CURDoperations.py:122-124 | setting the same flag twice is the same as setting it once |
| ServiceOrderRepository.KeyFromRow | app/model/CURDoperations.py:169-175 | reading a row back into a ServiceOrder loses nothing |
| ServiceOrderRepository.Create | app/model/CURDoperations.py:129-142 | returns a fresh id, and adds exactly one row holding the order's columns, CreatedAt = now and a null UpdatedAt |
| ServiceOrderRepository.List | app/model/CURDoperations.py:144-175 | a negative limit is refused; otherwise the page is the correct page; with a truthy status, every returned order has exactly that status |
| ServiceOrderRepository.AssignTechnician | app/model/CURDoperations.py:177-189 | the matching order gets the technician and UpdatedAt = now; its status becomes Assigned if it was Pending and is otherwise kept; its other columns and all other rows are unchanged; an absent id is a no-op |
| ServiceOrderRepository.AdvanceKeepsStatusValid | app/model/CURDoperations.py:183 | the CASE expression maps a status in the enumeration to one in the enumeration, and yields Assigned exactly from Pending or Assigned |
| ServiceOrderRepository.UpdateStatus | app/model/CURDoperations.py:191-202 | the matching order gets the given status and UpdatedAt = now whatever its prior status; nothing else changes |
| ServiceOrderRepository.Delete | app/model/CURDoperations.py:204-208 | removes exactly that key; all other rows are unchanged |
| CustomerService.CreateCustomer | app/services/customerServiceManager.py:17-23 | fails with the store unchanged exactly when name or phone is empty before stripping; otherwise adds one customer under a fresh id, with stripped Name/Phone, Email/Address stripped or null, and no change to the other tables |
| CustomerService.ListCustomers | app/services/customerServiceManager.py:25-26 | the repository's page, with its filter and ordering guarantees |
| CustomerService.UpdateCustomer | app/services/customerServiceManager.py:28-32 | no emptiness check; a falsy id fails with the store unchanged; otherwise only the matching row gets the normalised fields and keeps CreatedAt |
| CustomerService.DeleteCustomer | app/services/customerServiceManager.py:34-35 | removes exactly that customer and touches no other table |
| CustomerService.BlankNameIsStoredEmpty | app/services/customerServiceManager.py:18-20 | a whitespace-only name passes validation and is stored as `""` |
| TechnicianService.BlankSkillLevelIsStoredEmpty | app/services/technicianServiceManager.py:15-17 | a whitespace-only skill level passes validation and is stored as `""` |
| CustomerService.DefaultListing | app/config.py:12 | the default `list_customers()` page holds at most 100 rows |
| TechnicianService.CreateTechnician | app/services/technicianServiceManager.py:14-18 | fails with the store unchanged exactly when name, phone or skill level is empty; otherwise adds one row with the stripped text fields and Active as given |
| TechnicianService.ListTechnicians | app/services/technicianServiceManager.py:20-21 | the repository's page; with active_only, only active technicians |
| TechnicianService.SetTechnicianActive | app/services/technicianServiceManager.py:23-24 | only that technician's Active flag changes, and no other table changes |
| TechnicianService.SetTechnicianActiveIdempotent | app/services/technicianServiceManager.py:23-24 | calling it twice with the same flag leaves the same store as calling it once |
| TechnicianService.DefaultListing | app/services/technicianServiceManager.py:20 | the default call lists at most 100 technicians, all active |
| TechnicianService.DefaultCreatesActive | app/services/technicianServiceManager.py:14 | leaving `active` out creates an active technician |
| ServiceOrderService.CreateOrder | app/services/serviceorderServiceManager.py:12-20 | fails with the store unchanged exactly when the service type is outside the enumeration; otherwise adds one order that is Pending with no technician whatever the inputs, with the description stripped or null; keeps every status inside the enumeration |
| ServiceOrderService.ListOrders | app/services/serviceorderServiceManager.py:22-25 | a truthy status outside the enumeration is a ValidationError; `None` or `""` means no filter; a truthy status returns only orders with exactly that status |
| ServiceOrderService.AssignTechnician | app/services/serviceorderServiceManager.py:27-29 | no validation; sets the technician; status is Assigned afterwards exactly when it was Pending or Assigned, and is otherwise unchanged; keeps every status inside the enumeration |
| ServiceOrderService.UpdateOrderStatus | app/services/serviceorderServiceManager.py:31-34 | fails with the store unchanged exactly for a status outside the enumeration; accepts every member whatever the current status; keeps every status inside the enumeration |
| ServiceOrderService.DeleteOrder | app/services/serviceorderServiceManager.py:36-37 | removes exactly that order, and keeps every status inside the enumeration |
| Scenarios.CustomerFromKey | app/model/CURDoperations.py:50 | a listed customer is determined by the id and row it was read from |
| Scenarios.CreatedCustomerIsListedFirst | app/services/customerServiceManager.py:17-26 | a customer just created heads every unfiltered page with room for one row, carrying its new id and stripped fields |
| Scenarios.DeskWalkthrough | app/services/serviceorderServiceManager.py:12-34 | on an empty store: customer 1, then order 1 Pending with no technician, then technician 7 makes it Assigned, then it is Completed |
| Scenarios.DeskRefusals | app/services/serviceorderServiceManager.py:13-14 | service type "Flying" is refused with the store unchanged, and an update with customer id `None` or `0` is refused |
| Scenarios.CreateThenAssign | app/model/CURDoperations.py:183 | a newly created order that gets a technician becomes Assigned |
| Tables.InsertHeadsSelect | app/model/CURDoperations.py:21-24 | a row just inserted that passes the filter heads every page with room for one row, because its id is the largest |
| Tables.RemovedNotSelected | app/model/CURDoperations.py:204-208 | after a delete, no page holds the deleted id |
| Scenarios.CreatedTechnicianIsListedFirst | app/services/technicianServiceManager.py:14-21 | a technician just created heads every page its Active flag does not exclude, carrying its stripped fields |
| Scenarios.CreatedOrderIsListedFirst | app/services/serviceorderServiceManager.py:12-25 | an order just created heads the unfiltered and the Pending pages, Pending with no technician |
| Scenarios.DeletedCustomerIsNotListed | app/services/customerServiceManager.py:34-35 | a deleted customer appears on no later page |
| Scenarios.DeletedOrderIsNotListed | app/services/serviceorderServiceManager.py:36-37 | a deleted order appears on no later page |
| Scenarios.DeactivatedTechnicianIsNotListed | app/model/CURDoperations.py:94-103 | a technician set inactive drops out of the active-only list |
| Scenarios.UpdatedOrderLeavesOtherStatuses | app/model/CURDoperations.py:147-156 | after a status change, an order is listed under no other status |
| Scenarios.FalsyFiltersAgree | app/model/CURDoperations.py:29 | a `None` and an empty search or status give the same page |
| Tables.RemovedIdNotReissued | app/model/CURDoperations.py:21-22 | an id removed by a delete is not returned by a later insert |
| Scenarios.DeletedCustomerIdNotReused | app/model/CURDoperations.py:11-24 | the id of a deleted customer is not given to the next customer created |
| Scenarios.DeletedOrderIdNotReused | app/model/CURDoperations.py:129-142 | the id of a deleted order is not given to the next order created |

## Left out

- Connections, cursors, commits and driver discovery. Each repository method is one atomic step on the abstract store. When the driver fails to connect, `get_connection()` catches the driver error, prints it and returns `None`. The repository's `with` statement then raises on `None`. Neither the failed connection nor that exception is modelled.
- Store-side failures other than a negative `TOP` count are not modelled. These include constraint violations, broken foreign keys and timeouts. Foreign-key enforcement and cascade policy belong to the store schema, which is not part of this model.
- A negative `limit` is modelled as a `PersistenceError`. This follows the store's refusal of a negative `TOP` count; the Python code passes the value through unchecked.
- CustomerRepository.List: `LIKE` is modelled as a case-sensitive plain substring test. Collation-dependent case folding is not modelled. Nor are the wildcards inside the search text: `%`, `_` and the `[...]` character class.
- ServiceOrderRepository.List: `WHERE Status = ?` is modelled as exact string equality. Under a case-insensitive collation, and with SQL's trailing-blank padding, the store would also match statuses that differ in case or trailing spaces. The managers store only exact enumeration members (`ServiceOrderService.OrdersValid`), so this matters only for rows written past the managers.
- ServiceOrderRepository.AssignTechnician: `CASE WHEN Status = 'Pending'` is modelled as exact equality, with the same collation caveat. A row stored as "pending" through the repository would be advanced by the store but is kept by the model.
- Tables.Insert: assumes the separate `SELECT SCOPE_IDENTITY()` runs in the scope of the `INSERT` and returns its id. If the driver ran the `INSERT` in a scope of its own, `SCOPE_IDENTITY()` would return NULL. `int(None)` would then raise a `TypeError` before the commit, and the insert would not be kept. That failure is not modelled.
- `SCOPE_IDENTITY()` races between concurrent writers. Identity values are modelled as one counter per table, starting at 1 and never reused.
- ServiceOrderRepository.Create: UpdatedAt is null after an insert, because the insert does not set it. A schema default for it is not part of this model.
- Real clock values and datetimes. CreatedAt, UpdatedAt and ScheduledAt are opaque ticks that the caller supplies. The UI's date parsing is not modelled.
- The UI, the login window and the `SQL_*` connection settings of `app/config.py`.
- Default arguments are represented by the constants `Config.DefaultPageSize` and `TechnicianService.DefaultActive`, and by lemmas about the default calls. There are no separate overloads.
