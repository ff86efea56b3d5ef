# Customer service model

A Dafny model of `CustomerService` from a small Spring customer-management
service. The service answers four requests over the customer table that its
`customerDao` field gives access to:

- `getAllCustomers` lists every stored customer;
- `getCustomer(id)` returns the stored customer or throws
  `ResourceNotFoundException("customer with id [<id>] not found")`;
- `addCustomer(request)` throws `DuplicateResourceException("Email already taken")`
  when a stored customer already has the request's email, and otherwise
  inserts a new, id-less customer built from the request (the database then
  assigns the id);
- `deleteCustomerById(id)` throws the not-found exception for an unknown id,
  and otherwise deletes that row.

Files:

- `wrappers.dfy`: `Option` (Java's `Optional`), `Result` (a value or a
  thrown exception), `Outcome` (a `void` method that returned or threw).
- `decimal.dfy`: how `%s` prints an `Integer` inside the not-found message,
  with its inverse and the round trip between them.
- `customer_dao.dfy`: the customer record, the table (`map<int, Customer>`)
  standing in for `CustomerDao`, the DAO operations as functions on it, and
  the contract the DAO tests expect of them (an inserted row is found by id,
  exists-by-email holds after an insert, an unknown id does not exist, a
  deleted row is gone). The service calls `existsPersonWithEmail` and
  `existsPersonWithId`. The service tests mock `existsCustomerWithEmail` and
  `existsCustomerById`, and the DAO tests call `existsCustomerByEmail`. The
  email checks are one predicate here, `ExistsWithEmail`, and the id checks
  are another, `ExistsWithId`.
- `service.dfy`: the pure meaning of each request (`Find`, `Add`, `Delete`),
  lemmas about them, and the class `CustomerService`. The class holds the
  table and the database's id sequence as fields that `AddCustomer` and
  `DeleteCustomerById` change in place. `GetCustomer`, `AddCustomer` and
  `DeleteCustomerById` are proved against `Find`, `Add` and `Delete`.
  `GetAllCustomers` is proved against the DAO listing
  `CustomerDao.SelectAllCustomers` and against `Find`.

The database assigns ids. The model gives it an id sequence: the field
`nextId`, which the class invariant `Valid()` keeps above every stored key.
So the id an insert receives is always a key not yet in the table. The pure
function `Add` takes that fresh id as a parameter.

## Model

| member | source | states |
|---|---|---|
| Decimal.NatDecimalRoundTrip | src/main/java/com/armand/customer/CustomerService.java:25 | the digits printed for a natural number are a non-empty digit string that reads back as that number |
| Decimal.IntDecimalRoundTrip | src/main/java/com/armand/customer/CustomerService.java:25 | the text `%s` prints for any integer id, minus sign included, reads back as that id |
| Decimal.IntToDecimalInjective | src/main/java/com/armand/customer/CustomerService.java:25 | two different ids are never printed as the same text |
| CustomerDao.SelectAllCustomers | src/test/java/com/armand/customer/CustomerJDBCDataAccessServiceTest.java:23-35 | the listing contains every stored row, and every listed row carries an id under which exactly that row is stored |
| CustomerDao.SelectCustomerById | src/test/java/com/armand/customer/CustomerJDBCDataAccessServiceTest.java:37-76 | a row is returned exactly when the id is stored, and it is the stored row; an unknown id gives empty |
| CustomerDao.ExistsWithEmail | src/main/java/com/armand/customer/CustomerService.java:31 | some stored row holds the email: exactly when filtering the rows by that email finds some id |
| CustomerDao.ExistsWithId | src/main/java/com/armand/customer/CustomerService.java:44 | the id is a stored key: exactly when select-by-id finds a row |
| CustomerDao.InsertCustomer | src/main/java/com/armand/customer/CustomerService.java:40 | given a key the table does not hold (the database's fresh id), the table gains that key, whose row has that id and the inserted name, email and age; every other row is unchanged |
| CustomerDao.DeleteCustomerById | src/main/java/com/armand/customer/CustomerService.java:50 | the table loses exactly the given key; every remaining row is unchanged |
| CustomerDao.InsertedRowIsFound | src/test/java/com/armand/customer/CustomerJDBCDataAccessServiceTest.java:78-103 | after an insert, select-by-id of the assigned id finds a row with that id and the inserted name, email and age |
| CustomerDao.EmailExistsAfterInsert | src/test/java/com/armand/customer/CustomerJDBCDataAccessServiceTest.java:105-118 | after an insert, exists-by-email holds for the inserted email |
| CustomerDao.ExistsWithIdIffSelected | src/test/java/com/armand/customer/CustomerJDBCDataAccessServiceTest.java:132-158 | exists-by-id holds exactly when select-by-id finds a row, so it is false for an unknown id |
| CustomerDao.DeletedRowIsGone | src/test/java/com/armand/customer/CustomerJDBCDataAccessServiceTest.java:160-180 | after a delete, select-by-id of that id is empty and every other id selects what it did before |
| CustomerDao.InsertAddsOneRow | src/main/java/com/armand/customer/CustomerService.java:40 | an insert under a fresh key grows the table by exactly one row |
| CustomerDao.DeleteRemovesOneRow | src/main/java/com/armand/customer/CustomerService.java:50 | deleting a stored id shrinks the table by exactly one row |
| CustomerDao.InsertKeepsWellKeyed | src/main/java/com/armand/customer/CustomerService.java:40 | after an insert every row still carries its own key as its id |
| CustomerDao.DeleteKeepsWellKeyed | src/main/java/com/armand/customer/CustomerService.java:50 | after a delete every row still carries its own key as its id |
| CustomerDao.DeleteKeepsUniqueEmails | src/main/java/com/armand/customer/CustomerService.java:50 | a delete never makes two rows share an email |
| CustomerDao.UniqueEmailsAtMostOne | src/test/java/com/armand/customer/CustomerJDBCDataAccessServiceTest.java:84-89 | when emails are unique, filtering the rows by an email finds at most one id |
| Service.NotFoundMessage | src/main/java/com/armand/customer/CustomerService.java:25 | "customer with id [" + the id as `%s` prints it + "] not found"; the text between the brackets reads back as the id |
| Service.NewCustomer | src/main/java/com/armand/customer/CustomerService.java:35-39 | an id-less customer with the request's name, email and age |
| Service.NotFoundMessageNamesId | src/main/java/com/armand/customer/CustomerService.java:45-47 | the not-found message identifies its id: two different ids never get the same message |
| Service.Find | src/main/java/com/armand/customer/CustomerService.java:22-26 | `getCustomer(id)` succeeds exactly when the id is stored, and then returns the stored record; otherwise it fails with "customer with id [id] not found" |
| Service.Add | src/main/java/com/armand/customer/CustomerService.java:28-41 | given a key the table does not hold, `addCustomer` fails exactly when some stored customer has the request's email, and then with "Email already taken" |
| Service.Delete | src/main/java/com/armand/customer/CustomerService.java:43-51 | `deleteCustomerById(id)` fails exactly when the id is not stored, and then with "customer with id [id] not found" |
| Service.AddInsertsOneRow | src/main/java/com/armand/customer/CustomerService.java:35-40 | with a fresh email, `addCustomer` inserts exactly one row under the fresh id, holding the request's name, email and age, and leaves every existing row unchanged |
| Service.AddKeepsEmailsUnique | src/main/java/com/armand/customer/CustomerService.java:31-40 | if no two stored customers share an email before `addCustomer`, none do after it |
| Service.AddKeepsWellKeyed | src/main/java/com/armand/customer/CustomerService.java:35-40 | after `addCustomer` every row still carries its own key as its id |
| Service.DeleteThenNotFound | src/main/java/com/armand/customer/CustomerService.java:43-51 | deleting a stored id removes exactly that row, keeps all others, and a following `getCustomer(id)` fails with not-found |
| Service.RegisterThenListAndGet | src/test/java/com/armand/journey/CustomerIntegrationTest.java:33-91 | after a registration, the listing holds the customer with an assigned id, filtering by its email finds that id alone, and `getCustomer` of that id returns it |
| Service.RegisterThenDeleteThenNotFound | src/test/java/com/armand/journey/CustomerIntegrationTest.java:94-149 | registering, then deleting the new id, then `getCustomer` of that id fails with not-found |
| Service.RegisterTwiceSameEmail | src/test/java/com/armand/customer/CustomerServiceTest.java:83-94 | a second registration with an email already registered fails with "Email already taken", and exactly one row holds that email |
| Service.CustomerService.constructor | src/main/java/com/armand/customer/CustomerService.java:14-16 | the service starts over the given rows, with the id sequence past every stored key |
| Service.CustomerService.GetAllCustomers | src/main/java/com/armand/customer/CustomerService.java:18-20 | returns every stored record, each found by its own id; the table is not modified |
| Service.CustomerService.GetCustomer | src/main/java/com/armand/customer/CustomerService.java:22-26 | returns what `Find` gives on the current table; the table is not modified |
| Service.CustomerService.AddCustomer | src/main/java/com/armand/customer/CustomerService.java:28-41 | fails exactly when the email is taken, and then changes nothing; otherwise the table becomes `Add` of the old table under the next sequence id, which no row held; unique emails are preserved |
| Service.CustomerService.DeleteCustomerById | src/main/java/com/armand/customer/CustomerService.java:43-51 | fails with not-found exactly when the id is unknown, and then deletes nothing; otherwise the table becomes `Delete` of the old table; unique emails are preserved |

## Left out

- `updateCustomer` and the partial-update merge are not part of this model. The service class as it stands has no such method. It is called from src/main/java/com/armand/customer/CustomerController.java:58, and it is exercised by the service tests and by the integration test's update journey. The DAO's `updateCustomer` overwrite is left out with it.
- The JDBC and JPA DAO implementations are SQL and ORM calls, and several of their methods are stubs that return constants. The model uses the abstract table, with the contract that the DAO tests state.
- The controller (HTTP routing, JSON binding) and the Spring bootstrap with its generated seed data are not part of this model. Neither is the qualifier that selects the DAO backend.
- Concurrency is not modelled. Each model call runs on its own. Two registrations racing between the email check and the insert would both pass the check; the design relies on a unique constraint on email in the database to stop the second insert. No schema among the source files declares that constraint.
- `Service.CustomerService.GetAllCustomers` returns a set, not a list. The order of the list is up to the backend.
- Java `null` for a request's name, email or age and for an `Integer` id is not modelled. Fields are plain strings and integers.
- Ids and ages are 32-bit Java integers, but the model uses unbounded integers, and the `nextId` counter has no upper limit. The service does no arithmetic on ids or ages, so its decisions are unaffected; a sequence reaching its 32-bit limit is not modelled.
- The database id sequence is modelled as a counter that only grows. A backend could reuse deleted ids; the model only relies on the id being fresh.
- Exceptions are returned as `Failure`/`Fail` values instead of being thrown. Storage errors from the database are not modelled.
