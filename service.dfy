/** `CustomerService`: validates each request against the customer table and,
    once it passes, changes the table. The pure functions `Find`, `Add` and
    `Delete` say what each request answers and what the table becomes; the
    class `CustomerService` holds the table and is proved against them. */
module Service {
  import opened Wrappers
  import opened Decimal
  import opened CustomerDao

  /** The body of a registration: every field is required, and there is no id. */
  datatype CustomerRegistrationRequest = CustomerRegistrationRequest(name: string, email: string, age: int)

  /** The two exceptions the service throws, with their messages. */
  datatype ServiceError =
    | ResourceNotFound(message: string)
    | DuplicateResource(message: string)

  /** "customer with id [<id>] not found", the id printed as `%s` prints it:
      the text between the brackets reads back as the id. */
  function NotFoundMessage(id: int): (m: string)
    ensures |m| >= 18 + 11 && m[..18] == "customer with id [" && m[|m| - 11..] == "] not found"
    ensures DecimalToInt(m[18..|m| - 11]) == id
  {
    IntDecimalRoundTrip(id);
    var m := "customer with id [" + IntToDecimal(id) + "] not found";
    assert m[18..|m| - 11] == IntToDecimal(id);
    m
  }

  const EmailTakenMessage: string := "Email already taken"

  /** The not-found message names the id it is about: two ids never share one. */
  lemma NotFoundMessageNamesId(a: int, b: int)
    requires NotFoundMessage(a) == NotFoundMessage(b)
    ensures a == b
  {
    var prefix, suffix := "customer with id [", "] not found";
    var m := NotFoundMessage(a);
    assert m == prefix + IntToDecimal(a) + suffix;
    assert m == prefix + IntToDecimal(b) + suffix;
    assert IntToDecimal(a) == m[|prefix|..|m| - |suffix|];
    assert IntToDecimal(b) == m[|prefix|..|m| - |suffix|];
    IntToDecimalInjective(a, b);
  }

  /** The new customer built from a registration request: no id yet, and
      the request's name, email and age. */
  function NewCustomer(request: CustomerRegistrationRequest): (c: Customer)
    ensures c.id == None
    ensures c.name == request.name && c.email == request.email && c.age == request.age
  {
    Customer(None, request.name, request.email, request.age)
  }

  /** What `getCustomer(id)` answers when the table is `t`. */
  function Find(t: Table, id: int): (r: Result<Customer, ServiceError>)
    ensures r.Success? <==> id in t
    ensures r.Success? ==> r.value == t[id]
    ensures r.Failure? ==> r.error == ResourceNotFound(NotFoundMessage(id))
  {
    match SelectCustomerById(t, id)
    case Some(c) => Success(c)
    case None => Failure(ResourceNotFound(NotFoundMessage(id)))
  }

  /** The table after `addCustomer(request)`, or the error it throws; `freshId`
      is the key the database assigns to the inserted row. */
  function Add(t: Table, freshId: int, request: CustomerRegistrationRequest): (r: Result<Table, ServiceError>)
    requires freshId !in t
    ensures r.Failure? <==> ExistsWithEmail(t, request.email)
    ensures r.Failure? ==> r.error == DuplicateResource(EmailTakenMessage)
  {
    if ExistsWithEmail(t, request.email) then
      Failure(DuplicateResource(EmailTakenMessage))
    else
      Success(InsertCustomer(t, freshId, NewCustomer(request)))
  }

  /** The table after `deleteCustomerById(id)`, or the error it throws. */
  function Delete(t: Table, id: int): (r: Result<Table, ServiceError>)
    ensures r.Failure? <==> id !in t
    ensures r.Failure? ==> r.error == ResourceNotFound(NotFoundMessage(id))
  {
    if !ExistsWithId(t, id) then
      Failure(ResourceNotFound(NotFoundMessage(id)))
    else
      Success(DeleteCustomerById(t, id))
  }

  /** A registration with an unused email inserts exactly one row, under the
      fresh id, carrying the request's fields; every other row is untouched. */
  lemma AddInsertsOneRow(t: Table, freshId: int, request: CustomerRegistrationRequest)
    requires freshId !in t && !ExistsWithEmail(t, request.email)
    ensures Add(t, freshId, request).Success?
    ensures var u := Add(t, freshId, request).value;
      && u.Keys == t.Keys + {freshId}
      && |u| == |t| + 1
      && u[freshId] == Customer(Some(freshId), request.name, request.email, request.age)
      && (forall k :: k in t ==> u[k] == t[k])
  {
  }

  /** Because the email check comes before the insert, a table whose emails
      are unique keeps them unique through `addCustomer`. */
  lemma AddKeepsEmailsUnique(t: Table, freshId: int, request: CustomerRegistrationRequest)
    requires freshId !in t && UniqueEmails(t)
    ensures Add(t, freshId, request).Success? ==> UniqueEmails(Add(t, freshId, request).value)
  {
  }

  /** The inserted row carries the id it is stored under. */
  lemma AddKeepsWellKeyed(t: Table, freshId: int, request: CustomerRegistrationRequest)
    requires freshId !in t && WellKeyed(t)
    ensures Add(t, freshId, request).Success? ==> WellKeyed(Add(t, freshId, request).value)
  {
  }

  /** Deleting a stored id removes exactly that row, keeps every other one,
      and a following `getCustomer` of the id fails with not-found. */
  lemma DeleteThenNotFound(t: Table, id: int)
    requires id in t
    ensures Delete(t, id).Success?
    ensures var u := Delete(t, id).value;
      && u.Keys == t.Keys - {id}
      && |u| == |t| - 1
      && (forall k :: k in u ==> u[k] == t[k])
      && Find(u, id) == Failure(ResourceNotFound(NotFoundMessage(id)))
  {
  }

  /** Registering a customer, then listing: the customer is listed with an
      assigned id, filtering the listing by its email finds that id alone,
      and `getCustomer` of that id returns it. */
  lemma RegisterThenListAndGet(t: Table, freshId: int, request: CustomerRegistrationRequest)
    requires WellKeyed(t) && freshId !in t && !ExistsWithEmail(t, request.email)
    ensures Add(t, freshId, request).Success?
    ensures var u := Add(t, freshId, request).value;
      && IdsWithEmail(u, request.email) == {freshId}
      && (exists c :: c in SelectAllCustomers(u) && c.id == Some(freshId)
           && c.name == request.name && c.email == request.email && c.age == request.age
           && Find(u, freshId) == Success(c))
  {
    var u := Add(t, freshId, request).value;
    AddKeepsWellKeyed(t, freshId, request);
    forall k | k in IdsWithEmail(u, request.email) ensures k == freshId {
      if k != freshId {
        assert false;
      }
    }
    assert freshId in IdsWithEmail(u, request.email);
    assert u[freshId] in SelectAllCustomers(u);
  }

  /** Registering, deleting the new id, then `getCustomer` of it: not found. */
  lemma RegisterThenDeleteThenNotFound(t: Table, freshId: int, request: CustomerRegistrationRequest)
    requires freshId !in t && !ExistsWithEmail(t, request.email)
    ensures Add(t, freshId, request).Success?
    ensures Delete(Add(t, freshId, request).value, freshId).Success?
    ensures Find(Delete(Add(t, freshId, request).value, freshId).value, freshId)
      == Failure(ResourceNotFound(NotFoundMessage(freshId)))
  {
  }

  /** Two registrations with one email: the second fails with the duplicate
      error and exactly one row holds the email. */
  lemma RegisterTwiceSameEmail(t: Table, firstId: int, secondId: int,
                               first: CustomerRegistrationRequest, second: CustomerRegistrationRequest)
    requires firstId !in t && secondId !in t && secondId != firstId
    requires !ExistsWithEmail(t, first.email) && second.email == first.email
    ensures Add(t, firstId, first).Success?
    ensures secondId !in Add(t, firstId, first).value
    ensures Add(Add(t, firstId, first).value, secondId, second) == Failure(DuplicateResource(EmailTakenMessage))
    ensures |IdsWithEmail(Add(t, firstId, first).value, first.email)| == 1
  {
    var u := Add(t, firstId, first).value;
    EmailExistsAfterInsert(t, firstId, NewCustomer(first));
    forall k | k in IdsWithEmail(u, first.email) ensures k == firstId {
      if k != firstId {
        assert false;
      }
    }
    assert IdsWithEmail(u, first.email) == {firstId};
  }

  /** The service, with the table behind its `customerDao` field. */
  class CustomerService {
    /** The stored rows. */
    var table: Table
    /** The next value of the database's id sequence. */
    var nextId: int

    ghost predicate Valid()
      reads this
    {
      WellKeyed(table) && forall k :: k in table ==> k < nextId
    }

    /** A service over a table whose id sequence is past every stored key. */
    constructor (rows: Table, sequenceNext: int)
      requires WellKeyed(rows) && forall k :: k in rows ==> k < sequenceNext
      ensures Valid() && table == rows && nextId == sequenceNext
    {
      table := rows;
      nextId := sequenceNext;
    }

    /** `getAllCustomers`: every stored record, each found by its own id. */
    method GetAllCustomers() returns (all: set<Customer>)
      requires Valid()
      ensures forall k :: k in table ==> table[k] in all
      ensures forall c :: c in all ==> c.id.Some? && Find(table, c.id.value) == Success(c)
    {
      all := SelectAllCustomers(table);
    }

    /** `getCustomer`: the stored record, or not-found. */
    method GetCustomer(id: int) returns (r: Result<Customer, ServiceError>)
      ensures r == Find(table, id)
    {
      var found := SelectCustomerById(table, id);
      if found.Some? {
        r := Success(found.value);
      } else {
        r := Failure(ResourceNotFound(NotFoundMessage(id)));
      }
    }

    /** `addCustomer`: reject a taken email, else insert the new customer
        under the next id of the sequence, which no stored row holds. */
    method AddCustomer(request: CustomerRegistrationRequest) returns (outcome: Outcome<ServiceError>)
      requires Valid()
      modifies this
      ensures Valid()
      ensures outcome.Fail? <==> ExistsWithEmail(old(table), request.email)
      ensures outcome.Fail? ==>
        outcome.error == DuplicateResource(EmailTakenMessage) && table == old(table) && nextId == old(nextId)
      ensures outcome.Pass? ==>
        old(nextId) !in old(table) && Add(old(table), old(nextId), request) == Success(table) && nextId == old(nextId) + 1
      ensures UniqueEmails(old(table)) ==> UniqueEmails(table)
    {
      var email := request.email;
      if ExistsWithEmail(table, email) {
        outcome := Fail(DuplicateResource(EmailTakenMessage));
        return;
      }
      var customer := NewCustomer(request);
      if UniqueEmails(table) {
        AddKeepsEmailsUnique(table, nextId, request);
      }
      table := InsertCustomer(table, nextId, customer);
      nextId := nextId + 1;
      outcome := Pass;
    }

    /** `deleteCustomerById`: reject an unknown id, else delete its row. */
    method DeleteCustomerById(customerId: int) returns (outcome: Outcome<ServiceError>)
      requires Valid()
      modifies this
      ensures Valid() && nextId == old(nextId)
      ensures outcome.Fail? <==> customerId !in old(table)
      ensures outcome.Fail? ==>
        outcome.error == ResourceNotFound(NotFoundMessage(customerId)) && table == old(table)
      ensures outcome.Pass? ==> Delete(old(table), customerId) == Success(table)
      ensures UniqueEmails(old(table)) ==> UniqueEmails(table)
    {
      if !ExistsWithId(table, customerId) {
        outcome := Fail(ResourceNotFound(NotFoundMessage(customerId)));
        return;
      }
      if UniqueEmails(table) {
        DeleteKeepsUniqueEmails(table, customerId);
      }
      table := CustomerDao.DeleteCustomerById(table, customerId);
      outcome := Pass;
    }
  }
}
