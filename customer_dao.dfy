/** The customer table behind the `CustomerDao` port, as an abstract map from
    id to row. Its operations are the DAO's, and the lemmas at the end are the
    contract the DAO tests expect of any implementation of it. */
module CustomerDao {
  import opened Wrappers

  /** A customer record; `id` is `None` until the database assigns one. */
  datatype Customer = Customer(id: Option<int>, name: string, email: string, age: int)

  /** The stored rows, keyed by id. */
  type Table = map<int, Customer>

  /** Every stored row carries its own key as its id. */
  predicate WellKeyed(t: Table)
  {
    forall k :: k in t ==> t[k].id == Some(k)
  }

  /** No two stored rows share an email. */
  predicate UniqueEmails(t: Table)
  {
    forall a, b :: a in t && b in t && t[a].email == t[b].email ==> a == b
  }

  /** The ids of the rows holding `email`. */
  function IdsWithEmail(t: Table, email: string): set<int>
  {
    set k | k in t && t[k].email == email
  }

  /** `selectAllCustomers`: every stored row, in no particular order. */
  function SelectAllCustomers(t: Table): (all: set<Customer>)
    requires WellKeyed(t)
    ensures forall k :: k in t ==> t[k] in all
    ensures forall c :: c in all ==> c.id.Some? && c.id.value in t && t[c.id.value] == c
  {
    set k | k in t :: t[k]
  }

  /** `selectCustomerById`: the row under `id`, if any. */
  function SelectCustomerById(t: Table, id: int): (r: Option<Customer>)
    ensures r.Some? <==> id in t
    ensures r.Some? ==> r.value == t[id]
  {
    if id in t then Some(t[id]) else None
  }

  /** `existsPersonWithEmail`, which the service tests call
      `existsCustomerWithEmail` and the DAO tests `existsCustomerByEmail`:
      filtering the rows by `email` finds some id. */
  predicate ExistsWithEmail(t: Table, email: string)
    ensures ExistsWithEmail(t, email) <==> IdsWithEmail(t, email) != {}
  {
    HoldersOfEmail(t, email);
    exists k :: k in t && t[k].email == email
  }

  lemma HoldersOfEmail(t: Table, email: string)
    ensures (exists k :: k in t && t[k].email == email) <==> IdsWithEmail(t, email) != {}
  {
    if k :| k in t && t[k].email == email {
      assert k in IdsWithEmail(t, email);
    } else {
      assert forall j :: j !in IdsWithEmail(t, email);
      assert IdsWithEmail(t, email) == {};
    }
  }

  /** `existsPersonWithId`, which the service tests call `existsCustomerById`:
      select-by-id finds a row. */
  predicate ExistsWithId(t: Table, id: int)
    ensures ExistsWithId(t, id) <==> SelectCustomerById(t, id).Some?
  {
    id in t
  }

  /** `insertCustomer`: store `c` under `id`, the key the database assigns. */
  function InsertCustomer(t: Table, id: int, c: Customer): (r: Table)
    requires id !in t
    ensures r.Keys == t.Keys + {id}
    ensures r[id] == Customer(Some(id), c.name, c.email, c.age)
    ensures forall k :: k in t && k != id ==> r[k] == t[k]
  {
    t[id := c.(id := Some(id))]
  }

  /** `deleteCustomerById`: drop the row under `id`. */
  function DeleteCustomerById(t: Table, id: int): (r: Table)
    ensures r.Keys == t.Keys - {id}
    ensures forall k :: k in r ==> r[k] == t[k]
  {
    t - {id}
  }

  /** An inserted row is then found by its id, with the inserted fields. */
  lemma InsertedRowIsFound(t: Table, id: int, c: Customer)
    requires id !in t
    ensures var found := SelectCustomerById(InsertCustomer(t, id, c), id);
      found.Some? && found.value.id == Some(id) &&
      found.value.name == c.name && found.value.email == c.email && found.value.age == c.age
  {
  }

  /** After an insert, exists-by-email holds for the inserted email. */
  lemma EmailExistsAfterInsert(t: Table, id: int, c: Customer)
    requires id !in t
    ensures ExistsWithEmail(InsertCustomer(t, id, c), c.email)
  {
  }

  /** Exists-by-id and select-by-id agree: an unknown id is neither. */
  lemma ExistsWithIdIffSelected(t: Table, id: int)
    ensures ExistsWithId(t, id) <==> SelectCustomerById(t, id).Some?
  {
  }

  /** A deleted row is gone and every other row is unchanged. */
  lemma DeletedRowIsGone(t: Table, id: int)
    ensures SelectCustomerById(DeleteCustomerById(t, id), id) == None
    ensures forall k :: k != id ==> SelectCustomerById(DeleteCustomerById(t, id), k) == SelectCustomerById(t, k)
  {
  }

  /** Inserting under a key that is not yet taken adds exactly one row. */
  lemma InsertAddsOneRow(t: Table, id: int, c: Customer)
    requires id !in t
    ensures |InsertCustomer(t, id, c)| == |t| + 1
  {
  }

  /** Deleting a stored row removes exactly one row. */
  lemma DeleteRemovesOneRow(t: Table, id: int)
    requires id in t
    ensures |DeleteCustomerById(t, id)| == |t| - 1
  {
  }

  lemma InsertKeepsWellKeyed(t: Table, id: int, c: Customer)
    requires id !in t && WellKeyed(t)
    ensures WellKeyed(InsertCustomer(t, id, c))
  {
  }

  lemma DeleteKeepsWellKeyed(t: Table, id: int)
    requires WellKeyed(t)
    ensures WellKeyed(DeleteCustomerById(t, id))
  {
  }

  /** Removing a row cannot create a duplicate email. */
  lemma DeleteKeepsUniqueEmails(t: Table, id: int)
    requires UniqueEmails(t)
    ensures UniqueEmails(DeleteCustomerById(t, id))
  {
  }

  /** Under unique emails, at most one id holds any email. */
  lemma UniqueEmailsAtMostOne(t: Table, email: string)
    requires UniqueEmails(t)
    ensures |IdsWithEmail(t, email)| <= 1
  {
    var ids := IdsWithEmail(t, email);
    if k :| k in t && t[k].email == email {
      forall j | j in ids ensures j == k {
        assert t[j].email == t[k].email;
      }
      assert ids == {k};
    } else {
      assert forall j :: j !in ids;
      assert ids == {};
    }
  }
}
