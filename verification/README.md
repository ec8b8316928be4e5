# MemoryDAO model

A Dafny model of the in-memory data access object of the OCPP 1.6 task
package (`app/tasks/ocpp16/memorydao.py`). It covers three things:

- **`Model` records.** Each record has a registry id `reg_id`, which may be
  unset, plus its other attributes. Records compare equal through
  `__eq__`/`__ne__`, and hashing them requires a registry id.
- **`MemoryDAO`.** This keeps records in a dict keyed by registry id. It
  supports `create`, `retrieve`, `retrieve_all`, `update`, `delete`,
  `find_by` and `persist`. Each of these raises the source's Python
  exception when it fails: `FileExistsError`, `FileNotFoundError` or
  `KeyError`.
- **`MemoryDAOFactory`.** This hands out one `MemoryDAO` per class.

The model is split into three files:

- `models.dfy` (module `Models`) holds the record:
  - its class, in a single-inheritance hierarchy rooted at `Model`;
  - `__dict__`, as `Dict`;
  - the `__eq__` method as written, as `Eq`;
  - Python's `==` operator, which tries the reflected `__eq__` first when the
    right operand's class is a proper subclass of the left's, as `Equals`;
  - the precondition of `__hash__`.
- `stores.dfy` (module `Stores`) treats the store's contents as a value.
  - A `Store` is the `_stack` map plus the sequence of its keys in insertion
    order, which is the order in which a Python dict enumerates them.
  - `Valid` is the store's invariant: the keys are listed once each, the
    listed keys are the map's keys, and every record sits under its own
    registry id.
  - Each DAO operation is a function on `Store`. The lemmas prove what each
    one promises: its failure cases, that `Valid` is kept, what `retrieve`
    and `retrieve_all` see afterwards, and how `find_by` counts matches.
- `dao.dfy` (module `Dao`) holds the classes.
  - `MemoryDAO` keeps `stack` and `order` fields that its methods update in
    place. Each method's postcondition ties its result and the new state to
    the corresponding `Stores` function applied to the old state.
  - The nested loops of `find_by` are methods with loop invariants, proved
    against `Stores.Scan`.
  - `MemoryDAOFactory` keeps a map from class identity to store.

Records are immutable values. Every `deepcopy` in the source is therefore
the value itself, and a caller cannot reach stored state through a returned
record.

The errors are the ones the code raises:

- Hashing a record without a registry id raises `AssertionError`.
- `retrieve` and `update` of an absent id raise `FileNotFoundError`.
- `create` of a present id raises `FileExistsError`.
- `delete` does not check that the id is present, so deleting an absent id
  raises the `KeyError` of `del`.
- `__eq__` is `isinstance(other, self.__class__)`, so an instance of a
  subclass passes. Only through Python's `==` operator are two records
  equal exactly when they have the same class and the same registry id
  (`EqualsIffSameClassAndId`). Calling `__eq__` directly is not symmetric
  (`EqNotSymmetric`).

## Model

| member | source | states |
|---|---|---|
| Models.EqualsIffSameClassAndId | app/tasks/ocpp16/memorydao.py:15-16 | `x == y` holds exactly when the two records have the same class and the same registry id, and `==` is symmetric |
| Models.EqNotSymmetric | app/tasks/ocpp16/memorydao.py:15-16 | called directly, `__eq__` accepts a subclass instance with the same registry id but not the reverse, so it is not symmetric |
| Models.NotEqualsIsNegation | app/tasks/ocpp16/memorydao.py:18-19 | `__ne__` is the negation of `__eq__`, and `!=` is the negation of `==` |
| Models.EqualRecordsAgreeOnHash | app/tasks/ocpp16/memorydao.py:21-24 | records equal through `==` are both unhashable (`AssertionError`, `reg_id` is None) or both hashable with the same registry id; the hash value is left out |
| Stores.StoredRecordsHashable | app/tasks/ocpp16/memorydao.py:21-24 | in a valid store every record is hashable except the one stored under `None`, and each record's registry id is the key it is stored under |
| Stores.EmptyIsValid | app/tasks/ocpp16/memorydao.py:39-40 | a new, empty store satisfies the store invariant |
| Stores.CreateSpec | app/tasks/ocpp16/memorydao.py:45-48 | `create` fails with `FileExistsError` exactly when the id is present. Otherwise it keeps the invariant, `retrieve` returns the record, and `retrieve_all` gains it as the last element |
| Stores.Retrieve | app/tasks/ocpp16/memorydao.py:50-54 | fails with `FileNotFoundError` exactly when the id is absent; otherwise returns a stored record with that registry id |
| Stores.RetrieveAll | app/tasks/ocpp16/memorydao.py:56-57 | one record per entry, in insertion order, each being the record stored under the key at that position; `[]` for an empty store |
| Stores.RetrieveAllComplete | app/tasks/ocpp16/memorydao.py:56-57 | every stored record is among those `retrieve_all` returns |
| Stores.RetrieveAllDistinct | app/tasks/ocpp16/memorydao.py:56-57 | `retrieve_all` returns no record twice |
| Stores.UpdateSpec | app/tasks/ocpp16/memorydao.py:59-61 | on a present id, `update` keeps the invariant and the insertion order, `retrieve` returns the new record, and `retrieve_all` changes only at the position of that id |
| Stores.UpdateAbsent | app/tasks/ocpp16/memorydao.py:62-63 | `update` of an absent id fails with `FileNotFoundError` |
| Stores.DeleteKeepsValid | app/tasks/ocpp16/memorydao.py:65-66 | `delete` of a present id keeps the invariant and drops exactly that key from the insertion order |
| Stores.DeleteKeepsOrder | app/tasks/ocpp16/memorydao.py:65-66 | after `delete`, `retrieve_all` returns the other records in their former order |
| Stores.DeleteSpec | app/tasks/ocpp16/memorydao.py:65-66 | on a present id, `delete` removes exactly that id's entry and keeps the invariant. Afterwards `retrieve` of the id fails with `FileNotFoundError`; the insertion order and `retrieve_all` lose only the position of that id |
| Stores.DeleteAbsent | app/tasks/ocpp16/memorydao.py:65-66 | `delete` of an absent id fails with `KeyError` |
| Stores.Persist | app/tasks/ocpp16/memorydao.py:82-87 | an absent record is created and returned as given; for a present one the store is unchanged and the stored record is returned. Either way the invariant holds and `retrieve` returns the result |
| Stores.PersistIgnoresInput | app/tasks/ocpp16/memorydao.py:85-86 | for a present id, `persist` ignores every field of its argument except the registry id |
| Stores.CreateComparedKeys | app/tasks/ocpp16/memorydao.py:73-74 | the record created in an empty store decides the compared fields; creating into a non-empty store leaves them unchanged |
| Stores.DeleteFirstComparedKeys | app/tasks/ocpp16/memorydao.py:73-74 | after deleting the first-inserted record, the record inserted next decides the compared fields |
| Stores.UpdateComparedKeys | app/tasks/ocpp16/memorydao.py:73-74 | updating the first-inserted record lets its new fields decide the compared fields; updating any other record leaves them unchanged |
| Stores.MatchingKeysStep | app/tasks/ocpp16/memorydao.py:76-79 | comparing one more field adds one match exactly when the record holds the requested value there |
| Stores.ScanStops | app/tasks/ocpp16/memorydao.py:75-79 | once the scan has raised `KeyError`, scanning further records raises the same |
| Stores.ScanSpec | app/tasks/ocpp16/memorydao.py:75-79 | the scan over the first `n` records fails with `KeyError` exactly when one of them lacks a compared field; otherwise it yields each record once per compared field it matches, in order |
| Stores.HitsAreRecords | app/tasks/ocpp16/memorydao.py:75-79 | everything the scan appends is one of the scanned records |
| Stores.HitsCount | app/tasks/ocpp16/memorydao.py:75-79 | a record that occurs once is appended as many times as it matches compared fields, and never before it is scanned |
| Stores.FindBySpec | app/tasks/ocpp16/memorydao.py:68-80 | `find_by` returns `[]` on an empty store. Otherwise it fails with `KeyError` exactly when a stored record lacks a compared field, and on success returns the scan's hits in insertion order |
| Stores.FindByCounts | app/tasks/ocpp16/memorydao.py:75-80 | a successful `find_by` returns each stored record as many times as it matches compared fields (OR semantics), and only stored records |
| Stores.FindByOneField | app/tasks/ocpp16/memorydao.py:68-80 | searching one field that every record has returns exactly the records holding that value, in insertion order, each once |
| Dao.MemoryDAO.constructor | app/tasks/ocpp16/memorydao.py:39-40 | a new DAO holds an empty, valid store |
| Dao.MemoryDAO.Create | app/tasks/ocpp16/memorydao.py:45-48 | raises `FileExistsError` and changes nothing when the id is present; otherwise the new state is `Stores.Create` of the old one and the invariant holds |
| Dao.MemoryDAO.Retrieve | app/tasks/ocpp16/memorydao.py:50-54 | returns `Stores.Retrieve` of the current state |
| Dao.MemoryDAO.RetrieveAll | app/tasks/ocpp16/memorydao.py:56-57 | the loop over the keys returns `Stores.RetrieveAll` of the current state |
| Dao.MemoryDAO.Update | app/tasks/ocpp16/memorydao.py:59-63 | the new state and result are those of `Stores.Update`; a failure leaves the state unchanged and the invariant holds |
| Dao.MemoryDAO.Delete | app/tasks/ocpp16/memorydao.py:65-66 | the new state and result are those of `Stores.Delete`; a failure leaves the state unchanged and the invariant holds |
| Dao.MemoryDAO.FindBy | app/tasks/ocpp16/memorydao.py:68-80 | returns `Stores.FindBy` of the current state |
| Dao.Scan | app/tasks/ocpp16/memorydao.py:75-80 | the outer loop over the records yields `Stores.Scan` over all of them |
| Dao.MatchRecord | app/tasks/ocpp16/memorydao.py:76-79 | the inner loop over the compared fields fails with `KeyError` exactly when the record lacks one of them; otherwise it appends the record once per matching field |
| Dao.MemoryDAO.Persist | app/tasks/ocpp16/memorydao.py:82-87 | the new state and the returned record are those of `Stores.Persist`, and the invariant holds |
| Dao.MemoryDAOFactory.constructor | app/tasks/ocpp16/memorydao.py:92-93 | a new factory has no instances |
| Dao.MemoryDAOFactory.GetInstance | app/tasks/ocpp16/memorydao.py:95-99 | returns the cached store for a known class identity and changes nothing; otherwise it creates, caches and returns a fresh empty store. Distinct classes never share a store |
| Dao.SamePerClass | app/tasks/ocpp16/memorydao.py:95-99 | two requests for one class return the same store; a request for another class returns a different one |

## Left out

- The hash value itself (the XOR of the hash of the joined names of `dir(self)` with the hash of the id): hashing fails with `AssertionError` exactly when `reg_id` is None, and the hash value is left out. Python's string hashing is outside the model, and so is the fact that two records equal under `==` but with different attribute names hash differently.
- `deepcopy`: records are immutable values, so copying is the identity and aliasing cannot arise.
- `__repr__`, `MemoryDAO.cls` and `Model.__self__`: they produce text or return the object itself and state no property of the store.
- The `isinstance(attributes, dict)` assertion in `find_by`: `attributes` is a map by its type.
- Multiple inheritance: classes form a single-inheritance tree rooted at `Model`.
- Class identity: a class is identified by its `name` and its parent, where `name` stands for the identity of the class object. Two distinct Python classes with the same name and base are outside the model.
- Unhashable registry ids: any `Id` with equality can be a key. The `TypeError` that Python raises for an unhashable `reg_id` at each `in self._stack` test and at `del` is outside the model.
- A "reg_id" entry in `attrs`: such an entry is overridden by `Dict`, so two such values stand for one Python instance. Records are meant to be built without one.
- Comparing a record with a non-`Model` object: both operands of `__eq__` and `__ne__` are records.
- Python value equality and dynamic attribute access: attribute values are compared with the equality of the value type `V`, and `__dict__` is the record's attribute map plus `reg_id`.
- The order in which `find_by` walks the compared fields of a set: it does not change the result, which is a record repeated once per matching field. The model walks them in an arbitrary order.
- `id(cls)`: the factory's key type stands for a class identity. Whether two distinct classes could get the same `id` is not modelled.
- Dao.MemoryDAOFactory.GetInstance: it does not state that a store handed out earlier is still valid, because its callers may have changed it since.
