/** The `MemoryDAO` store and the `MemoryDAOFactory` registry: objects whose
    state is updated in place, each method proved against the operation on
    store values it performs (module Stores). */
module Dao {
  import opened Models
  import Stores

  /** Stores records in memory instead of a database; used as a test fixture. */
  class MemoryDAO<Id(==), V(==)> {
    /** `_stack`: the records, by registry id. */
    var stack: map<Option<Id>, Model<Id, V>>
    /** The keys of `_stack` in insertion order. */
    var order: seq<Option<Id>>

    function State(): Stores.Store<Id, V>
      reads this
    {
      Stores.Store(stack, order)
    }

    ghost predicate Valid()
      reads this
    {
      Stores.Valid(State())
    }

    constructor ()
      ensures Valid() && State() == Stores.Empty()
    {
      stack := map[];
      order := [];
    }

    method Create(obj: Model<Id, V>) returns (r: Result<()>)
      requires Valid()
      modifies this
      ensures Valid()
      ensures var e := Stores.Create(old(State()), obj);
              if e.Success? then r == Success(()) && State() == e.value
              else r == Failure(e.error) && State() == old(State())
    {
      if obj.regId in stack {
        return Failure(FileExistsError);
      }
      Stores.CreateSpec(State(), obj);
      stack := stack[obj.regId := obj];
      order := order + [obj.regId];
      r := Success(());
    }

    method Retrieve(regId: Option<Id>) returns (r: Result<Model<Id, V>>)
      requires Valid()
      ensures r == Stores.Retrieve(State(), regId)
    {
      if regId !in stack {
        return Failure(FileNotFoundError);
      }
      r := Success(stack[regId]);
    }

    method RetrieveAll() returns (all: seq<Model<Id, V>>)
      requires Valid()
      ensures all == Stores.RetrieveAll(State())
    {
      all := [];
      for i := 0 to |order|
        invariant all == Stores.RetrieveAll(State())[..i]
      {
        all := all + [stack[order[i]]];
      }
    }

    method Update(obj: Model<Id, V>) returns (r: Result<()>)
      requires Valid()
      modifies this
      ensures Valid()
      ensures var e := Stores.Update(old(State()), obj);
              if e.Success? then r == Success(()) && State() == e.value
              else r == Failure(e.error) && State() == old(State())
    {
      if obj.regId in stack {
        Stores.UpdateSpec(State(), obj);
        stack := stack[obj.regId := obj];
        r := Success(());
      } else {
        r := Failure(FileNotFoundError);
      }
    }

    method Delete(obj: Model<Id, V>) returns (r: Result<()>)
      requires Valid()
      modifies this
      ensures Valid()
      ensures var e := Stores.Delete(old(State()), obj);
              if e.Success? then r == Success(()) && State() == e.value
              else r == Failure(e.error) && State() == old(State())
    {
      if obj.regId !in stack {
        return Failure(KeyError);
      }
      Stores.DeleteSpec(State(), obj);
      stack := stack - {obj.regId};
      order := Stores.Without(order, obj.regId);
      r := Success(());
    }

    method FindBy(attributes: map<FieldName, Value<Id, V>>) returns (r: Result<seq<Model<Id, V>>>)
      requires Valid()
      ensures r == Stores.FindBy(State(), attributes)
    {
      Stores.StoreSize(State());
      if |stack| == 0 {
        return Success([]);
      }
      var sample := stack[order[0]];
      var keys := attributes.Keys * Dict(sample).Keys;
      var records := RetrieveAll();
      r := Scan(records, keys, attributes);
    }

    method Persist(obj: Model<Id, V>) returns (r: Model<Id, V>)
      requires Valid()
      modifies this
      ensures Valid()
      ensures (State(), r) == Stores.Persist(old(State()), obj)
    {
      if obj.regId !in stack {
        var created := Create(obj);
        r := obj;
      } else {
        r := stack[obj.regId];
      }
    }
  }

  /** The loops of `find_by` over the stored records, in insertion order,
      comparing the fields `keys`. */
  method Scan<Id(==), V(==)>(records: seq<Model<Id, V>>, keys: set<FieldName>,
                             attributes: map<FieldName, Value<Id, V>>)
    returns (r: Result<seq<Model<Id, V>>>)
    requires keys <= attributes.Keys
    ensures r == Stores.Scan(records, |records|, keys, attributes)
  {
    var result: seq<Model<Id, V>> := [];
    for i := 0 to |records|
      invariant Stores.Scan(records, i, keys, attributes) == Success(result)
    {
      var hits := MatchRecord(records[i], Dict(records[i]), keys, attributes);
      if hits.Failure? {
        Stores.ScanStops(records, i + 1, |records|, keys, attributes);
        return Failure(KeyError);
      }
      result := result + hits.value;
    }
    r := Success(result);
  }

  /** The inner loop of `find_by` for one stored record `reg` whose
      `__dict__` is `fields`: the record once per compared field on which it
      holds the requested value, or `KeyError` when it lacks one of them. */
  method MatchRecord<Id(==), V(==)>(reg: Model<Id, V>, fields: map<FieldName, Value<Id, V>>,
                                     keys: set<FieldName>, attributes: map<FieldName, Value<Id, V>>)
    returns (r: Result<seq<Model<Id, V>>>)
    requires keys <= attributes.Keys
    ensures r.Failure? <==> !(keys <= fields.Keys)
    ensures r.Failure? ==> r.error == KeyError
    ensures r.Success? ==> r.value == Stores.Repeat(reg, |Stores.MatchingKeys(fields, keys, attributes)|)
  {
    var result: seq<Model<Id, V>> := [];
    var remaining := keys;
    ghost var done: set<FieldName> := {};
    while remaining != {}
      invariant remaining !! done && remaining + done == keys
      invariant done <= fields.Keys
      invariant result == Stores.Repeat(reg, |Stores.MatchingKeys(fields, done, attributes)|)
      decreases remaining
    {
      var key :| key in remaining;
      if key !in fields {
        return Failure(KeyError);
      }
      Stores.MatchingKeysStep(fields, done, key, attributes);
      Stores.RepeatStep(reg, |Stores.MatchingKeys(fields, done, attributes)|);
      if fields[key] == attributes[key] {
        result := result + [reg];
      }
      remaining := remaining - {key};
      done := done + {key};
    }
    r := Success(result);
  }

  /** Hands out one `MemoryDAO` per class, created on first request. The key
      type `K` stands for the identity of a class object, `id(cls)`. */
  class MemoryDAOFactory<K(==), Id(==), V(==)> {
    /** `__instances`: the store handed out for each class identity. */
    var instances: map<K, MemoryDAO<Id, V>>

    /** Distinct classes never share a store. */
    ghost predicate Valid()
      reads this
    {
      forall a, b :: a in instances && b in instances && a != b ==> instances[a] != instances[b]
    }

    constructor ()
      ensures Valid() && instances == map[]
    {
      instances := map[];
    }

    method GetInstance(c: K) returns (dao: MemoryDAO<Id, V>)
      requires Valid()
      modifies this
      ensures Valid()
      ensures c in instances && instances[c] == dao
      ensures c in old(instances) ==> dao == old(instances)[c] && instances == old(instances)
      ensures c !in old(instances) ==>
                fresh(dao) && dao.Valid() && dao.State() == Stores.Empty()
                && instances == old(instances)[c := dao]
    {
      if c in instances {
        return instances[c];
      }
      dao := new MemoryDAO();
      instances := instances[c := dao];
    }
  }

  /** Asking twice for the same class gives the same store; asking for another
      class gives a different one. */
  method SamePerClass<K(==), Id(==), V(==)>(factory: MemoryDAOFactory<K, Id, V>, a: K, b: K)
    returns (first: MemoryDAO<Id, V>, again: MemoryDAO<Id, V>, other: MemoryDAO<Id, V>)
    requires factory.Valid() && a != b
    modifies factory
    ensures first == again && first != other
  {
    first := factory.GetInstance(a);
    again := factory.GetInstance(a);
    other := factory.GetInstance(b);
  }
}
