/** The contents of a `MemoryDAO` as a value, and what each of its operations
    does to it. The `_stack` dict is a map from registry id to record together
    with the sequence of its keys in insertion order, the order in which a
    Python dict enumerates them. */
module Stores {
  import opened Models

  type Key<Id> = Option<Id>

  datatype Store<Id(==), V> = Store(stack: map<Key<Id>, Model<Id, V>>, order: seq<Key<Id>>)

  /** A freshly constructed store. */
  function Empty<Id(==), V>(): Store<Id, V>
  {
    Store(map[], [])
  }

  ghost predicate Distinct<T>(q: seq<T>)
  {
    forall i, j :: 0 <= i < j < |q| ==> q[i] != q[j]
  }

  /** The store's invariant: no key is listed twice, the listed keys are the
      map's keys, and every record is stored under its own registry id. */
  ghost predicate Valid<Id, V>(s: Store<Id, V>)
  {
    && Distinct(s.order)
    && (forall k :: k in s.stack ==> k in s.order)
    && (forall k :: k in s.order ==> k in s.stack)
    && (forall k :: k in s.stack ==> s.stack[k].regId == k)
  }

  lemma EmptyIsValid<Id, V>()
    ensures Valid(Empty<Id, V>())
  {
  }

  /** A sequence without repetitions has as many distinct elements as it is long. */
  lemma {:induction false} DistinctCardinality<T>(q: seq<T>)
    requires Distinct(q)
    ensures |set x | x in q| == |q|
  {
    if q != [] {
      var init := q[..|q| - 1];
      assert Distinct(init);
      DistinctCardinality(init);
      assert (set x | x in q) == (set x | x in init) + {q[|q| - 1]};
      assert q[|q| - 1] !in (set x | x in init);
    }
  }

  /** A valid store has exactly one listed key per entry. */
  lemma StoreSize<Id, V>(s: Store<Id, V>)
    requires Valid(s)
    ensures |s.stack| == |s.order|
  {
    DistinctCardinality(s.order);
    assert s.stack.Keys == set x | x in s.order;
  }

  /** The values stored under `keys`, in that order. */
  function Lookup<K(==), T>(m: map<K, T>, keys: seq<K>): (r: seq<T>)
    requires forall k :: k in keys ==> k in m
    ensures |r| == |keys|
    ensures forall i :: 0 <= i < |keys| ==> r[i] == m[keys[i]]
  {
    seq(|keys|, i requires 0 <= i < |keys| => m[keys[i]])
  }

  /** Dropping the key at position `j`, in a map that otherwise agrees,
      drops the value at position `j`. */
  lemma LookupDrop<K, T>(m: map<K, T>, m': map<K, T>, keys: seq<K>, j: nat)
    requires j < |keys| && forall k :: k in keys ==> k in m
    requires forall k :: k in m' ==> k in m && m'[k] == m[k]
    requires forall k :: k in keys[..j] + keys[j + 1..] ==> k in m'
    ensures Lookup(m', keys[..j] + keys[j + 1..]) == Lookup(m, keys)[..j] + Lookup(m, keys)[j + 1..]
  {
  }

  /** `retrieve_all()`: the stored records, one per entry, in insertion order. */
  function RetrieveAll<Id(==), V>(s: Store<Id, V>): (r: seq<Model<Id, V>>)
    requires Valid(s)
    ensures |r| == |s.order| == |s.stack|
    ensures s.stack == map[] ==> r == []
    ensures forall i :: 0 <= i < |r| ==> r[i] == s.stack[s.order[i]] && r[i].regId == s.order[i]
  {
    StoreSize(s);
    Lookup(s.stack, s.order)
  }

  /** Every stored record is among those `retrieve_all` returns. */
  lemma RetrieveAllComplete<Id, V>(s: Store<Id, V>, k: Key<Id>)
    requires Valid(s) && k in s.stack
    ensures s.stack[k] in RetrieveAll(s)
  {
  }

  /** Records of a valid store are pairwise distinct, since their registry ids are. */
  lemma RetrieveAllDistinct<Id, V>(s: Store<Id, V>)
    requires Valid(s)
    ensures Distinct(RetrieveAll(s))
  {
  }

  /** `retrieve(reg_id)`. */
  function Retrieve<Id(==), V>(s: Store<Id, V>, regId: Key<Id>): (r: Result<Model<Id, V>>)
    requires Valid(s)
    ensures r.Failure? <==> regId !in s.stack
    ensures r.Failure? ==> r.error == FileNotFoundError
    ensures r.Success? ==> r.value.regId == regId && r.value in RetrieveAll(s)
  {
    if regId !in s.stack then Failure(FileNotFoundError)
    else
      RetrieveAllComplete(s, regId);
      Success(s.stack[regId])
  }

  /** Every stored record can be hashed except the one stored under `None`,
      and the hash of each takes the key it is stored under. */
  lemma StoredRecordsHashable<Id, V>(s: Store<Id, V>, k: Key<Id>)
    requires Valid(s) && k in s.stack
    ensures HashKey(s.stack[k]).Failure? <==> k == None
    ensures k.Some? ==> HashKey(s.stack[k]) == Success(k.value)
  {
  }

  /** `create(obj)`. */
  function Create<Id(==), V>(s: Store<Id, V>, obj: Model<Id, V>): Result<Store<Id, V>>
  {
    if obj.regId in s.stack then Failure(FileExistsError)
    else Success(Store(s.stack[obj.regId := obj], s.order + [obj.regId]))
  }

  /** `create` fails on a present key and otherwise appends the record as the
      newest entry, after which `retrieve` returns it. */
  lemma CreateSpec<Id, V>(s: Store<Id, V>, obj: Model<Id, V>)
    requires Valid(s)
    ensures Create(s, obj).Failure? <==> obj.regId in s.stack
    ensures Create(s, obj).Failure? ==> Create(s, obj).error == FileExistsError
    ensures Create(s, obj).Success? ==>
              var t := Create(s, obj).value;
              && Valid(t)
              && Retrieve(t, obj.regId) == Success(obj)
              && RetrieveAll(t) == RetrieveAll(s) + [obj]
  {
  }

  /** `update(obj)`. */
  function Update<Id(==), V>(s: Store<Id, V>, obj: Model<Id, V>): Result<Store<Id, V>>
  {
    if obj.regId in s.stack then Success(Store(s.stack[obj.regId := obj], s.order))
    else Failure(FileNotFoundError)
  }

  /** `update` of a present key replaces that one entry and keeps its place
      in insertion order. */
  lemma UpdateSpec<Id, V>(s: Store<Id, V>, obj: Model<Id, V>)
    requires Valid(s) && obj.regId in s.stack
    ensures Update(s, obj).Success?
    ensures var t := Update(s, obj).value;
            && Valid(t)
            && t.order == s.order
            && Retrieve(t, obj.regId) == Success(obj)
            && forall j :: 0 <= j < |s.order| && s.order[j] == obj.regId ==>
                 RetrieveAll(t) == RetrieveAll(s)[j := obj]
  {
  }

  /** `update` of an absent key changes nothing. */
  lemma UpdateAbsent<Id, V>(s: Store<Id, V>, obj: Model<Id, V>)
    requires obj.regId !in s.stack
    ensures Update(s, obj) == Failure(FileNotFoundError)
  {
  }

  /** The keys of `q` other than `k`, in their order. */
  function Without<T(==)>(q: seq<T>, k: T): (r: seq<T>)
    ensures forall x :: x in r ==> x in q && x != k
    ensures forall x :: x in q && x != k ==> x in r
  {
    if q == [] then []
    else (if q[0] == k then [] else [q[0]]) + Without(q[1..], k)
  }

  /** Dropping a key from a repetition-free sequence removes its one occurrence. */
  lemma {:induction false} WithoutAt<T>(q: seq<T>, k: T, j: nat)
    requires Distinct(q) && j < |q| && q[j] == k
    ensures Without(q, k) == q[..j] + q[j + 1..]
  {
    if j == 0 {
      WithoutAbsent(q[1..], k);
      assert q[..0] + q[1..] == q[1..];
    } else {
      WithoutAt(q[1..], k, j - 1);
      assert q[1..][..j - 1] == q[1..j];
      assert q[..j] + q[j + 1..] == [q[0]] + (q[1..j] + q[j + 1..]);
    }
  }

  lemma {:induction false} WithoutAbsent<T>(q: seq<T>, k: T)
    requires k !in q
    ensures Without(q, k) == q
  {
    if q != [] {
      WithoutAbsent(q[1..], k);
    }
  }

  /** `delete(obj)`. */
  function Delete<Id(==), V>(s: Store<Id, V>, obj: Model<Id, V>): Result<Store<Id, V>>
  {
    if obj.regId in s.stack then Success(Store(s.stack - {obj.regId}, Without(s.order, obj.regId)))
    else Failure(KeyError)
  }

  lemma DeleteKeepsValid<Id, V>(s: Store<Id, V>, obj: Model<Id, V>, j: nat)
    requires Valid(s)
    requires j < |s.order| && s.order[j] == obj.regId
    ensures Delete(s, obj).Success?
    ensures Delete(s, obj).value.order == s.order[..j] + s.order[j + 1..]
    ensures Valid(Delete(s, obj).value)
  {
    WithoutAt(s.order, obj.regId, j);
    var t := Delete(s, obj).value;
    forall a, b | 0 <= a < b < |t.order| ensures t.order[a] != t.order[b] {
      var a' := if a < j then a else a + 1;
      var b' := if b < j then b else b + 1;
      assert t.order[a] == s.order[a'] && t.order[b] == s.order[b'];
    }
  }

  /** The records left after `delete` are the others, in their former order. */
  lemma DeleteKeepsOrder<Id, V>(s: Store<Id, V>, obj: Model<Id, V>, j: nat)
    requires Valid(s)
    requires j < |s.order| && s.order[j] == obj.regId
    ensures Delete(s, obj).Success? && Valid(Delete(s, obj).value)
    ensures RetrieveAll(Delete(s, obj).value) == RetrieveAll(s)[..j] + RetrieveAll(s)[j + 1..]
  {
    DeleteKeepsValid(s, obj, j);
    var t := Delete(s, obj).value;
    LookupDrop(s.stack, t.stack, s.order, j);
  }

  /** `delete` of a present key removes exactly that entry and keeps the
      others in their order. */
  lemma DeleteSpec<Id, V>(s: Store<Id, V>, obj: Model<Id, V>)
    requires Valid(s) && obj.regId in s.stack
    ensures Delete(s, obj).Success?
    ensures var t := Delete(s, obj).value;
            && Valid(t)
            && t.stack.Keys == s.stack.Keys - {obj.regId}
            && Retrieve(t, obj.regId) == Failure(FileNotFoundError)
            && forall j :: 0 <= j < |s.order| && s.order[j] == obj.regId ==>
                 && t.order == s.order[..j] + s.order[j + 1..]
                 && RetrieveAll(t) == RetrieveAll(s)[..j] + RetrieveAll(s)[j + 1..]
  {
    var t := Delete(s, obj).value;
    var i :| 0 <= i < |s.order| && s.order[i] == obj.regId;
    DeleteKeepsValid(s, obj, i);
    forall j | 0 <= j < |s.order| && s.order[j] == obj.regId
      ensures t.order == s.order[..j] + s.order[j + 1..]
      ensures RetrieveAll(t) == RetrieveAll(s)[..j] + RetrieveAll(s)[j + 1..]
    {
      DeleteKeepsValid(s, obj, j);
      DeleteKeepsOrder(s, obj, j);
    }
  }

  /** `delete` of an absent key raises `KeyError`. */
  lemma DeleteAbsent<Id, V>(s: Store<Id, V>, obj: Model<Id, V>)
    requires obj.regId !in s.stack
    ensures Delete(s, obj) == Failure(KeyError)
  {
  }

  /** `persist(obj)`: a new record is created and returned as given; a record
      already present is returned as stored and the store stays as it is. */
  function Persist<Id(==), V>(s: Store<Id, V>, obj: Model<Id, V>): (r: (Store<Id, V>, Model<Id, V>))
    requires Valid(s)
    ensures Valid(r.0)
    ensures r.1.regId == obj.regId
    ensures obj.regId !in s.stack ==> r.0 == Create(s, obj).value && r.1 == obj
    ensures obj.regId in s.stack ==> r.0 == s && r.1 == s.stack[obj.regId]
    ensures Retrieve(r.0, obj.regId) == Success(r.1)
  {
    CreateSpec(s, obj);
    match Create(s, obj)
    case Success(t) => (t, obj)
    case Failure(_) => (s, s.stack[obj.regId])
  }

  /** `persist` of a present key ignores every field of the input except its registry id. */
  lemma PersistIgnoresInput<Id, V>(s: Store<Id, V>, a: Model<Id, V>, b: Model<Id, V>)
    requires Valid(s) && a.regId == b.regId && a.regId in s.stack
    ensures Persist(s, a) == Persist(s, b)
  {
  }

  // ---------------------------------------------------------------------------
  // find_by

  /** The requested fields on which a record with these `fields` holds the requested value. */
  function MatchingKeys<Id(==), V(==)>(fields: map<FieldName, Value<Id, V>>, keys: set<FieldName>,
                                       attributes: map<FieldName, Value<Id, V>>): (m: set<FieldName>)
    ensures m <= keys
  {
    set f | f in keys && f in attributes && f in fields && fields[f] == attributes[f]
  }

  function Repeat<T>(x: T, n: nat): (r: seq<T>)
    ensures |r| == n && forall i :: 0 <= i < n ==> r[i] == x
  {
    seq(n, _ => x)
  }

  /** Considering one more field adds one match exactly when the record holds the requested value there. */
  lemma MatchingKeysStep<Id, V>(fields: map<FieldName, Value<Id, V>>, done: set<FieldName>, key: FieldName,
                                attributes: map<FieldName, Value<Id, V>>)
    requires key !in done && key in fields && key in attributes
    ensures |MatchingKeys(fields, done + {key}, attributes)|
            == |MatchingKeys(fields, done, attributes)| + (if fields[key] == attributes[key] then 1 else 0)
  {
    var before := MatchingKeys(fields, done, attributes);
    if fields[key] == attributes[key] {
      assert MatchingKeys(fields, done + {key}, attributes) == before + {key};
    } else {
      assert MatchingKeys(fields, done + {key}, attributes) == before;
    }
  }

  lemma RepeatStep<T>(x: T, n: nat)
    ensures Repeat(x, n + 1) == Repeat(x, n) + [x]
  {
  }

  /** The first `n` records scanned in order, each appended once per compared field it matches. */
  function Hits<Id(==), V(==)>(records: seq<Model<Id, V>>, n: nat, keys: set<FieldName>,
                               attributes: map<FieldName, Value<Id, V>>): seq<Model<Id, V>>
    requires n <= |records|
  {
    if n == 0 then []
    else Hits(records, n - 1, keys, attributes) + Repeat(records[n - 1], |MatchingKeys(Dict(records[n - 1]), keys, attributes)|)
  }

  /** The fields `find_by` compares: the requested names that are fields of
      the first-inserted record. */
  function ComparedKeys<Id(==), V>(s: Store<Id, V>, attributes: map<FieldName, Value<Id, V>>): (keys: set<FieldName>)
    requires Valid(s) && s.order != []
    ensures keys <= attributes.Keys && keys <= Dict(s.stack[s.order[0]]).Keys
    ensures forall f :: f in attributes && f in Dict(s.stack[s.order[0]]) ==> f in keys
  {
    attributes.Keys * Dict(RetrieveAll(s)[0]).Keys
  }

  /** Creating a record fixes the compared fields only when the store was
      empty; later records never change them. */
  lemma CreateComparedKeys<Id, V>(s: Store<Id, V>, obj: Model<Id, V>, attributes: map<FieldName, Value<Id, V>>)
    requires Valid(s) && obj.regId !in s.stack
    ensures Valid(Create(s, obj).value)
    ensures ComparedKeys(Create(s, obj).value, attributes)
            == if s.order == [] then attributes.Keys * Dict(obj).Keys else ComparedKeys(s, attributes)
  {
  }

  /** Deleting the first-inserted record hands the choice of compared fields
      to the record inserted after it. */
  lemma DeleteFirstComparedKeys<Id, V>(s: Store<Id, V>, obj: Model<Id, V>, attributes: map<FieldName, Value<Id, V>>)
    requires Valid(s) && 2 <= |s.order| && s.order[0] == obj.regId
    ensures Valid(Delete(s, obj).value) && |Delete(s, obj).value.order| == |s.order| - 1
    ensures Delete(s, obj).value.order[0] == s.order[1]
    ensures ComparedKeys(Delete(s, obj).value, attributes) == attributes.Keys * Dict(s.stack[s.order[1]]).Keys
  {
    DeleteKeepsValid(s, obj, 0);
    var t := Delete(s, obj).value;
    assert t.order[0] == s.order[1];
    assert s.order[1] != s.order[0];
    assert t.stack[t.order[0]] == s.stack[s.order[1]];
  }

  /** Updating the first-inserted record lets its new fields decide the
      compared fields; updating any other record leaves them as they were. */
  lemma UpdateComparedKeys<Id, V>(s: Store<Id, V>, obj: Model<Id, V>, attributes: map<FieldName, Value<Id, V>>)
    requires Valid(s) && s.order != [] && obj.regId in s.stack
    ensures Valid(Update(s, obj).value)
    ensures ComparedKeys(Update(s, obj).value, attributes)
            == if obj.regId == s.order[0] then attributes.Keys * Dict(obj).Keys else ComparedKeys(s, attributes)
  {
  }

  /** Whether one of the first `n` records lacks one of the compared fields. */
  predicate LacksComparedKey<Id(==), V>(records: seq<Model<Id, V>>, n: nat, keys: set<FieldName>)
    requires n <= |records|
  {
    exists j :: 0 <= j < n && !(keys <= Dict(records[j]).Keys)
  }

  /** The loops of `find_by` over the first `n` records: `KeyError` at the
      first record lacking a compared field, and otherwise each record
      appended once per compared field on which it holds the requested value. */
  function Scan<Id(==), V(==)>(records: seq<Model<Id, V>>, n: nat, keys: set<FieldName>,
                               attributes: map<FieldName, Value<Id, V>>): Result<seq<Model<Id, V>>>
    requires n <= |records|
  {
    if n == 0 then Success([])
    else match Scan(records, n - 1, keys, attributes)
      case Failure(e) => Failure(e)
      case Success(earlier) =>
        var r := records[n - 1];
        if keys <= Dict(r).Keys then Success(earlier + Repeat(r, |MatchingKeys(Dict(r), keys, attributes)|))
        else Failure(KeyError)
  }

  /** Once the scan has raised, scanning further records raises the same. */
  lemma {:induction false} ScanStops<Id, V>(records: seq<Model<Id, V>>, m: nat, n: nat, keys: set<FieldName>,
                                            attributes: map<FieldName, Value<Id, V>>)
    requires m <= n <= |records| && Scan(records, m, keys, attributes).Failure?
    ensures Scan(records, n, keys, attributes) == Scan(records, m, keys, attributes)
  {
    if m < n {
      ScanStops(records, m, n - 1, keys, attributes);
    }
  }

  /** `find_by(attributes)`. */
  function FindBy<Id(==), V(==)>(s: Store<Id, V>, attributes: map<FieldName, Value<Id, V>>): (r: Result<seq<Model<Id, V>>>)
    requires Valid(s)
  {
    if s.order == [] then Success([])
    else Scan(RetrieveAll(s), |s.order|, ComparedKeys(s, attributes), attributes)
  }

  /** The scan fails, with `KeyError`, exactly when a scanned record lacks a
      compared field; otherwise it yields `Hits`. */
  lemma {:induction false} ScanSpec<Id, V>(records: seq<Model<Id, V>>, n: nat, keys: set<FieldName>,
                                           attributes: map<FieldName, Value<Id, V>>)
    requires n <= |records|
    ensures Scan(records, n, keys, attributes)
            == if LacksComparedKey(records, n, keys) then Failure(KeyError)
               else Success(Hits(records, n, keys, attributes))
  {
    if n > 0 {
      ScanSpec(records, n - 1, keys, attributes);
      if LacksComparedKey(records, n - 1, keys) {
        var j :| 0 <= j < n - 1 && !(keys <= Dict(records[j]).Keys);
        assert LacksComparedKey(records, n, keys);
      } else if !(keys <= Dict(records[n - 1]).Keys) {
        assert LacksComparedKey(records, n, keys);
      } else {
        assert !LacksComparedKey(records, n, keys);
      }
    }
  }

  /** Everything `Hits` lists is one of the records scanned. */
  lemma {:induction false} HitsAreRecords<Id, V>(records: seq<Model<Id, V>>, n: nat, keys: set<FieldName>,
                                                 attributes: map<FieldName, Value<Id, V>>, x: Model<Id, V>)
    requires n <= |records|
    ensures x in Hits(records, n, keys, attributes) ==> exists i :: 0 <= i < n && records[i] == x
  {
    if n > 0 {
      HitsAreRecords(records, n - 1, keys, attributes, x);
    }
  }

  lemma {:induction false} RepeatCount<T>(x: T, n: nat, y: T)
    ensures multiset(Repeat(x, n))[y] == if x == y then n else 0
  {
    if n > 0 {
      RepeatCount(x, n - 1, y);
      assert Repeat(x, n) == Repeat(x, n - 1) + [x];
    }
  }

  /** `Hits` lists a record that occurs once among the records exactly as
      many times as it matches compared fields, once it has been scanned:
      twice for two, never for none. */
  lemma {:induction false} HitsCount<Id, V>(records: seq<Model<Id, V>>, n: nat, keys: set<FieldName>,
                                            attributes: map<FieldName, Value<Id, V>>, j: nat)
    requires n <= |records| && j < |records|
    requires forall i :: 0 <= i < |records| && i != j ==> records[i] != records[j]
    ensures multiset(Hits(records, n, keys, attributes))[records[j]]
            == if j < n then |MatchingKeys(Dict(records[j]), keys, attributes)| else 0
  {
    if n > 0 {
      var x := records[j];
      var last := records[n - 1];
      var earlier := Hits(records, n - 1, keys, attributes);
      var repeats := Repeat(last, |MatchingKeys(Dict(last), keys, attributes)|);
      assert multiset(earlier + repeats)[x] == multiset(earlier)[x] + multiset(repeats)[x];
      HitsCount(records, n - 1, keys, attributes, j);
      RepeatCount(last, |MatchingKeys(Dict(last), keys, attributes)|, x);
    }
  }

  /** `find_by` returns `[]` on an empty store. On a non-empty one it either
      raises `KeyError`, exactly when a record lacks a compared field, or
      returns every stored record as many times as it matches compared
      fields, and nothing else, in insertion order. */
  lemma FindBySpec<Id, V>(s: Store<Id, V>, attributes: map<FieldName, Value<Id, V>>)
    requires Valid(s)
    ensures s.order == [] ==> FindBy(s, attributes) == Success([])
    ensures s.order != [] ==>
              var keys := ComparedKeys(s, attributes);
              var records := RetrieveAll(s);
              && (FindBy(s, attributes).Failure? <==> LacksComparedKey(records, |records|, keys))
              && (FindBy(s, attributes).Failure? ==> FindBy(s, attributes).error == KeyError)
              && (FindBy(s, attributes).Success? ==> FindBy(s, attributes).value == Hits(records, |records|, keys, attributes))
  {
    if s.order != [] {
      ScanSpec(RetrieveAll(s), |s.order|, ComparedKeys(s, attributes), attributes);
    }
  }

  /** What `find_by` returns on success holds each stored record as many
      times as it matches compared fields, twice for two and never for none,
      and nothing that is not stored. */
  lemma FindByCounts<Id, V>(s: Store<Id, V>, attributes: map<FieldName, Value<Id, V>>, j: nat)
    requires Valid(s) && j < |s.order| && FindBy(s, attributes).Success?
    ensures var keys := ComparedKeys(s, attributes);
            var records := RetrieveAll(s);
            && multiset(FindBy(s, attributes).value)[records[j]] == |MatchingKeys(Dict(records[j]), keys, attributes)|
            && forall x :: x in FindBy(s, attributes).value ==> x in records
  {
    var keys := ComparedKeys(s, attributes);
    var records := RetrieveAll(s);
    FindBySpec(s, attributes);
    RetrieveAllDistinct(s);
    HitsCount(records, |records|, keys, attributes, j);
    forall x | x in FindBy(s, attributes).value ensures x in records {
      HitsAreRecords(records, |records|, keys, attributes, x);
    }
  }

  /** Of the first `n` records, those whose field `name` equals `x`, in order. */
  function WithField<Id(==), V(==)>(records: seq<Model<Id, V>>, n: nat, name: FieldName, x: Value<Id, V>): seq<Model<Id, V>>
    requires n <= |records|
    requires forall j :: 0 <= j < |records| ==> name in Dict(records[j])
  {
    if n == 0 then []
    else WithField(records, n - 1, name, x) + (if Dict(records[n - 1])[name] == x then [records[n - 1]] else [])
  }

  lemma {:induction false} HitsOneField<Id, V>(records: seq<Model<Id, V>>, n: nat, name: FieldName, x: Value<Id, V>)
    requires n <= |records|
    requires forall j :: 0 <= j < |records| ==> name in Dict(records[j])
    ensures Hits(records, n, {name}, map[name := x]) == WithField(records, n, name, x)
  {
    if n > 0 {
      var last := records[n - 1];
      HitsOneField(records, n - 1, name, x);
      var m := MatchingKeys(Dict(last), {name}, map[name := x]);
      if Dict(last)[name] == x {
        assert m == {name};
      } else {
        assert m == {};
      }
    }
  }

  /** Searching one field that every stored record has returns exactly the
      records holding the requested value, in insertion order. */
  lemma FindByOneField<Id, V>(s: Store<Id, V>, name: FieldName, x: Value<Id, V>)
    requires Valid(s)
    requires forall k :: k in s.stack ==> name in Dict(s.stack[k])
    ensures FindBy(s, map[name := x]) == Success(WithField(RetrieveAll(s), |s.order|, name, x))
  {
    var records := RetrieveAll(s);
    if s.order != [] {
      assert name in Dict(records[0]);
      assert ComparedKeys(s, map[name := x]) == {name};
      assert !LacksComparedKey(records, |records|, {name});
      FindBySpec(s, map[name := x]);
      HitsOneField(records, |records|, name, x);
    }
  }
}
