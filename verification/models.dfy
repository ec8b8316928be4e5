/** The `Model` base entity: records stored by a `MemoryDAO`, their classes,
    their `__dict__`, equality and the precondition of hashing.

    A Python instance is mutable and is copied with `deepcopy` whenever it
    enters or leaves a store; here a record is an immutable value, so every
    such copy is the value itself and no caller can alias stored state. */
module Models {

  datatype Option<+T> = None | Some(value: T)

  /** The exceptions the store raises, under their Python names. */
  datatype Error = FileExistsError | FileNotFoundError | KeyError | AssertionError

  datatype Result<+T> = Success(value: T) | Failure(error: Error)

  /** A class in a single-inheritance hierarchy whose root is `Model`. */
  datatype ClassTag = ModelClass | Subclass(name: string, parent: ClassTag)

  /** `isinstance(x, of)` for an `x` whose class is `cls`: `of` is `cls` or one of its ancestors. */
  predicate IsSubclass(cls: ClassTag, of: ClassTag)
  {
    cls == of || (cls.Subclass? && IsSubclass(cls.parent, of))
  }

  /** Number of inheritance steps from `c` up to `Model`. */
  function Depth(c: ClassTag): nat
  {
    if c.ModelClass? then 0 else 1 + Depth(c.parent)
  }

  /** An ancestor sits strictly higher in the hierarchy than any proper descendant. */
  lemma {:induction false} SubclassDepth(cls: ClassTag, of: ClassTag)
    requires IsSubclass(cls, of)
    ensures Depth(of) <= Depth(cls)
    ensures Depth(of) == Depth(cls) ==> cls == of
  {
    if cls != of {
      SubclassDepth(cls.parent, of);
    }
  }

  /** Two classes each a subclass of the other are the same class. */
  lemma SubclassAntisymmetric(a: ClassTag, b: ClassTag)
    requires IsSubclass(a, b) && IsSubclass(b, a)
    ensures a == b
  {
    SubclassDepth(a, b);
    SubclassDepth(b, a);
  }

  type FieldName = string

  /** The attribute every `Model` instance gets from its constructor. */
  const RegIdField: FieldName := "reg_id"

  /** An attribute value: a (possibly absent) registry id, or any other value. */
  datatype Value<Id, V> = RegId(id: Option<Id>) | Plain(v: V)

  /** A `Model` instance: its class, its registry id (absent until assigned)
      and its other instance attributes. `attrs` is meant to hold no
      "reg_id" entry: `Dict` overrides any such entry with `regId`, so two
      values that differ only there stand for the same Python instance. */
  datatype Model<Id, V> = Model(cls: ClassTag, regId: Option<Id>, attrs: map<FieldName, Value<Id, V>>)

  /** The instance's `__dict__`: every attribute, `reg_id` included. */
  function Dict<Id, V>(m: Model<Id, V>): map<FieldName, Value<Id, V>>
  {
    m.attrs[RegIdField := RegId(m.regId)]
  }

  /** `self.__eq__(other)`: `other` is an instance of `self`'s class and the registry ids agree. */
  predicate Eq<Id(==), V>(self: Model<Id, V>, other: Model<Id, V>)
  {
    IsSubclass(other.cls, self.cls) && self.regId == other.regId
  }

  /** `self.__ne__(other)`. */
  predicate Ne<Id(==), V>(self: Model<Id, V>, other: Model<Id, V>)
  {
    !Eq(self, other)
  }

  /** Whether Python evaluates `x op y` through the right operand's method first:
      it does so when the right operand's class is a proper subclass of the left's. */
  predicate Reflected<Id, V>(x: Model<Id, V>, y: Model<Id, V>)
  {
    y.cls != x.cls && IsSubclass(y.cls, x.cls)
  }

  /** Python's `x == y` on two models, dispatched to `__eq__`. */
  predicate Equals<Id(==), V>(x: Model<Id, V>, y: Model<Id, V>)
  {
    if Reflected(x, y) then Eq(y, x) else Eq(x, y)
  }

  /** Python's `x != y` on two models, dispatched to `__ne__`. */
  predicate NotEquals<Id(==), V>(x: Model<Id, V>, y: Model<Id, V>)
  {
    if Reflected(x, y) then Ne(y, x) else Ne(x, y)
  }

  /** Called directly, `__eq__` compares a subclass instance equal to a base
      instance with the same registry id, but not the other way round. */
  lemma EqNotSymmetric<Id, V>(id: Option<Id>)
    ensures exists a: Model<Id, V>, b: Model<Id, V> :: a.regId == b.regId == id && Eq(a, b) && !Eq(b, a)
  {
    var a: Model<Id, V> := Model(ModelClass, id, map[]);
    var b: Model<Id, V> := Model(Subclass("Subclass", ModelClass), id, map[]);
    assert IsSubclass(b.cls, a.cls);
    assert Eq(a, b) && !Eq(b, a);
  }

  /** Through Python's `==` two models are equal exactly when they are of the
      same class and have the same registry id, and `==` is symmetric. */
  lemma {:induction false} EqualsIffSameClassAndId<Id, V>(x: Model<Id, V>, y: Model<Id, V>)
    ensures Equals(x, y) <==> x.cls == y.cls && x.regId == y.regId
    ensures Equals(x, y) <==> Equals(y, x)
  {
    if Reflected(x, y) && IsSubclass(x.cls, y.cls) {
      SubclassAntisymmetric(x.cls, y.cls);
    }
    if Reflected(y, x) && IsSubclass(y.cls, x.cls) {
      SubclassAntisymmetric(x.cls, y.cls);
    }
  }

  /** `!=` is the exact negation of `==`, both called directly and through Python's operators. */
  lemma NotEqualsIsNegation<Id, V>(x: Model<Id, V>, y: Model<Id, V>)
    ensures Ne(x, y) <==> !Eq(x, y)
    ensures NotEquals(x, y) <==> !Equals(x, y)
  {
  }

  /** The precondition of `__hash__`: an instance without a registry id
      cannot be hashed and raises `AssertionError`. Otherwise the result is
      the registry id, one of the two parts the hash value is computed from;
      the hash value itself is not part of this model. */
  function HashKey<Id, V>(m: Model<Id, V>): (r: Result<Id>)
    ensures r.Failure? <==> m.regId == None
    ensures r.Failure? ==> r.error == AssertionError
    ensures r.Success? ==> m.regId == Some(r.value)
  {
    match m.regId
    case None => Failure(AssertionError)
    case Some(id) => Success(id)
  }

  /** Records equal through `==` are either both unhashable or both
      hashable, and then their hashes take the same registry id. */
  lemma {:induction false} EqualRecordsAgreeOnHash<Id, V>(x: Model<Id, V>, y: Model<Id, V>)
    requires Equals(x, y)
    ensures HashKey(x) == HashKey(y)
    ensures x.cls == y.cls
  {
    EqualsIffSameClassAndId(x, y);
  }
}
