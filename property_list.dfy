/**
 * The values the settings store holds natively (property-list objects), and how a representation
 * type is handed to the store and read back from it.
 */
module PropertyList {
  import opened Errors
  import opened Collections

  /** Swift's `Int` on a 64-bit platform. */
  newtype Int64 = x: int | -0x8000_0000_0000_0000 <= x < 0x8000_0000_0000_0000

  /** Swift's `Date`: an opaque 64-bit floating-point offset from the reference date. */
  datatype Date = Date(timeIntervalSinceReferenceDate: bv64)

  /** The seven kinds the store accepts as they are. `Float` and `Double` are opaque bit patterns. */
  datatype Primitive =
    | BoolValue(boolValue: bool)
    | IntValue(intValue: Int64)
    | FloatValue(floatBits: bv32)
    | DoubleValue(doubleBits: bv64)
    | DataValue(bytes: seq<bv8>)
    | StringValue(text: string)
    | DateValue(date: Date)

  /** A stored object: a primitive, an array of objects or a string-keyed dictionary of objects. */
  datatype Object =
    | Scalar(primitive: Primitive)
    | Array(items: seq<Object>)
    | Dictionary(entries: map<string, Object>)

  /**
   * How a representation type `R` meets the store: `toObject` is what `set(_:forKey:)` stores for a
   * value of `R`, and `fromObject` is the dynamic cast `object as? R` applied to what the store returns.
   */
  datatype Shape<!R> = Shape(toObject: R -> Object, fromObject: Object -> Option<R>)

  /** Reading back what was stored gives the stored value. */
  ghost predicate Faithful<R(!new)>(shape: Shape<R>)
  {
    forall r :: shape.fromObject(shape.toObject(r)) == Some(r)
  }

  /** `object as? R` for the seven kinds: an exact match of the primitive's tag. */
  function AsBool(o: Object): Option<bool>
  {
    match o
    case Scalar(BoolValue(b)) => Some(b)
    case _ => None
  }

  const BoolShape: Shape<bool> := Shape(b => Scalar(BoolValue(b)), AsBool)

  function AsInt(o: Object): Option<Int64>
  {
    match o
    case Scalar(IntValue(i)) => Some(i)
    case _ => None
  }

  const IntShape: Shape<Int64> := Shape(i => Scalar(IntValue(i)), AsInt)

  function AsFloat(o: Object): Option<bv32>
  {
    match o
    case Scalar(FloatValue(f)) => Some(f)
    case _ => None
  }

  const FloatShape: Shape<bv32> := Shape(f => Scalar(FloatValue(f)), AsFloat)

  function AsDouble(o: Object): Option<bv64>
  {
    match o
    case Scalar(DoubleValue(d)) => Some(d)
    case _ => None
  }

  const DoubleShape: Shape<bv64> := Shape(d => Scalar(DoubleValue(d)), AsDouble)

  function AsData(o: Object): Option<seq<bv8>>
  {
    match o
    case Scalar(DataValue(d)) => Some(d)
    case _ => None
  }

  const DataShape: Shape<seq<bv8>> := Shape(d => Scalar(DataValue(d)), AsData)

  function AsString(o: Object): Option<string>
  {
    match o
    case Scalar(StringValue(s)) => Some(s)
    case _ => None
  }

  const StringShape: Shape<string> := Shape(s => Scalar(StringValue(s)), AsString)

  function AsDate(o: Object): Option<Date>
  {
    match o
    case Scalar(DateValue(d)) => Some(d)
    case _ => None
  }

  const DateShape: Shape<Date> := Shape(d => Scalar(DateValue(d)), AsDate)

  lemma PrimitiveShapesFaithful()
    ensures Faithful(BoolShape) && Faithful(IntShape) && Faithful(FloatShape) && Faithful(DoubleShape)
    ensures Faithful(DataShape) && Faithful(StringShape) && Faithful(DateShape)
  {
  }

  /** A Swift array is stored as an array object, element by element. */
  function ArrayShape<R>(element: Shape<R>): Shape<seq<R>>
  {
    Shape(rs => Array(ArrayObjects(element, rs)), (o: Object) => if o.Array? then CastAll(element.fromObject, o.items) else None)
  }

  function ArrayObjects<R>(element: Shape<R>, rs: seq<R>): seq<Object>
  {
    seq(|rs|, i requires 0 <= i < |rs| => element.toObject(rs[i]))
  }

  /** A Swift `[String: R]` is stored as a dictionary object, value by value. */
  function DictionaryShape<R>(value: Shape<R>): Shape<map<string, R>>
  {
    Shape(m => Dictionary(DictionaryObjects(value, m)), (o: Object) => if o.Dictionary? then CastValues(value.fromObject, o.entries) else None)
  }

  function DictionaryObjects<R>(value: Shape<R>, m: map<string, R>): map<string, Object>
  {
    map k | k in m :: value.toObject(m[k])
  }

  lemma ArrayShapeFaithful<R(!new)>(element: Shape<R>)
    requires Faithful(element)
    ensures Faithful(ArrayShape(element))
  {
    forall rs: seq<R> ensures ArrayShape(element).fromObject(ArrayShape(element).toObject(rs)) == Some(rs) {
      var back := CastAll(element.fromObject, ArrayObjects(element, rs));
      assert back.value == rs;
    }
  }

  lemma DictionaryShapeFaithful<R(!new)>(value: Shape<R>)
    requires Faithful(value)
    ensures Faithful(DictionaryShape(value))
  {
    forall m: map<string, R> ensures DictionaryShape(value).fromObject(DictionaryShape(value).toObject(m)) == Some(m) {
      DictionaryObjectsReadBack(value, m);
    }
  }

  lemma DictionaryObjectsReadBack<R(!new)>(value: Shape<R>, m: map<string, R>)
    requires Faithful(value)
    ensures CastValues(value.fromObject, DictionaryObjects(value, m)) == Some(m)
  {
    var entries := DictionaryObjects(value, m);
    forall k | k in entries ensures value.fromObject(entries[k]) == Some(m[k]) {
      assert entries[k] == value.toObject(m[k]);
    }
    var back := CastValues(value.fromObject, entries).value;
    assert back.Keys == m.Keys;
    assert forall k :: k in back ==> back[k] == m[k];
    assert back == m;
  }
}
