/**
 * The property binding: a key, a default, a reference to the settings store and a cached value
 * that is read from the store once, at construction, and written through on every assignment.
 */
module Backed {
  import opened Errors
  import opened PropertyList
  import opened Storable

  /** The settings store: a mutable map from keys to stored objects, shared by reference. */
  class UserDefaults {
    var objects: map<string, Object>

    constructor (objects: map<string, Object>)
      ensures this.objects == objects
    {
      this.objects := objects;
    }

    /** `set(_:forKey:)` */
    method Set(value: Object, key: string)
      modifies this
      ensures objects == old(objects)[key := value]
    {
      objects := objects[key := value];
    }

    /** `removeObject(forKey:)`; removing an absent key changes nothing. */
    method RemoveObject(key: string)
      modifies this
      ensures objects == old(objects) - {key}
    {
      objects := objects - {key};
    }
  }

  /** What construction makes of a stored object: cast it to the representation type, then decode it. */
  function DecodeStored<T, R>(codec: Codec<T, R>, shape: Shape<R>, stored: Object): (r: Result<T>)
    ensures shape.fromObject(stored).None? ==> r == Err(IllegalValue)
  {
    match shape.fromObject(stored)
    case Some(rep) => codec.decode(rep)
    case None => Err(IllegalValue)
  }

  /**
   * The value a binding starts with: the decoded stored value when the key is present and its
   * object has the right shape and decodes; the default in every other case.
   */
  function Restored<T, R>(codec: Codec<T, R>, shape: Shape<R>, objects: map<string, Object>, key: string, defaultValue: T): (v: T)
    ensures key !in objects ==> v == defaultValue
    ensures key in objects && DecodeStored(codec, shape, objects[key]).Err? ==> v == defaultValue
    ensures key in objects && DecodeStored(codec, shape, objects[key]).Ok? ==> v == DecodeStored(codec, shape, objects[key]).value
  {
    if key in objects then
      match DecodeStored(codec, shape, objects[key])
      case Ok(v) => v
      case Err(_) => defaultValue
    else defaultValue
  }

  /** The store after assigning `v`: the encoded value under `key` when encoding succeeds, else unchanged. */
  function WriteThrough<T, R>(codec: Codec<T, R>, shape: Shape<R>, objects: map<string, Object>, key: string, v: T): (m: map<string, Object>)
    ensures m - {key} == objects - {key}
    ensures codec.encode(v).Ok? ==> key in m && m[key] == shape.toObject(codec.encode(v).value)
    ensures codec.encode(v).Err? ==> m == objects
  {
    match codec.encode(v)
    case Ok(r) => objects[key := shape.toObject(r)]
    case Err(_) => objects
  }

  /** A successfully encoded value, stored and read back, decodes to itself. */
  lemma StoreRoundTrip<T(!new), R(!new)>(codec: Codec<T, R>, shape: Shape<R>, v: T)
    requires RoundTrips(codec) && Faithful(shape) && codec.encode(v).Ok?
    ensures DecodeStored(codec, shape, shape.toObject(codec.encode(v).value)) == Ok(v)
  {
    assert shape.fromObject(shape.toObject(codec.encode(v).value)) == Some(codec.encode(v).value);
  }

  /** A binding constructed after `v` was assigned under the same key starts with `v`, whatever its default. */
  lemma WriteThenFreshRead<T(!new), R(!new)>(codec: Codec<T, R>, shape: Shape<R>, objects: map<string, Object>, key: string, v: T, defaultValue: T)
    requires RoundTrips(codec) && Faithful(shape) && codec.encode(v).Ok?
    ensures Restored(codec, shape, WriteThrough(codec, shape, objects, key, v), key, defaultValue) == v
  {
    StoreRoundTrip(codec, shape, v);
  }

  /**
   * `UserDefaultsBacked<Value>`. `codec` and `shape` stand for `Value`'s conformance to
   * `UserDefaultsStorable` and for its representation type's bridging to the store.
   */
  class UserDefaultsBacked<T, R> {
    const key: string
    const defaultValue: T
    const codec: Codec<T, R>
    const shape: Shape<R>
    const defaults: UserDefaults
    var wrappedValue: T

    /** `init(key:default:userDefaults:)`: reads the store once and never writes it. */
    constructor (key: string, defaultValue: T, userDefaults: UserDefaults, codec: Codec<T, R>, shape: Shape<R>)
      ensures this.key == key && this.defaultValue == defaultValue && defaults == userDefaults
      ensures this.codec == codec && this.shape == shape
      ensures wrappedValue == Restored(codec, shape, userDefaults.objects, key, defaultValue)
      ensures userDefaults.objects == old(userDefaults.objects)
    {
      this.key := key;
      this.defaults := userDefaults;
      this.defaultValue := defaultValue;
      this.codec := codec;
      this.shape := shape;
      if key in userDefaults.objects {
        var decoded := DecodeStored(codec, shape, userDefaults.objects[key]);
        if decoded.Ok? {
          wrappedValue := decoded.value;
        } else {
          // a debug build stops on an assertion here; a release build falls back to the default
          wrappedValue := defaultValue;
        }
      } else {
        wrappedValue := defaultValue;
      }
    }

    /** Assigning `wrappedValue`: the cache always takes the new value; `didSet` writes it through. */
    method SetWrappedValue(newValue: T)
      modifies this, defaults
      ensures wrappedValue == newValue
      ensures defaults.objects == WriteThrough(codec, shape, old(defaults.objects), key, newValue)
    {
      wrappedValue := newValue;
      var encoded := codec.encode(newValue);
      if encoded.Ok? {
        defaults.Set(shape.toObject(encoded.value), key);
      }
      // on failure a debug build stops on an assertion; a release build leaves the store as it was
    }

    /** `clear()`: assigns the default (writing it through) and then removes the key. */
    method Clear()
      modifies this, defaults
      ensures wrappedValue == defaultValue
      ensures defaults.objects == old(defaults.objects) - {key}
    {
      SetWrappedValue(defaultValue);
      defaults.RemoveObject(key);
    }
  }

  /** `init(key:userDefaults:)` for an optional `Value`: the general initializer with default `nil`. */
  method OptionalBacked<W, S>(key: string, userDefaults: UserDefaults, wrapped: Codec<W, S>, wrappedShape: Shape<S>)
    returns (b: UserDefaultsBacked<Option<W>, seq<S>>)
    ensures fresh(b) && b.key == key && b.defaultValue == None && b.defaults == userDefaults
    ensures b.codec == OptionalCodec(wrapped) && b.shape == ArrayShape(wrappedShape)
    ensures b.wrappedValue == Restored(OptionalCodec(wrapped), ArrayShape(wrappedShape), userDefaults.objects, key, None)
    ensures userDefaults.objects == old(userDefaults.objects)
  {
    b := new UserDefaultsBacked(key, None, userDefaults, OptionalCodec(wrapped), ArrayShape(wrappedShape));
  }

  /** Clearing twice leaves the same state as clearing once. */
  method ClearTwice<T, R>(b: UserDefaultsBacked<T, R>)
    modifies b, b.defaults
    ensures b.wrappedValue == b.defaultValue
    ensures b.defaults.objects == old(b.defaults.objects) - {b.key}
  {
    b.Clear();
    b.Clear();
  }

  /** Assigning on one binding, then constructing another over the same key and store. */
  method AssignThenConstruct<T(!new), R(!new)>(b: UserDefaultsBacked<T, R>, v: T) returns (other: UserDefaultsBacked<T, R>)
    requires RoundTrips(b.codec) && Faithful(b.shape) && b.codec.encode(v).Ok?
    modifies b, b.defaults
    ensures other.wrappedValue == v
  {
    b.SetWrappedValue(v);
    other := new UserDefaultsBacked(b.key, b.defaultValue, b.defaults, b.codec, b.shape);
    WriteThenFreshRead(b.codec, b.shape, old(b.defaults.objects), b.key, v, b.defaultValue);
  }

  /**
   * The string property of the package's test: key "string", default "default". Whatever the
   * store held before, clearing reads back "default", and assigning "hello" reads back "hello",
   * both on the binding and on a binding constructed afterwards.
   */
  method StringPropertyScenario(standard: map<string, Object>) returns (afterClear: string, afterAssign: string, freshRead: string)
    ensures afterClear == "default" && afterAssign == "hello" && freshRead == "hello"
  {
    var defaults := new UserDefaults(standard);
    var property := new UserDefaultsBacked("string", "default", defaults, CompatibleCodec<string>(StringType), StringShape);
    property.Clear();
    afterClear := property.wrappedValue;
    property.SetWrappedValue("hello");
    afterAssign := property.wrappedValue;
    CompatibleRoundTrips<string>(StringType);
    PrimitiveShapesFaithful();
    var other := AssignThenConstruct(property, "hello");
    freshRead := other.wrappedValue;
  }

  /**
   * An optional record stored through a structured encoding into `Data` (`encoding` stands for
   * the property-list encoder and decoder): cleared, it reads back absent; assigned, a binding
   * constructed afterwards reads back the record.
   */
  method OptionalRecordScenario<V(!new)>(standard: map<string, Object>, record: V, encoding: Representable<V, seq<bv8>>)
    returns (afterClear: Option<V>, freshRead: Option<V>)
    requires RepresentationRoundTrips(encoding) && encoding.toValue(record).Ok?
    ensures afterClear == None && freshRead == Some(record)
  {
    var defaults := new UserDefaults(standard);
    var recordCodec := ValueRepresentableCodec(encoding, DataType);
    var property := OptionalBacked("data", defaults, recordCodec, DataShape);
    property.Clear();
    afterClear := property.wrappedValue;
    ValueRepresentableRoundTrips(encoding, DataType);
    OptionalRoundTrips(recordCodec);
    PrimitiveShapesFaithful();
    ArrayShapeFaithful(DataShape);
    var other := AssignThenConstruct(property, Some(record));
    freshRead := other.wrappedValue;
  }
}
