/**
 * The conversion layer: how a value of a storable type `T` becomes a value of its representation
 * type `R` (`toUserDefaultsDirectlyStorable`) and back (`init(userDefaultsDirectlyStorable:)`),
 * and how arrays, string-keyed dictionaries, optionals, value-representable types and
 * raw-representable enumerations compose those conversions.
 */
module Storable {
  import opened Errors
  import opened Collections

  // ---------------------------------------------------------------------------------------------
  // Directly storable types

  /**
   * The static type of a value that declares itself `UserDefaultsCompatible`: one of the seven
   * store-native kinds, or some other type that (wrongly) carries the marker.
   */
  datatype SwiftType =
    | BoolType | IntType | FloatType | DoubleType | DataType | StringType | DateType
    | OtherType(name: string)

  /** The kinds the store holds as they are. */
  const DirectlyStorableTypes: set<SwiftType> :=
    {BoolType, IntType, FloatType, DoubleType, DataType, StringType, DateType}

  /** `typeCheck()`: passes exactly for the seven store-native kinds. */
  function TypeCheck(t: SwiftType): (r: Result<()>)
    ensures r.Ok? <==> t in DirectlyStorableTypes
    ensures r.Err? ==> r.error.IllegalDirectlyStorableType?
  {
    match t
    case OtherType(name) => Err(IllegalDirectlyStorableType(name))
    case _ => Ok(())
  }

  /** Both conversions of a `UserDefaultsCompatible` type: the value itself, once `typeCheck()` passes. */
  function Checked<T>(t: SwiftType, x: T): Result<T>
  {
    var _ :- TypeCheck(t);
    Ok(x)
  }

  // ---------------------------------------------------------------------------------------------
  // Codecs

  /**
   * The conformance of a type `T` to `UserDefaultsStorable` with representation type `R`: its two
   * conversions, and the dynamic casts `x as? R` and `r as? T` that the array and dictionary
   * conversions try before converting element by element.
   */
  datatype Codec<!T, !R> = Codec(
    encode: T -> Result<R>,
    decode: R -> Result<T>,
    castToRepresentation: T -> Option<R>,
    castFromRepresentation: R -> Option<T>)

  /** Decoding undoes every successful encoding. */
  ghost predicate RoundTrips<T(!new), R>(c: Codec<T, R>)
  {
    forall x :: c.encode(x).Ok? ==> c.decode(c.encode(x).value) == Ok(x)
  }

  /** Where a dynamic cast succeeds, it gives what the conversion would give. */
  ghost predicate Coherent<T(!new), R(!new)>(c: Codec<T, R>)
  {
    && (forall x :: c.castToRepresentation(x).Some? ==> c.encode(x) == Ok(c.castToRepresentation(x).value))
    && (forall r :: c.castFromRepresentation(r).Some? ==> c.decode(r) == Ok(c.castFromRepresentation(r).value))
  }

  /** A `UserDefaultsCompatible` type `T` whose static type is `t`; it is its own representation. */
  function CompatibleCodec<T>(t: SwiftType): Codec<T, T>
  {
    Codec(x => Checked(t, x), r => Checked(t, r), x => Some(x), r => Some(r))
  }

  lemma CompatibleIsCheckedIdentity<T>(t: SwiftType, x: T)
    ensures CompatibleCodec<T>(t).encode(x).Ok? <==> t in DirectlyStorableTypes
    ensures CompatibleCodec<T>(t).decode(x).Ok? <==> t in DirectlyStorableTypes
    ensures t in DirectlyStorableTypes ==> CompatibleCodec<T>(t).encode(x) == Ok(x) && CompatibleCodec<T>(t).decode(x) == Ok(x)
    ensures t !in DirectlyStorableTypes ==> CompatibleCodec<T>(t).encode(x) == Err(IllegalDirectlyStorableType(t.name))
  {
  }

  lemma CompatibleRoundTrips<T(!new)>(t: SwiftType)
    ensures RoundTrips(CompatibleCodec<T>(t))
  {
  }

  /** The identity casts agree with the conversions exactly for the seven kinds (`x` witnesses an inhabited `T`). */
  lemma CompatibleCoherent<T(!new)>(t: SwiftType, x: T)
    ensures Coherent(CompatibleCodec<T>(t)) <==> t in DirectlyStorableTypes
  {
    if t !in DirectlyStorableTypes {
      assert CompatibleCodec<T>(t).castToRepresentation(x).Some?;
    }
  }

  // ---------------------------------------------------------------------------------------------
  // Arrays

  /** `[T]` to `[R]`: the array itself when it casts to `[R]`, otherwise element by element. */
  function EncodeArray<T, R>(c: Codec<T, R>, xs: seq<T>): Result<seq<R>>
  {
    match CastAll(c.castToRepresentation, xs)
    case Some(rs) => Ok(rs)
    case None => MapAll(c.encode, xs)
  }

  /** `[R]` to `[T]`: the array itself when it casts to `[T]`, otherwise element by element. */
  function DecodeArray<T, R>(c: Codec<T, R>, rs: seq<R>): Result<seq<T>>
  {
    match CastAll(c.castFromRepresentation, rs)
    case Some(xs) => Ok(xs)
    case None => MapAll(c.decode, rs)
  }

  function ArrayCodec<T, R>(element: Codec<T, R>): Codec<seq<T>, seq<R>>
  {
    Codec(
      xs => EncodeArray(element, xs),
      rs => DecodeArray(element, rs),
      xs => CastAll(element.castToRepresentation, xs),
      rs => CastAll(element.castFromRepresentation, rs))
  }

  /** For a coherent element type, the identity shortcuts change nothing: arrays convert element-wise. */
  lemma ArrayIsElementwise<T(!new), R(!new)>(element: Codec<T, R>, xs: seq<T>, rs: seq<R>)
    requires Coherent(element)
    ensures EncodeArray(element, xs) == MapAll(element.encode, xs)
    ensures DecodeArray(element, rs) == MapAll(element.decode, rs)
  {
    if CastAll(element.castToRepresentation, xs).Some? {
      CastAllAgreesWithMapAll(element.castToRepresentation, element.encode, xs);
    }
    if CastAll(element.castFromRepresentation, rs).Some? {
      CastAllAgreesWithMapAll(element.castFromRepresentation, element.decode, rs);
    }
  }

  /**
   * Encoding an array of a coherent element type keeps length and order, and fails exactly when
   * some element fails.
   */
  lemma ArrayEncodeShape<T(!new), R(!new)>(element: Codec<T, R>, xs: seq<T>)
    requires Coherent(element)
    ensures EncodeArray(element, xs).Ok? <==> forall i :: 0 <= i < |xs| ==> element.encode(xs[i]).Ok?
    ensures EncodeArray(element, xs).Ok? ==>
      var rs := EncodeArray(element, xs).value;
      |rs| == |xs| && forall i :: 0 <= i < |xs| ==> rs[i] == element.encode(xs[i]).value
  {
    ArrayIsElementwise(element, xs, []);
  }

  lemma ArrayCoherent<T(!new), R(!new)>(element: Codec<T, R>)
    ensures Coherent(ArrayCodec(element))
  {
  }

  lemma ArrayRoundTrips<T(!new), R(!new)>(element: Codec<T, R>)
    requires Coherent(element) && RoundTrips(element)
    ensures RoundTrips(ArrayCodec(element))
  {
    forall xs | ArrayCodec(element).encode(xs).Ok?
      ensures ArrayCodec(element).decode(ArrayCodec(element).encode(xs).value) == Ok(xs)
    {
      var rs := EncodeArray(element, xs).value;
      ArrayIsElementwise(element, xs, rs);
      MapAllInverse(element.encode, element.decode, xs);
    }
  }

  /**
   * For a type that carries the compatible marker but is none of the seven kinds, an array of its
   * values casts to its own representation type and so is encoded without `typeCheck()`, though
   * every element on its own is refused.
   */
  lemma ArrayShortcutSkipsTypeCheck<T>(name: string, xs: seq<T>)
    ensures forall i :: 0 <= i < |xs| ==> CompatibleCodec<T>(OtherType(name)).encode(xs[i]).Err?
    ensures EncodeArray(CompatibleCodec<T>(OtherType(name)), xs) == Ok(xs)
    ensures DecodeArray(CompatibleCodec<T>(OtherType(name)), xs) == Ok(xs)
  {
    var c := CompatibleCodec<T>(OtherType(name));
    assert CastAll(c.castToRepresentation, xs).value == xs;
    assert CastAll(c.castFromRepresentation, xs).value == xs;
  }

  // ---------------------------------------------------------------------------------------------
  // String-keyed dictionaries

  function EncodeDictionary<T, R>(c: Codec<T, R>, m: map<string, T>): Result<map<string, R>>
  {
    match CastValues(c.castToRepresentation, m)
    case Some(rm) => Ok(rm)
    case None => MapValues(c.encode, m)
  }

  function DecodeDictionary<T, R>(c: Codec<T, R>, rm: map<string, R>): Result<map<string, T>>
  {
    match CastValues(c.castFromRepresentation, rm)
    case Some(m) => Ok(m)
    case None => MapValues(c.decode, rm)
  }

  function DictionaryCodec<T, R>(value: Codec<T, R>): Codec<map<string, T>, map<string, R>>
  {
    Codec(
      m => EncodeDictionary(value, m),
      rm => DecodeDictionary(value, rm),
      m => CastValues(value.castToRepresentation, m),
      rm => CastValues(value.castFromRepresentation, rm))
  }

  lemma DictionaryIsValuewise<T(!new), R(!new)>(value: Codec<T, R>, m: map<string, T>, rm: map<string, R>)
    requires Coherent(value)
    ensures EncodeDictionary(value, m) == MapValues(value.encode, m)
    ensures DecodeDictionary(value, rm) == MapValues(value.decode, rm)
  {
    if CastValues(value.castToRepresentation, m).Some? {
      CastValuesAgreesWithMapValues(value.castToRepresentation, value.encode, m);
    }
    if CastValues(value.castFromRepresentation, rm).Some? {
      CastValuesAgreesWithMapValues(value.castFromRepresentation, value.decode, rm);
    }
  }

  /**
   * Encoding a dictionary of a coherent value type keeps exactly its keys, converts each value on
   * its own, and fails exactly when some value fails.
   */
  lemma DictionaryEncodeShape<T(!new), R(!new)>(value: Codec<T, R>, m: map<string, T>)
    requires Coherent(value)
    ensures EncodeDictionary(value, m).Ok? <==> forall k :: k in m ==> value.encode(m[k]).Ok?
    ensures EncodeDictionary(value, m).Ok? ==>
      var rm := EncodeDictionary(value, m).value;
      rm.Keys == m.Keys && forall k :: k in m ==> rm[k] == value.encode(m[k]).value
  {
    DictionaryIsValuewise(value, m, map[]);
  }

  lemma DictionaryCoherent<T(!new), R(!new)>(value: Codec<T, R>)
    ensures Coherent(DictionaryCodec(value))
  {
  }

  lemma DictionaryRoundTrips<T(!new), R(!new)>(value: Codec<T, R>)
    requires Coherent(value) && RoundTrips(value)
    ensures RoundTrips(DictionaryCodec(value))
  {
    forall m | DictionaryCodec(value).encode(m).Ok?
      ensures DictionaryCodec(value).decode(DictionaryCodec(value).encode(m).value) == Ok(m)
    {
      var rm := EncodeDictionary(value, m).value;
      DictionaryIsValuewise(value, m, rm);
      MapValuesInverse(value.encode, value.decode, m);
    }
  }

  // ---------------------------------------------------------------------------------------------
  // Optionals: absent is the empty array, present is a one-element array

  function EncodeOptional<T, R>(c: Codec<T, R>, o: Option<T>): Result<seq<R>>
  {
    match o
    case Some(v) =>
      var r :- c.encode(v);
      Ok([r])
    case None => Ok([])
  }

  function DecodeOptional<T, R>(c: Codec<T, R>, rs: seq<R>): Result<Option<T>>
  {
    if |rs| < 2 then
      if |rs| == 1 then
        var v :- c.decode(rs[0]);
        Ok(Some(v))
      else Ok(None)
    else Err(IllegalValue)
  }

  /** Dynamic casts between an optional and an array are modelled as failing (see README). */
  function OptionalCodec<T, R>(wrapped: Codec<T, R>): Codec<Option<T>, seq<R>>
  {
    Codec(o => EncodeOptional(wrapped, o), rs => DecodeOptional(wrapped, rs), o => None, rs => None)
  }

  /** The representation of an optional has at most one element, and exactly one when a value is present. */
  lemma OptionalEncodeShape<T, R>(wrapped: Codec<T, R>, o: Option<T>)
    ensures EncodeOptional(wrapped, o).Ok? <==> o.None? || wrapped.encode(o.value).Ok?
    ensures EncodeOptional(wrapped, o).Ok? ==> |EncodeOptional(wrapped, o).value| == if o.Some? then 1 else 0
    ensures o.Some? && wrapped.encode(o.value).Ok? ==> EncodeOptional(wrapped, o).value[0] == wrapped.encode(o.value).value
    ensures o.Some? && wrapped.encode(o.value).Err? ==> EncodeOptional(wrapped, o).error == wrapped.encode(o.value).error
  {
  }

  /**
   * Decoding an optional: the empty array is absent, a one-element array is its decoded element
   * (or that element's failure), and any longer array is refused with `IllegalValue`, whatever
   * its elements.
   */
  lemma OptionalDecodeShape<T, R>(wrapped: Codec<T, R>, rs: seq<R>)
    ensures |rs| == 0 ==> DecodeOptional(wrapped, rs) == Ok(None)
    ensures |rs| == 1 && wrapped.decode(rs[0]).Ok? ==> DecodeOptional(wrapped, rs) == Ok(Some(wrapped.decode(rs[0]).value))
    ensures |rs| == 1 && wrapped.decode(rs[0]).Err? ==> DecodeOptional(wrapped, rs) == Err(wrapped.decode(rs[0]).error)
    ensures |rs| >= 2 ==> DecodeOptional(wrapped, rs) == Err(IllegalValue)
  {
  }

  lemma OptionalCoherent<T(!new), R(!new)>(wrapped: Codec<T, R>)
    ensures Coherent(OptionalCodec(wrapped))
  {
  }

  lemma OptionalRoundTrips<T(!new), R>(wrapped: Codec<T, R>)
    requires RoundTrips(wrapped)
    ensures RoundTrips(OptionalCodec(wrapped))
  {
    forall o | EncodeOptional(wrapped, o).Ok?
      ensures DecodeOptional(wrapped, EncodeOptional(wrapped, o).value) == Ok(o)
    {
      if o.Some? {
        assert wrapped.encode(o.value).Ok?;
      }
    }
  }

  /**
   * The optional conformance of `[X]?` for a scalar element type `X`, with the dynamic casts Swift
   * actually performs. `some(v) as? [[X]]` unwraps and casts `v` element by element, so it
   * succeeds only when `v` is empty; `rs as? [X]?` casts `rs` to `[X]` and wraps the result, so
   * it succeeds only when `rs` is empty, giving `some([])`.
   */
  function OptionalOfArrayAsWritten<T, R>(wrapped: Codec<seq<T>, seq<R>>): Codec<Option<seq<T>>, seq<seq<R>>>
  {
    Codec(
      o => EncodeOptional(wrapped, o),
      rs => DecodeOptional(wrapped, rs),
      (o: Option<seq<T>>) => if o.Some? && |o.value| == 0 then Some([]) else None,
      rs => if |rs| == 0 then Some(Some([])) else None)
  }

  /**
   * With Swift's casts, `[nil]` of type `[[Int]?]` is encoded element by element as `[[]]`, which
   * is also the encoding of `[some([])]`; decoding `[[]]` takes the cast shortcut and gives
   * `[some([])]`. The same holds for dictionaries. The optional conformance on its own still
   * round-trips; what fails is its coherence, and with it the round trip of collections of it.
   */
  lemma OptionalOfArrayLosesNil()
    ensures var c := OptionalOfArrayAsWritten(ArrayCodec(CompatibleCodec<int>(IntType)));
      && RoundTrips(c)
      && !Coherent(c)
      && EncodeArray(c, [None]) == Ok([[]])
      && EncodeArray(c, [Some([])]) == Ok([[]])
      && DecodeArray(c, [[]]) == Ok([Some([])])
      && !RoundTrips(ArrayCodec(c))
      && EncodeDictionary(c, map["k" := None]) == Ok(map["k" := []])
      && DecodeDictionary(c, map["k" := []]) == Ok(map["k" := Some([])])
  {
    var element := CompatibleCodec<int>(IntType);
    var c := OptionalOfArrayAsWritten(ArrayCodec(element));
    CompatibleCoherent(IntType, 0);
    CompatibleRoundTrips<int>(IntType);
    ArrayRoundTrips(element);
    assert OptionalCodec(ArrayCodec(element)).encode == c.encode;
    assert OptionalCodec(ArrayCodec(element)).decode == c.decode;
    OptionalRoundTrips(ArrayCodec(element));
    var none: Option<seq<int>> := None;
    var empty: Option<seq<int>> := Some([]);
    // Encoding `[nil]`: the cast fails on `nil`, so the element is encoded as the empty array.
    assert c.encode(none) == Ok([]);
    assert [none][0] == none;
    assert CastAll(c.castToRepresentation, [none]) == None;
    var encoded := MapAll(c.encode, [none]);
    assert encoded.value == [[]];
    // Encoding `[some([])]`: the cast succeeds and gives the same array.
    assert c.castToRepresentation(empty) == Some([]);
    assert [empty][0] == empty;
    assert CastAll(c.castToRepresentation, [empty]).value == [[]];
    assert !Coherent(c) by {
      assert c.encode(empty) == Ok([[]]);
    }
    // Decoding `[[]]` takes the cast shortcut.
    var stored: seq<seq<seq<int>>> := [[]];
    assert stored[0] == [];
    assert c.castFromRepresentation([]) == Some(empty);
    var decoded := CastAll(c.castFromRepresentation, stored);
    assert decoded.value == [empty];
    assert ArrayCodec(c).encode([none]) == Ok(stored);
    assert ArrayCodec(c).decode(stored) != Ok([none]);
    // The same for a dictionary.
    var m := map["k" := none];
    assert m["k"] == none;
    assert CastValues(c.castToRepresentation, m) == None;
    var encodedMap := MapValues(c.encode, m).value;
    assert encodedMap == map["k" := []];
    var storedMap: map<string, seq<seq<int>>> := map["k" := []];
    assert storedMap["k"] == [];
    var decodedMap := CastValues(c.castFromRepresentation, storedMap).value;
    assert decodedMap == map["k" := empty];
  }

  /**
   * The intended behaviour, which the rest of the model uses: with `OptionalCodec`, whose casts
   * never succeed, `[nil]` of type `[[Int]?]` reads back as `[nil]`, and every array and
   * dictionary of `[Int]?` round-trips.
   */
  lemma OptionalOfArrayKeepsNil()
    ensures var c := OptionalCodec(ArrayCodec(CompatibleCodec<int>(IntType)));
      && EncodeArray(c, [None]) == Ok([[]])
      && DecodeArray(c, [[]]) == Ok([None])
      && RoundTrips(ArrayCodec(c))
      && RoundTrips(DictionaryCodec(c))
  {
    var element := CompatibleCodec<int>(IntType);
    var c := OptionalCodec(ArrayCodec(element));
    CompatibleCoherent(IntType, 0);
    CompatibleRoundTrips<int>(IntType);
    ArrayCoherent(element);
    ArrayRoundTrips(element);
    OptionalCoherent(ArrayCodec(element));
    OptionalRoundTrips(ArrayCodec(element));
    ArrayRoundTrips(c);
    DictionaryRoundTrips(c);
    var none: Option<seq<int>> := None;
    var stored: seq<seq<seq<int>>> := [[]];
    ArrayIsElementwise(c, [none], stored);
    assert [none][0] == none && stored[0] == [];
    assert c.encode(none) == Ok([]);
    assert MapAll(c.encode, [none]).value == stored;
    assert c.decode([]) == Ok(none);
    assert MapAll(c.decode, stored).value == [none];
  }

  // ---------------------------------------------------------------------------------------------
  // Value-representable types: conversion through an intermediate compatible value

  /** `toUserDefaultsValue()` and `init(userDefaultsValue:)` of a `UserDefaultsValueRepresentable` type. */
  datatype Representable<!T, !U> = Representable(toValue: T -> Result<U>, fromValue: U -> Result<T>)

  ghost predicate RepresentationRoundTrips<T(!new), U>(rep: Representable<T, U>)
  {
    forall x :: rep.toValue(x).Ok? ==> rep.fromValue(rep.toValue(x).value) == Ok(x)
  }

  function EncodeThroughValue<T, U>(rep: Representable<T, U>, valueType: SwiftType, x: T): Result<U>
  {
    var u :- rep.toValue(x);
    Checked(valueType, u)
  }

  function DecodeThroughValue<T, U>(rep: Representable<T, U>, valueType: SwiftType, r: U): Result<T>
  {
    var u :- Checked(valueType, r);
    rep.fromValue(u)
  }

  /**
   * A value-representable type whose intermediate value has the compatible type `valueType`;
   * its representation is that of the intermediate value, i.e. the value itself. A value of such
   * a type never casts to its representation or back.
   */
  function ValueRepresentableCodec<T, U>(rep: Representable<T, U>, valueType: SwiftType): Codec<T, U>
  {
    Codec(x => EncodeThroughValue(rep, valueType, x), r => DecodeThroughValue(rep, valueType, r), x => None, r => None)
  }

  /** The two stages compose, and a failure of either stage is the failure of the whole. */
  lemma ValueRepresentableStages<T, U>(rep: Representable<T, U>, valueType: SwiftType, x: T, r: U)
    ensures ValueRepresentableCodec(rep, valueType).encode(x) ==
      match rep.toValue(x)
      case Err(e) => Err(e)
      case Ok(u) => CompatibleCodec<U>(valueType).encode(u)
    ensures ValueRepresentableCodec(rep, valueType).decode(r) ==
      match CompatibleCodec<U>(valueType).decode(r)
      case Err(e) => Err(e)
      case Ok(u) => rep.fromValue(u)
  {
  }

  lemma ValueRepresentableCoherent<T(!new), U(!new)>(rep: Representable<T, U>, valueType: SwiftType)
    ensures Coherent(ValueRepresentableCodec(rep, valueType))
  {
  }

  lemma ValueRepresentableRoundTrips<T(!new), U>(rep: Representable<T, U>, valueType: SwiftType)
    requires RepresentationRoundTrips(rep)
    ensures RoundTrips(ValueRepresentableCodec(rep, valueType))
  {
    forall x | ValueRepresentableCodec(rep, valueType).encode(x).Ok?
      ensures ValueRepresentableCodec(rep, valueType).decode(ValueRepresentableCodec(rep, valueType).encode(x).value) == Ok(x)
    {
      assert rep.toValue(x).Ok?;
    }
  }

  // ---------------------------------------------------------------------------------------------
  // Raw-representable enumerations: through the raw value

  /** `rawValue` and the failable `init(rawValue:)` of a raw-representable type `E`. */
  datatype RawRepresentation<!E, !Raw> = RawRepresentation(rawValue: E -> Raw, fromRawValue: Raw -> Option<E>)

  /** Every case is recovered from its own raw value, as for a Swift enumeration. */
  ghost predicate CasesRoundTrip<E(!new), Raw>(cases: RawRepresentation<E, Raw>)
  {
    forall x :: cases.fromRawValue(cases.rawValue(x)) == Some(x)
  }

  function DecodeRaw<E, Raw, U>(raw: Representable<Raw, U>, cases: RawRepresentation<E, Raw>, u: U): Result<E>
  {
    var r :- raw.fromValue(u);
    match cases.fromRawValue(r)
    case Some(x) => Ok(x)
    case None => Err(IllegalValue)
  }

  /** The value representation of an enumeration, given that of its raw value. */
  function RawRepresentable<E, Raw, U>(raw: Representable<Raw, U>, cases: RawRepresentation<E, Raw>): Representable<E, U>
  {
    Representable(x => raw.toValue(cases.rawValue(x)), u => DecodeRaw(raw, cases, u))
  }

  /** An enumeration is encoded as its raw value is. */
  lemma RawRepresentableEncodesRawValue<E, Raw, U>(raw: Representable<Raw, U>, cases: RawRepresentation<E, Raw>, valueType: SwiftType, x: E)
    ensures ValueRepresentableCodec(RawRepresentable(raw, cases), valueType).encode(x) ==
            ValueRepresentableCodec(raw, valueType).encode(cases.rawValue(x))
  {
  }

  /** A raw value that names no case is refused with `IllegalValue`. */
  lemma RawRepresentableUnknownCase<E, Raw, U>(raw: Representable<Raw, U>, cases: RawRepresentation<E, Raw>, u: U)
    requires raw.fromValue(u).Ok? && cases.fromRawValue(raw.fromValue(u).value).None?
    ensures RawRepresentable(raw, cases).fromValue(u) == Err(IllegalValue)
  {
  }

  lemma RawRepresentableRoundTrips<E(!new), Raw(!new), U>(raw: Representable<Raw, U>, cases: RawRepresentation<E, Raw>)
    requires RepresentationRoundTrips(raw) && CasesRoundTrip(cases)
    ensures RepresentationRoundTrips(RawRepresentable(raw, cases))
  {
    forall x | RawRepresentable(raw, cases).toValue(x).Ok?
      ensures RawRepresentable(raw, cases).fromValue(RawRepresentable(raw, cases).toValue(x).value) == Ok(x)
    {
      assert raw.toValue(cases.rawValue(x)).Ok?;
    }
  }
}
