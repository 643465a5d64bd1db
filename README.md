# UserDefaultsBacked, modelled in Dafny

UserDefaultsBacked is a Swift property wrapper. It backs a typed property with an entry of the
settings store (`UserDefaults`). The store holds only property-list objects: seven primitive
kinds (Bool, Int, Float, Double, Data, String, Date) and arrays and string-keyed dictionaries of
them. A conversion layer (`UserDefaultsStorable`) turns richer values into those objects and back.

This project models both halves:

- `errors.dfy` (module `Errors`): the package's `Error` enum and the `Result`/`Option` wrappers
  that stand for Swift's `throws` and optionals.
- `collections.dfy` (module `Collections`): Swift's throwing `map` and `mapValues` and the
  element-wise dynamic cast `as?` of arrays and dictionaries. It also holds the key order that
  makes the failure `mapValues` reports definite.
- `property_list.dfy` (module `PropertyList`): the store's objects. `Shape<R>` says how a
  representation type is stored (`set(_:forKey:)`) and read back (`object(forKey:) as? R`).
- `storable.dfy` (module `Storable`): the conversion layer. A `Codec<T, R>` is a type's
  conformance to `UserDefaultsStorable`. Combinators build the conformances of `Array`,
  `Dictionary`, `Optional`, value-representable types and raw-representable enumerations.
  Lemmas prove that each combinator keeps the round-trip law `decode(encode(x)) == x`.
- `backed.dfy` (module `Backed`): the store as a class `UserDefaults` with a `map` of objects,
  and the wrapper as a class `UserDefaultsBacked<T, R>` with its constructor, the
  `wrappedValue` setter (`didSet` writes through) and `Clear`.

Swift resolves a `Value`'s conformance statically. Here that conformance is explicit: the
binding's constructor takes a `codec` and a `shape`.

`Array.init(userDefaultsDirectlyStorable:)` and `toUserDefaultsDirectlyStorable()` first try to
cast the whole array with `as?`, and convert element by element only when that cast fails. The
same holds for `Dictionary`. The model keeps this shortcut: every `Codec` carries the two
element-level casts. A codec is *coherent* when its casts agree with its conversions. All seven
primitive kinds are coherent, and so are arrays, dictionaries and value-representable types.
Optionals are coherent in the model only because their casts are modelled as always failing.
With Swift's own casts, an optional that wraps an array is not coherent: `some([]) as? [[X]]`
succeeds with `[]`, while the conversion gives `[[]]`. So in the source, `[nil]` of type `[[X]?]`
reads back as `[some([])]` (see Findings). The element-wise laws (length, order, keys, failure) and the round trip of arrays and
dictionaries are proved for coherent element codecs. A type that carries the
`UserDefaultsCompatible` marker but is none of the seven kinds is not coherent.
`ArrayShortcutSkipsTypeCheck` shows the consequence: an array of such values encodes without
`typeCheck()`, although each element on its own is refused.

## Model

| member | source | states |
|---|---|---|
| `Collections.MapAll` | Sources/UserDefaultsBacked/UserDefaultsStorable.swift:63 | converting an array succeeds exactly when every element converts; the result has the same length and holds element i's conversion at index i |
| `Collections.MapAllFirstFailure` | Sources/UserDefaultsBacked/UserDefaultsStorable.swift:63 | a failed array conversion rethrows the error of the first failing element, and every earlier element converted |
| `Collections.CastAll` | Sources/UserDefaultsBacked/UserDefaultsStorable.swift:60 | `as?` on an array succeeds exactly when every element casts, and casts element-wise |
| `Collections.MapValues` | Sources/UserDefaultsBacked/UserDefaultsStorable.swift:79 | converting a dictionary keeps exactly its keys and converts each value; it fails exactly when some value fails, with that value's error |
| `Collections.CastValues` | Sources/UserDefaultsBacked/UserDefaultsStorable.swift:76 | `as?` on a dictionary succeeds exactly when every value casts; keys are kept |
| `Collections.MapAllInverse` | Sources/UserDefaultsBacked/UserDefaultsStorable.swift:63-68 | mapping a decoder undoes mapping an encoder whenever the element decoder undoes the element encoder |
| `Collections.MapValuesInverse` | Sources/UserDefaultsBacked/UserDefaultsStorable.swift:79-84 | the same for dictionaries |
| `PropertyList.PrimitiveShapesFaithful` | Sources/UserDefaultsBacked/UserDefaultsBacked.swift:36 | each of the seven primitive kinds, stored and cast back to its own type, is unchanged |
| `PropertyList.ArrayShapeFaithful` | Sources/UserDefaultsBacked/UserDefaultsBacked.swift:36 | an array of a faithfully stored type is read back unchanged |
| `PropertyList.DictionaryShapeFaithful` | Sources/UserDefaultsBacked/UserDefaultsBacked.swift:36 | a dictionary of a faithfully stored type is read back unchanged |
| `Storable.TypeCheck` | Sources/UserDefaultsBacked/UserDefaultsStorable.swift:23-33 | the type check passes exactly for Bool, Int, Float, Double, Data, String and Date, and otherwise throws `illegalUserDefaultsDirectlyStorableType` |
| `Storable.Checked` | Sources/UserDefaultsBacked/UserDefaultsStorable.swift:35-43 | the checked identity of a compatible type; its contract is stated by `Storable.CompatibleIsCheckedIdentity` |
| `Storable.CompatibleCodec` | Sources/UserDefaultsBacked/UserDefaultsStorable.swift:35-52 | the conformance of a compatible type, with identity casts; its laws are `Storable.CompatibleIsCheckedIdentity`, `Storable.CompatibleRoundTrips` and `Storable.CompatibleCoherent` |
| `Storable.CompatibleIsCheckedIdentity` | Sources/UserDefaultsBacked/UserDefaultsStorable.swift:35-43 | a compatible value encodes and decodes to itself, and both fail exactly when its type is not one of the seven kinds |
| `Storable.CompatibleRoundTrips` | Sources/UserDefaultsBacked/UserDefaultsStorable.swift:35-43 | every compatible type round-trips |
| `Storable.CompatibleCoherent` | Sources/UserDefaultsBacked/UserDefaultsStorable.swift:46-52 | the identity casts agree with the conversions exactly for the seven store-native kinds |
| `Storable.EncodeArray` | Sources/UserDefaultsBacked/UserDefaultsStorable.swift:67-69 | the whole-array cast when it succeeds, otherwise `map` of the element encoder; stated by `Storable.ArrayIsElementwise`, `Storable.ArrayEncodeShape` and `Storable.ArrayShortcutSkipsTypeCheck` |
| `Storable.DecodeArray` | Sources/UserDefaultsBacked/UserDefaultsStorable.swift:59-65 | the whole-array cast when it succeeds, otherwise `map` of the element decoder; stated by `Storable.ArrayIsElementwise` and `Storable.ArrayShortcutSkipsTypeCheck` |
| `Storable.ArrayCodec` | Sources/UserDefaultsBacked/UserDefaultsStorable.swift:56-70 | the conformance of `[T]`; its laws are `Storable.ArrayCoherent` and `Storable.ArrayRoundTrips` |
| `Storable.ArrayIsElementwise` | Sources/UserDefaultsBacked/UserDefaultsStorable.swift:59-69 | for a coherent element type the cast shortcut changes nothing: both directions convert element by element |
| `Storable.ArrayEncodeShape` | Sources/UserDefaultsBacked/UserDefaultsStorable.swift:67-69 | encoding an array keeps length and order and fails exactly when some element fails |
| `Storable.ArrayCoherent` | Sources/UserDefaultsBacked/UserDefaultsStorable.swift:56-70 | arrays are coherent, so arrays of arrays are too |
| `Storable.ArrayRoundTrips` | Sources/UserDefaultsBacked/UserDefaultsStorable.swift:56-70 | arrays round-trip whenever their coherent element type does |
| `Storable.ArrayShortcutSkipsTypeCheck` | Sources/UserDefaultsBacked/UserDefaultsStorable.swift:59-69 | an array of a misdeclared compatible type is converted unchanged in both directions, though each of its elements is refused |
| `Storable.EncodeDictionary` | Sources/UserDefaultsBacked/UserDefaultsStorable.swift:83-85 | the whole-dictionary cast when it succeeds, otherwise `mapValues` of the value encoder; stated by `Storable.DictionaryIsValuewise` and `Storable.DictionaryEncodeShape` |
| `Storable.DecodeDictionary` | Sources/UserDefaultsBacked/UserDefaultsStorable.swift:75-81 | the whole-dictionary cast when it succeeds, otherwise `mapValues` of the value decoder; stated by `Storable.DictionaryIsValuewise` |
| `Storable.DictionaryCodec` | Sources/UserDefaultsBacked/UserDefaultsStorable.swift:72-86 | the conformance of `[String: T]`; its laws are `Storable.DictionaryCoherent` and `Storable.DictionaryRoundTrips` |
| `Storable.DictionaryIsValuewise` | Sources/UserDefaultsBacked/UserDefaultsStorable.swift:75-85 | for a coherent value type the cast shortcut changes nothing: both directions convert value by value |
| `Storable.DictionaryEncodeShape` | Sources/UserDefaultsBacked/UserDefaultsStorable.swift:83-85 | encoding a dictionary keeps exactly its keys and fails exactly when some value fails |
| `Storable.DictionaryCoherent` | Sources/UserDefaultsBacked/UserDefaultsStorable.swift:72-86 | dictionaries are coherent |
| `Storable.DictionaryRoundTrips` | Sources/UserDefaultsBacked/UserDefaultsStorable.swift:72-86 | dictionaries round-trip whenever their coherent value type does |
| `Storable.EncodeOptional` | Sources/UserDefaultsBacked/UserDefaultsStorable.swift:103-109 | stated by `Storable.OptionalEncodeShape` |
| `Storable.DecodeOptional` | Sources/UserDefaultsBacked/UserDefaultsStorable.swift:91-101 | stated by `Storable.OptionalDecodeShape` |
| `Storable.OptionalCodec` | Sources/UserDefaultsBacked/UserDefaultsStorable.swift:88-110 | the conformance of `T?`, with casts that never succeed; its laws are `Storable.OptionalCoherent` and `Storable.OptionalRoundTrips` |
| `Storable.OptionalEncodeShape` | Sources/UserDefaultsBacked/UserDefaultsStorable.swift:103-109 | `nil` encodes as the empty array and `some(v)` as the one-element array of v's encoding; failures of v's encoding propagate |
| `Storable.OptionalDecodeShape` | Sources/UserDefaultsBacked/UserDefaultsStorable.swift:91-101 | the empty array decodes to `nil`, a one-element array to its decoded element or that element's error, and any longer array fails with `illegalValue` without truncation |
| `Storable.OptionalCoherent` | Sources/UserDefaultsBacked/UserDefaultsStorable.swift:88-110 | optionals are coherent |
| `Storable.OptionalRoundTrips` | Sources/UserDefaultsBacked/UserDefaultsStorable.swift:88-110 | optionals round-trip, both `nil` and `some`, whenever the wrapped type does |
| `Storable.OptionalOfArrayAsWritten` | Sources/UserDefaultsBacked/UserDefaultsStorable.swift:56-110 | the conformance of `[X]?` with Swift's own casts, which succeed only on empty arrays; `Storable.OptionalOfArrayLosesNil` states what follows from it |
| `Storable.OptionalOfArrayLosesNil` | Sources/UserDefaultsBacked/UserDefaultsStorable.swift:56-110 | with Swift's casts, `[nil]` and `[some([])]` of type `[[Int]?]` both encode as `[[]]`, which decodes as `[some([])]`; the same holds for a dictionary; the optional conformance alone still round-trips, but it is not coherent and arrays of it do not round-trip |
| `Storable.OptionalOfArrayKeepsNil` | Sources/UserDefaultsBacked/UserDefaultsStorable.swift:56-110 | with the model's optional conformance, `[nil]` of type `[[Int]?]` encodes as `[[]]` and reads back as `[nil]`, and arrays and dictionaries of `[Int]?` round-trip |
| `Storable.EncodeThroughValue` | Sources/UserDefaultsBacked/UserDefaultsStorable.swift:121-123 | `toUserDefaultsValue` then the checked identity; stated by `Storable.ValueRepresentableStages` |
| `Storable.DecodeThroughValue` | Sources/UserDefaultsBacked/UserDefaultsStorable.swift:124-126 | the checked identity then `init(userDefaultsValue:)`; stated by `Storable.ValueRepresentableStages` |
| `Storable.ValueRepresentableCodec` | Sources/UserDefaultsBacked/UserDefaultsStorable.swift:114-127 | the conformance of a value-representable type, with casts that never succeed; its laws are `Storable.ValueRepresentableStages`, `Storable.ValueRepresentableCoherent` and `Storable.ValueRepresentableRoundTrips` |
| `Storable.ValueRepresentableStages` | Sources/UserDefaultsBacked/UserDefaultsStorable.swift:120-127 | encoding is `toUserDefaultsValue` then the compatible encoding, decoding is the compatible decoding then `init(userDefaultsValue:)`; a failure of either stage is the failure of the whole |
| `Storable.ValueRepresentableCoherent` | Sources/UserDefaultsBacked/UserDefaultsStorable.swift:120-127 | value-representable types are coherent |
| `Storable.ValueRepresentableRoundTrips` | Sources/UserDefaultsBacked/UserDefaultsStorable.swift:114-127 | a value-representable type round-trips whenever its value conversion does |
| `Storable.DecodeRaw` | Sources/UserDefaultsBacked/UserDefaultsStorable.swift:170-176 | decodes the raw value, then looks up its case; stated by `Storable.RawRepresentableUnknownCase` and `Storable.RawRepresentableRoundTrips` |
| `Storable.RawRepresentable` | Sources/UserDefaultsBacked/UserDefaultsStorable.swift:169-181 | the value representation of an enumeration through its raw value; stated by `Storable.RawRepresentableEncodesRawValue`, `Storable.RawRepresentableUnknownCase` and `Storable.RawRepresentableRoundTrips` |
| `Storable.RawRepresentableEncodesRawValue` | Sources/UserDefaultsBacked/UserDefaultsStorable.swift:178-180 | an enumeration is encoded exactly as its raw value is |
| `Storable.RawRepresentableUnknownCase` | Sources/UserDefaultsBacked/UserDefaultsStorable.swift:170-176 | a decoded raw value that names no case fails with `illegalValue` |
| `Storable.RawRepresentableRoundTrips` | Sources/UserDefaultsBacked/UserDefaultsStorable.swift:169-181 | an enumeration round-trips whenever its raw value does and every case is recovered from its raw value |
| `Errors.Error` | Sources/UserDefaultsBacked/UserDefaultsBacked.swift:5-8 | the package's two errors (`IllegalValue`, `IllegalDirectlyStorableType`), plus `Thrown` for errors of foreign code; where each arises is stated by `Storable.TypeCheck`, `Storable.OptionalDecodeShape`, `Storable.RawRepresentableUnknownCase` and `Backed.DecodeStored` |
| `Backed.UserDefaults.Set` | Sources/UserDefaultsBacked/UserDefaultsBacked.swift:22 | `set(_:forKey:)` replaces the object under the key and no other |
| `Backed.UserDefaults.RemoveObject` | Sources/UserDefaultsBacked/UserDefaultsBacked.swift:57 | `removeObject(forKey:)` removes the key and changes nothing else |
| `Backed.DecodeStored` | Sources/UserDefaultsBacked/UserDefaultsBacked.swift:36-40 | a stored object of the wrong shape fails with `illegalValue` before any decoding |
| `Backed.Restored` | Sources/UserDefaultsBacked/UserDefaultsBacked.swift:34-48 | the starting value is the default when the key is absent, when the stored object has the wrong shape or fails to decode, and the decoded value otherwise |
| `Backed.WriteThrough` | Sources/UserDefaultsBacked/UserDefaultsBacked.swift:18-27 | an assignment stores the encoded value under the key when encoding succeeds and leaves the store unchanged when it fails; no other key changes |
| `Backed.StoreRoundTrip` | Sources/UserDefaultsBacked/UserDefaultsBacked.swift:21-37 | a value written to the store and cast and decoded on construction comes back unchanged |
| `Backed.WriteThenFreshRead` | Sources/UserDefaultsBacked/UserDefaultsBacked.swift:21-37 | after writing v under a key, construction over that key starts with v, whatever the default |
| `Backed.UserDefaultsBacked.constructor` | Sources/UserDefaultsBacked/UserDefaultsBacked.swift:29-49 | construction sets key and default, starts with the restored value, never fails and never writes the store |
| `Backed.UserDefaultsBacked.SetWrappedValue` | Sources/UserDefaultsBacked/UserDefaultsBacked.swift:18-27 | the cached value always becomes the new value, and the store becomes the write-through of it |
| `Backed.UserDefaultsBacked.Clear` | Sources/UserDefaultsBacked/UserDefaultsBacked.swift:55-58 | clearing leaves the default cached and the key absent, every other key unchanged |
| `Backed.OptionalBacked` | Sources/UserDefaultsBacked/UserDefaultsBacked.swift:51-53 | the optional initializer is the general one with default `nil` and the optional conformance |
| `Backed.ClearTwice` | Sources/UserDefaultsBacked/UserDefaultsBacked.swift:55-58 | clearing twice leaves the same state as clearing once |
| `Backed.AssignThenConstruct` | Sources/UserDefaultsBacked/UserDefaultsBacked.swift:18-49 | after assigning v on one binding, a binding constructed over the same key and store starts with v |
| `Backed.StringPropertyScenario` | Tests/UserDefaultsBackedTests/UserDefaultsBackedTests.swift:6-14 | key "string", default "default": clearing reads "default", assigning "hello" reads "hello", and so does a binding constructed afterwards |
| `Backed.OptionalRecordScenario` | Sources/UserDefaultsBacked/UserDefaultsBacked.swift:51-58 | an optional record stored through a round-tripping `Data` encoding reads absent after clearing and reads the record in a binding constructed after assigning it |

## Left out

- Property-list `Codable` encoding (UserDefaultsStorable.swift:131-139): `PropertyListEncoder` and `PropertyListDecoder` are not part of this model. A `Codable` type appears only as a `Representable<V, seq<bv8>>` parameter whose round trip is a precondition (`OptionalRecordScenario`).
- `NSSecureCoding` archiving (UserDefaultsStorable.swift:143-165) is not modelled: it calls the foreign keyed archiver under OS-availability branches. Its encoder is spelled `toUserDefaultValue`, which is not the protocol requirement `toUserDefaultsValue`, so that extension does not supply the requirement.
- The `URL`, `NSColor` and `UIColor` conformances (UserDefaultsStorable.swift:185-191) are platform types behind conditional compilation.
- The real `UserDefaults`: persistence, thread safety and races between bindings. It is a map of objects shared by reference. The default argument `.standard` is not modelled: the store is always passed in.
- `assertionFailure` (UserDefaultsBacked.swift:24, 42) stops a debug build. Only release behaviour is modelled: nothing is reported, and execution goes on.
- Float, Double and Date values are opaque bit patterns. Int is a 64-bit integer. No arithmetic happens on any of them.
- Foundation's bridging of `NSNumber`, which lets a stored Bool be read as an Int and the reverse: `object as? R` is modelled as an exact match of the primitive's tag.
- Storable.OptionalCodec: its dynamic casts always fail. Swift's `as?` unwraps `some(v)` and can succeed, for instance when v is an empty array. The model uses the intended behaviour; `Storable.OptionalOfArrayAsWritten` keeps Swift's casts for optionals of arrays (see Findings).
- Storable.OptionalCoherent: holds only because the model's optional casts never succeed. With Swift's casts, an optional that wraps an array is not coherent, and `[nil]` of type `[[X]?]` reads back as `[some([])]` (`Storable.OptionalOfArrayLosesNil`). The same holds for `[String: [X]?]`, and for a binding of either type (`Backed.AssignThenConstruct`).
- The payloads of `Error.illegalValue(found:for:)` and the type of `illegalUserDefaultsDirectlyStorableType` are diagnostics and are dropped (the latter keeps the type's name). `Error.Thrown` stands for errors thrown by foreign code.
- Swift's `mapValues` visits entries in an unspecified order. When several values fail, the model reports the failure of the lexicographically least key.
- Storable.ArrayEncodeShape: stated only for coherent element codecs. For incoherent ones the cast shortcut breaks the element-wise law (see `ArrayShortcutSkipsTypeCheck`).
- Storable.ArrayRoundTrips: stated only for coherent element codecs, for the same reason. Because the model's optionals are coherent, it covers arrays of optional arrays, which in the source do not round-trip: `[nil]` of type `[[X]?]` reads back as `[some([])]`.
- Storable.DictionaryEncodeShape: stated only for coherent value codecs, for the same reason.
- Storable.DictionaryRoundTrips: stated only for coherent value codecs, for the same reason. It likewise covers dictionaries of optional arrays, which in the source do not round-trip: `["k": nil]` of type `[String: [X]?]` reads back as `["k": some([])]`.
- `UserDefaultsBacked` is a Swift struct. It is modelled as a class, so copying a binding by value is not modelled. Its reference to the store is shared, as in the source.

## Findings

| source | as written | input that shows it | evidently intended | confidence | as-written member | corrected member |
|---|---|---|---|---|---|---|
| Sources/UserDefaultsBacked/UserDefaultsStorable.swift:60, 68, 76, 84 and 88-110 | the whole-collection `as?` shortcut unwraps optionals, so an absent optional array and a present empty one share the encoding `[]`, and decoding picks `some([])` | `[nil]` of type `[[Int]?]`: it encodes as `[[]]`, which decodes as `[some([])]` | an array or dictionary of optionals reads back as it was written | medium; not executed | `Storable.OptionalOfArrayLosesNil` | `Storable.OptionalOfArrayKeepsNil` |
