/**
 * The values Hardpack encodes and the types it decodes them as.
 *
 * `Value` is what the encoders see at run time: the dynamic type decides
 * every branch they take.  `Shape` is the static `Decodable` type the
 * decoder is asked for, which decides every branch it takes.  A record
 * stands for a type with a synthesized `Codable` conformance, its stored
 * properties in declaration order.  `Data` has the wire format and the
 * decoding path of `[UInt8]` and is written as an array of `UInt8`.
 */
module Values {
  import opened Wire
  import Utf8
  import Foundation

  /** The fixed-width integer types; `Int` and `UInt` are the 64-bit platform words. */
  datatype IntKind = UInt8 | UInt16 | UInt32 | UInt64 | Int8 | Int16 | Int32 | Int64 | Int | UInt

  /** `MemoryLayout<T>.size`. */
  function Width(k: IntKind): (n: nat)
    ensures n == 1 || n == 2 || n == 4 || n == 8
  {
    match k
    case UInt8 | Int8 => 1
    case UInt16 | Int16 => 2
    case UInt32 | Int32 => 4
    case _ => 8
  }

  predicate Signed(k: IntKind)
  {
    k.Int8? || k.Int16? || k.Int32? || k.Int64? || k.Int?
  }

  /** `2^(8 Width(k))`: the number of bit patterns of type `k`. */
  function Modulus(k: IntKind): (m: nat)
    ensures m == 2 * Half(k)
  {
    match k
    case UInt8 | Int8 => 0x100
    case UInt16 | Int16 => 0x1_0000
    case UInt32 | Int32 => 0x1_0000_0000
    case _ => UInt64Limit
  }

  /** `2^(8 Width(k) - 1)`: the magnitude of the smallest value of a signed type `k`. */
  function Half(k: IntKind): nat
  {
    match k
    case UInt8 | Int8 => 0x80
    case UInt16 | Int16 => 0x8000
    case UInt32 | Int32 => 0x8000_0000
    case _ => 0x8000_0000_0000_0000
  }

  lemma ModulusIsPow2(k: IntKind)
    ensures Modulus(k) == Pow2(8 * Width(k))
  {
    Pow2Of64();
    assert Pow2(8) == 0x100;
    Pow2Add(8, 8);
    assert Pow2(16) == 0x1_0000;
    Pow2Add(16, 16);
  }

  /** `n` is a value of the Swift type `k`. */
  predicate InRange(k: IntKind, n: int)
  {
    if Signed(k) then -(Half(k) as int) <= n < Half(k) else 0 <= n < Modulus(k)
  }

  /**
   * The low `8 Width(k)` bits of `n`: for a value of type `k`, its two's
   * complement bit pattern.
   */
  function Pattern(k: IntKind, n: int): (p: nat)
    ensures p < Modulus(k)
  {
    n % Modulus(k)
  }

  /** The value of type `k` whose bit pattern is `p`. */
  function FromPattern(k: IntKind, p: nat): (n: int)
    requires p < Modulus(k)
    ensures InRange(k, n)
  {
    if Signed(k) && p >= Half(k) then p - Modulus(k) else p
  }

  /** Reinterpreting the bit pattern of a value gives the value back. */
  lemma PatternRoundTrip(k: IntKind, n: int)
    requires InRange(k, n)
    ensures FromPattern(k, Pattern(k, n)) == n
  {
    if n < 0 {
      ModOfNegative(n, Modulus(k));
    } else {
      ModOfSmall(n, Modulus(k));
    }
  }

  /** Every bit pattern is the pattern of exactly the value it reinterprets as. */
  lemma FromPatternRoundTrip(k: IntKind, p: nat)
    requires p < Modulus(k)
    ensures Pattern(k, FromPattern(k, p)) == p
  {
    var n := FromPattern(k, p);
    if n < 0 {
      ModOfNegative(n, Modulus(k));
    } else {
      ModOfSmall(n, Modulus(k));
    }
  }

  lemma ModOfSmall(n: int, m: int)
    requires 0 <= n < m
    ensures n % m == n
  {
  }

  lemma ModOfNegative(n: int, m: int)
    requires -m <= n < 0
    ensures n % m == n + m
  {
    assert n == -1 * m + (n + m);
  }

  /** The single-value types a `Shape` can name. */
  datatype ScalarKind =
    | IntegerKind(width: IntKind)
    | FloatKind
    | DoubleKind
    | BoolKind
    | StringKind
    | UuidKind
    | DateKind
    | VarIntKind
      /**
       * A type whose own `encode(to:)` and `init(from:)` hand the single-value
       * container a type that is on none of its lists.
       */
    | ForeignKind

  /**
   * A run-time value.  `Float` and `Double` carry their `bitPattern`,
   * `Text` the UTF-8 bytes of a `String`, `Uuid` its 16 bytes, `Date` the
   * `bitPattern` of its `timeIntervalSinceReferenceDate`.  `Optional` is a Swift `Optional`; as a record field it is
   * a property of optional type.  `Nullable` is the property wrapper of
   * Nullable.swift.  A dictionary lists its entries in iteration order.
   */
  datatype Value =
    | Integer(kind: IntKind, n: int)
    | Float(bits: nat)
    | Double(bits: nat)
    | Bool(b: bool)
    | Text(utf8: seq<byte>)
    | Uuid(uuid: Foundation.UuidBytes)
    | Date(interval: nat)
    | Var(count: nat)
    | Foreign
    | Optional(o: Option<Value>)
    | Nullable(o: Option<Value>)
    | Array(elements: seq<Value>)
    | Dictionary(entries: seq<(Value, Value)>)
    | Record(fields: seq<Value>)

  /**
   * A static `Decodable` type.  `PairOf` is the decoder's private
   * `Pair<Key, Value>` struct, which it reads dictionary entries as.
   */
  datatype Shape =
    | Scalar(kind: ScalarKind)
    | OptionalOf(wrapped: Shape)
    | NullableOf(wrapped: Shape)
    | ArrayOf(element: Shape)
    | DictionaryOf(key: Shape, value: Shape)
    | RecordOf(fields: seq<Shape>)
    | PairOf(key: Shape, value: Shape)

  /** A measure on shapes that every decoding step into a component lowers. */
  function Size(s: Shape): (n: nat)
    ensures n >= 1
    ensures s.RecordOf? ==> forall i | 0 <= i < |s.fields| :: Size(s.fields[i]) < n
  {
    match s
    case Scalar(_) => 1
    case OptionalOf(w) => 1 + Size(w)
    case NullableOf(w) => 1 + Size(w)
    case ArrayOf(e) => 1 + Size(e)
    case DictionaryOf(k, v) => 2 + Size(k) + Size(v)
    case RecordOf(fs) => 1 + SizeAll(fs)
    case PairOf(k, v) => 1 + Size(k) + Size(v)
  }

  function SizeAll(fs: seq<Shape>): (n: nat)
    ensures forall i | 0 <= i < |fs| :: Size(fs[i]) <= n
  {
    if fs == [] then 0 else Size(fs[0]) + SizeAll(fs[1..])
  }

  predicate ScalarHasKind(v: Value, k: ScalarKind)
  {
    match k
    case IntegerKind(ik) => v.Integer? && v.kind == ik
    case FloatKind => v.Float?
    case DoubleKind => v.Double?
    case BoolKind => v.Bool?
    case StringKind => v.Text?
    case UuidKind => v.Uuid?
    case DateKind => v.Date?
    case VarIntKind => v.Var?
    case ForeignKind => v.Foreign?
  }

  /** `v` is a value of the static type `s`. */
  predicate HasShape(v: Value, s: Shape)
    decreases v
  {
    match s
    case Scalar(k) => ScalarHasKind(v, k)
    case OptionalOf(w) => v.Optional? && (v.o.Some? ==> HasShape(v.o.value, w))
    case NullableOf(w) => v.Nullable? && (v.o.Some? ==> HasShape(v.o.value, w))
    case ArrayOf(e) =>
      v.Array? && forall i | 0 <= i < |v.elements| :: HasShape(v.elements[i], e)
    case DictionaryOf(ks, vs) =>
      v.Dictionary? &&
      forall i | 0 <= i < |v.entries| :: HasShape(v.entries[i].0, ks) && HasShape(v.entries[i].1, vs)
    case RecordOf(fs) =>
      v.Record? && |v.fields| == |fs| &&
      forall i | 0 <= i < |fs| :: HasShape(v.fields[i], fs[i])
    case PairOf(ks, vs) =>
      v.Record? && |v.fields| == 2 && HasShape(v.fields[0], ks) && HasShape(v.fields[1], vs)
  }

  /** No key occurs twice, as in every Swift `Dictionary`. */
  predicate DistinctKeys(entries: seq<(Value, Value)>)
  {
    forall i, j | 0 <= i < j < |entries| :: entries[i].0 != entries[j].0
  }

  /**
   * What every Swift value satisfies by construction: integers within
   * their type, 32- and 64-bit patterns, valid UTF-8, collection sizes that fit in an `Int`, distinct dictionary keys.
   */
  predicate WellFormed(v: Value)
    decreases v
  {
    match v
    case Integer(k, n) => InRange(k, n)
    case Float(bits) => bits < 0x1_0000_0000
    case Double(bits) => bits < UInt64Limit
    case Bool(_) => true
    case Text(u) => Utf8.Valid(u) && |u| <= IntMax
    case Uuid(_) => true
    case Date(interval) => interval < UInt64Limit
    case Var(n) => n < UInt64Limit
    case Foreign => true
    case Optional(o) => o.Some? ==> WellFormed(o.value)
    case Nullable(o) => o.Some? ==> WellFormed(o.value)
    case Array(es) => |es| <= IntMax && forall i | 0 <= i < |es| :: WellFormed(es[i])
    case Dictionary(ps) =>
      |ps| <= IntMax && DistinctKeys(ps) &&
      forall i | 0 <= i < |ps| :: WellFormed(ps[i].0) && WellFormed(ps[i].1)
    case Record(fs) => forall i | 0 <= i < |fs| :: WellFormed(fs[i])
  }

  /**
   * What an `as` cast from `Any` sees: a present `Optional` is looked
   * through, however deeply nested, so that `[Int8]??` is an array and an
   * `Optional` holding a dictionary is a dictionary.
   */
  function LookThrough(v: Value): (r: Value)
    ensures r == v || r < v
    ensures !r.Optional? || r.o.None?
    ensures !(v.Optional? && v.o.Some?) ==> r == v
  {
    if v.Optional? && v.o.Some? then LookThrough(v.o.value) else v
  }

  lemma {:induction false} LookThroughWellFormed(v: Value)
    requires WellFormed(v)
    ensures WellFormed(LookThrough(v))
  {
    if v.Optional? && v.o.Some? {
      LookThroughWellFormed(v.o.value);
    }
  }

  /**
   * The single value a scalar's own `encode(to:)` hands to its container:
   * a `UUID` its `uuidString`, a `Date` its `timeIntervalSinceReferenceDate`,
   * every other scalar itself.
   */
  function Handed(v: Value): (r: Value)
    ensures !r.Uuid? && !r.Date?
    ensures v.Uuid? ==> r == Text(Foundation.UuidString(v.uuid))
    ensures v.Uuid? ==> Foundation.ParseUuid(r.utf8) == Some(v.uuid)
    ensures v.Date? ==> r == Double(v.interval)
    ensures !v.Uuid? && !v.Date? ==> r == v
  {
    match v
    case Uuid(u) => Foundation.UuidStringRoundTrip(u); Text(Foundation.UuidString(u))
    case Date(interval) => Double(interval)
    case _ => v
  }

  lemma HandedWellFormed(v: Value)
    requires WellFormed(v)
    ensures WellFormed(Handed(v))
  {
    if v.Uuid? {
      Foundation.UuidStringIsAscii(v.uuid);
      Utf8.AsciiIsValid(Foundation.UuidString(v.uuid));
    }
  }
}
