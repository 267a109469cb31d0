/**
 * `HardpackDecoder` (HardpackDecoder.swift): a cursor over the input bytes
 * that every read advances.  The static type asked for (a `Shape`) decides
 * every step: scalars are read by the single-value container, arrays and
 * dictionaries through an unkeyed container that reads a `VarInt` count,
 * records field by field through a keyed container that ignores its keys.
 *
 * The functions say what each read returns and where it leaves the cursor;
 * the `Decoder` and `UnkeyedContainer` classes are the decoder itself, each
 * method proved to do what its function says.
 *
 * `AtEndRule` says what `UnkeyedContainer.isAtEnd` starts as: `false`, as
 * written, or whether the count is zero, as intended (see `Findings` in
 * the README).
 */
module HardpackDecoder {
  import opened Wire
  import opened Values
  import VarInt
  import Utf8
  import Foundation

  datatype AtEndRule = StartsFalse | StartsAtCount

  /** The initial `isAtEnd` of an unkeyed container holding `count` elements. */
  function StartsAtEnd(rule: AtEndRule, count: nat): bool
  {
    if rule.StartsFalse? then false else count == 0
  }

  /** What a caller of a decoding step sees: the value, or the error. */
  function Outcome<T>(r: Result<Decoded<T>>): Result<T>
  {
    if r.Ok? then Ok(r.value.value) else Err(r.error)
  }

  // ---------------------------------------------------------------------
  // The single-value container
  // ---------------------------------------------------------------------

  /**
   * `decodeInteger(_:)`: `Width(k)` bytes, little-endian, reinterpreted as
   * a value of type `k`; too few bytes left is `UnexpectedEndOfData`.
   * What it consumes is exactly what `encodeInteger` writes for the value.
   */
  function ReadInteger(data: seq<byte>, off: nat, k: IntKind): (r: Result<Decoded<int>>)
    requires off <= |data|
    ensures r.Ok? <==> off + Width(k) <= |data|
    ensures r.Err? ==> r.error == UnexpectedEndOfData
    ensures r.Ok? ==> r.value.next == off + Width(k) && InRange(k, r.value.value)
  {
    if off + Width(k) > |data| then Err(UnexpectedEndOfData)
    else
      var bytes := data[off..off + Width(k)];
      ModulusIsPow2(k);
      Ok(Decoded(FromPattern(k, FromLittleEndian(bytes)), off + Width(k)))
  }

  /** What `decodeInteger` consumes is exactly what `encodeInteger` writes for the value it returns. */
  lemma ReadIntegerBytes(data: seq<byte>, off: nat, k: IntKind)
    requires off <= |data| && ReadInteger(data, off, k).Ok?
    ensures data[off..ReadInteger(data, off, k).value.next]
         == LittleEndian(Pattern(k, ReadInteger(data, off, k).value.value), Width(k))
  {
    var bytes := data[off..off + Width(k)];
    ModulusIsPow2(k);
    FromPatternRoundTrip(k, FromLittleEndian(bytes));
    FromLittleEndianRoundTrip(bytes);
  }

  /**
   * `decodeVarInt()`: the bytes up to the first one with bit 7 clear;
   * ten that all continue is `VarIntTooLong`, running out of input is
   * `UnexpectedEndOfData`.
   */
  function ReadVarInt(data: seq<byte>, off: nat): (r: Result<Decoded<nat>>)
    requires off <= |data|
    ensures r.Ok? ==> off < r.value.next <= |data| && r.value.next <= off + 10 && r.value.value < UInt64Limit
    ensures r.Err? ==> r.error == VarIntTooLong || r.error == UnexpectedEndOfData
    ensures r.Ok? <==> VarInt.Read(data[off..]).Done?
  {
    match VarInt.Read(data[off..])
    case Done(v, n) => Ok(Decoded(v, off + n))
    case TooLong => Err(VarIntTooLong)
    case Truncated => Err(UnexpectedEndOfData)
  }

  /**
   * `decodeString()`: a `VarInt` byte count, then that many bytes of UTF-8.
   * Converting the count to `Int` and adding it to the offset trap on
   * overflow; too few bytes left is `UnexpectedEndOfData`; bytes that are
   * not UTF-8 are `InvalidUtf8`.
   */
  function ReadString(data: seq<byte>, off: nat): (r: Result<Decoded<seq<byte>>>)
    requires off <= |data|
    ensures r.Ok? ==> off < r.value.next <= |data|
  {
    match ReadVarInt(data, off)
    case Err(e) => Err(e)
    case Ok(Decoded(n, p)) =>
      if n > IntMax || p + n > IntMax then Err(Trap)
      else if p + n > |data| then Err(UnexpectedEndOfData)
      else if !Utf8.Valid(data[p..p + n]) then Err(InvalidUtf8)
      else Ok(Decoded(data[p..p + n], p + n))
  }

  /**
   * A string `decodeString` returns is valid UTF-8, no longer than `Int.max`,
   * and is exactly the bytes after its length.
   */
  lemma ReadStringValid(data: seq<byte>, off: nat)
    requires off <= |data| && ReadString(data, off).Ok?
    ensures Utf8.Valid(ReadString(data, off).value.value)
    ensures |ReadString(data, off).value.value| <= IntMax
    ensures ReadVarInt(data, off).Ok? && ReadVarInt(data, off).value.value == |ReadString(data, off).value.value|
    ensures data[ReadVarInt(data, off).value.next..ReadString(data, off).value.next] == ReadString(data, off).value.value
  {
  }

  /** `decodeUUID()`: the next 16 bytes as they stand. */
  function ReadUuid(data: seq<byte>, off: nat): (r: Result<Decoded<Foundation.UuidBytes>>)
    requires off <= |data|
    ensures r.Ok? <==> off + 16 <= |data|
    ensures r.Err? ==> r.error == UnexpectedEndOfData
    ensures r.Ok? ==> r.value.next == off + 16 && r.value.value == data[off..off + 16]
  {
    if off + 16 > |data| then Err(UnexpectedEndOfData)
    else
      var u: Foundation.UuidBytes := data[off..off + 16];
      Ok(Decoded(u, off + 16))
  }

  /**
   * The `switch` of `SingleValueContainer.decode(_:)`: `Float` and `Double`
   * from the bit patterns `decodeInteger` reads as `UInt32` and `UInt64`, a
   * `UUID` from 16 bytes, a `Date` from whole milliseconds since 1970 read
   * as a `UInt64` and converted in `Double` arithmetic, a `Bool` from one
   * byte that is true unless it is zero.  `Int`, `UInt` and types on no list are
   * `Unsupported`.
   */
  function ReadScalar(data: seq<byte>, off: nat, k: ScalarKind): (r: Result<Decoded<Value>>)
    requires off <= |data|
    ensures r.Ok? ==> off < r.value.next <= |data| && ScalarHasKind(r.value.value, k)
    ensures k.ForeignKind? || (k.IntegerKind? && (k.width.Int? || k.width.UInt?)) ==> r == Err(Unsupported)
  {
    match k
    case FloatKind =>
      (match ReadInteger(data, off, UInt32)
       case Err(e) => Err(e)
       case Ok(Decoded(n, p)) => Ok(Decoded(Float(n), p)))
    case DoubleKind =>
      (match ReadInteger(data, off, UInt64)
       case Err(e) => Err(e)
       case Ok(Decoded(n, p)) => Ok(Decoded(Double(n), p)))
    case StringKind =>
      (match ReadString(data, off)
       case Err(e) => Err(e)
       case Ok(Decoded(u, p)) => Ok(Decoded(Text(u), p)))
    case DateKind =>
      (match ReadInteger(data, off, UInt64)
       case Err(e) => Err(e)
       case Ok(Decoded(n, p)) => Ok(Decoded(Date(Foundation.FromMillisSince1970(n)), p)))
    case BoolKind =>
      (match ReadInteger(data, off, UInt8)
       case Err(e) => Err(e)
       case Ok(Decoded(n, p)) => Ok(Decoded(Bool(n != 0), p)))
    case UuidKind =>
      (match ReadUuid(data, off)
       case Err(e) => Err(e)
       case Ok(Decoded(u, p)) => Ok(Decoded(Uuid(u), p)))
    case VarIntKind =>
      (match ReadVarInt(data, off)
       case Err(e) => Err(e)
       case Ok(Decoded(n, p)) => Ok(Decoded(Var(n), p)))
    case IntegerKind(ik) =>
      if ik.Int? || ik.UInt? then Err(Unsupported)
      else
        (match ReadInteger(data, off, ik)
         case Err(e) => Err(e)
         case Ok(Decoded(n, p)) => Ok(Decoded(Integer(ik, n), p)))
    case ForeignKind => Err(Unsupported)
  }
  /**
   * `decodeBool()` is lenient: any nonzero byte is `true`, and only 0x00 is
   * `false`; with no byte left it is unexpected end of data.
   */
  lemma LenientBool(data: seq<byte>, off: nat)
    requires off <= |data|
    ensures off < |data| ==> ReadScalar(data, off, BoolKind) == Ok(Decoded(Bool(data[off] != 0), off + 1))
    ensures off == |data| ==> ReadScalar(data, off, BoolKind) == Err(UnexpectedEndOfData)
  {
    if off < |data| {
      assert data[off..off + 1] == [data[off]];
    }
  }


  /**
   * A scalar's own `init(from:)`.  `UUID` decodes a `String` and parses
   * it, throwing `InvalidUuid` when it is not a UUID; `Date` decodes a
   * `Double`, its `timeIntervalSinceReferenceDate`.  Every other scalar
   * asks the single-value container for itself.
   */
  function ReadOwnScalar(data: seq<byte>, off: nat, k: ScalarKind): (r: Result<Decoded<Value>>)
    requires off <= |data|
    ensures r.Ok? ==> off < r.value.next <= |data| && ScalarHasKind(r.value.value, k)
    ensures !k.UuidKind? && !k.DateKind? ==> r == ReadScalar(data, off, k)
    ensures k.UuidKind? && r.Ok? ==>
              ReadString(data, off).Ok? && Foundation.ParseUuid(ReadString(data, off).value.value) == Some(r.value.value.uuid)
    ensures k.DateKind? ==> r.Ok? == ReadInteger(data, off, UInt64).Ok?
  {
    if k.UuidKind? then
      match ReadScalar(data, off, StringKind)
      case Err(e) => Err(e)
      case Ok(Decoded(text, p)) =>
        (match Foundation.ParseUuid(text.utf8)
         case None => Err(InvalidUuid)
         case Some(u) => Ok(Decoded(Uuid(u), p)))
    else if k.DateKind? then
      match ReadScalar(data, off, DoubleKind)
      case Err(e) => Err(e)
      case Ok(Decoded(x, p)) => Ok(Decoded(Date(x.bits), p))
    else ReadScalar(data, off, k)
  }

  /**
   * `_HardpackDecoder.decodeNil()`, and the keyed container's
   * `decodeNil(forKey:)`, which is the same code: a tag above 1 throws
   * `CorruptedOptional` without consuming it, 0 is absent, 1 present.
   * There is no bounds check: reading past the end traps.
   */
  function ReadNil(data: seq<byte>, off: nat): (r: Result<Decoded<bool>>)
    requires off <= |data|
    ensures off == |data| ==> r == Err(Trap)
    ensures off < |data| && data[off] > 1 ==> r == Err(CorruptedOptional)
    ensures off < |data| && data[off] <= 1 ==> r == Ok(Decoded(data[off] == 0, off + 1))
  {
    if off >= |data| then Err(Trap)
    else if data[off] > 1 then Err(CorruptedOptional)
    else Ok(Decoded(data[off] == 0, off + 1))
  }

  /**
   * The single-value (and unkeyed) container's `decodeNil()`: the same,
   * except that a thrown error becomes "absent" with nothing consumed.
   * The trap is not an error and is not caught.
   */
  function ReadNilLenient(data: seq<byte>, off: nat): (r: Result<Decoded<bool>>)
    requires off <= |data|
    ensures r.Err? <==> off == |data|
    ensures r.Err? ==> r.error == Trap
    ensures r.Ok? && r.value.next == off ==> r.value.value
    ensures r.Ok? ==> (if data[off] > 1 then r.value == Decoded(true, off) else r == ReadNil(data, off))
  {
    if off >= |data| then Err(Trap)
    else if data[off] > 1 then Ok(Decoded(true, off))
    else Ok(Decoded(data[off] == 0, off + 1))
  }

  /**
   * The count an unkeyed container reads when it is created: a `VarInt`
   * read under `try!` and converted to `Int`, so that a malformed or
   * oversized count traps.
   */
  function ReadCount(data: seq<byte>, off: nat): (r: Result<Decoded<nat>>)
    requires off <= |data|
    ensures r.Err? ==> r.error == Trap
    ensures r.Ok? <==> ReadVarInt(data, off).Ok? && ReadVarInt(data, off).value.value <= IntMax
    ensures r.Ok? ==> r == ReadVarInt(data, off)
  {
    match ReadVarInt(data, off)
    case Err(_) => Err(Trap)
    case Ok(Decoded(n, p)) => if n > IntMax then Err(Trap) else Ok(Decoded(n, p))
  }

  // ---------------------------------------------------------------------
  // Decoding a value of a static type
  // ---------------------------------------------------------------------

  /**
   * `_HardpackDecoder.decode(_:)`: a dictionary type goes to
   * `Dictionary.init(custom:)`, every other type to its own `init(from:)`.
   * Every successful decode consumes input only forwards and produces a
   * value of the type asked for.
   */
  function ReadValue(rule: AtEndRule, data: seq<byte>, s: Shape, off: nat): (r: Result<Decoded<Value>>)
    requires off <= |data|
    ensures r.Ok? ==> off <= r.value.next <= |data| && HasShape(r.value.value, s)
    decreases Size(s), 3, 0
  {
    if s.DictionaryOf? then ReadDictionary(rule, data, s.key, s.value, off) else ReadOwn(rule, data, s, off)
  }

  /**
   * `init(from:)` of the type `s`.  A scalar runs its own `init(from:)`
   * (`ReadOwnScalar`).  `Optional` (the standard library's) checks the tag with
   * the lenient `decodeNil()` and then asks the single-value container for
   * the payload, which only scalars pass.  `Nullable` checks the tag the
   * same way and then runs the payload type's own `init(from:)`.  An array
   * is `Array.init(from:)`; a record its synthesized `init(from:)`; the
   * private `Pair` its key, then its value.  The standard library's
   * `Dictionary.init(from:)`, which only a `Nullable` dictionary reaches,
   * is not part of this model.
   */
  function ReadOwn(rule: AtEndRule, data: seq<byte>, s: Shape, off: nat): (r: Result<Decoded<Value>>)
    requires off <= |data|
    ensures r.Ok? ==> off <= r.value.next <= |data| && HasShape(r.value.value, s)
    decreases Size(s), 2, 0
  {
    match s
    case Scalar(k) => ReadOwnScalar(data, off, k)
    case OptionalOf(w) => ReadOptional(data, w, off)
    case NullableOf(w) => ReadNullable(rule, data, w, off)
    case ArrayOf(e) =>
      (match ReadArray(rule, data, e, off)
       case Err(err) => Err(err)
       case Ok(Decoded(xs, p)) => Ok(Decoded(Array(xs), p)))
    case RecordOf(fs) =>
      (match ReadFields(rule, data, fs, 0, off)
       case Err(e) => Err(e)
       case Ok(Decoded(xs, p)) => Ok(Decoded(Record(xs), p)))
    case PairOf(ks, vs) =>
      (match ReadValue(rule, data, ks, off)
       case Err(e) => Err(e)
       case Ok(Decoded(key, p)) =>
         (match ReadValue(rule, data, vs, p)
          case Err(e) => Err(e)
          case Ok(Decoded(value, q)) => Ok(Decoded(Record([key, value]), q))))
    case DictionaryOf(_, _) => Err(Unsupported)
  }

  /**
   * `Optional.init(from:)`: the lenient tag, then the single-value
   * container's `decode(_:)` for the payload.
   */
  function ReadOptional(data: seq<byte>, w: Shape, off: nat): (r: Result<Decoded<Value>>)
    requires off <= |data|
    ensures r.Ok? ==> off <= r.value.next <= |data| && HasShape(r.value.value, OptionalOf(w))
    ensures r.Ok? && r.value.value.o.Some? ==> w.Scalar?
  {
    match ReadNilLenient(data, off)
    case Err(e) => Err(e)
    case Ok(Decoded(isNil, p)) =>
      if isNil then Ok(Decoded(Optional(None), p))
      else if !w.Scalar? then Err(Unsupported)
      else
        (match ReadScalar(data, p, w.kind)
         case Err(e) => Err(e)
         case Ok(Decoded(x, q)) => Ok(Decoded(Optional(Some(x)), q)))
  }

  /**
   * What `Optional.init(from:)` would have to do for a present payload to
   * be read the way `encode(_:)` writes it: the lenient tag, then the
   * payload type's own `decode(_:)`.  It stands beside `ReadOptional` (see
   * `Findings` in the README).
   */
  function ReadOptionalCorrected(rule: AtEndRule, data: seq<byte>, w: Shape, off: nat): (r: Result<Decoded<Value>>)
    requires off <= |data|
    ensures r.Ok? ==> off <= r.value.next <= |data| && HasShape(r.value.value, OptionalOf(w))
    ensures ReadNilLenient(data, off) == Ok(Decoded(true, off + 1)) ==> r == Ok(Decoded(Optional(None), off + 1))
    decreases Size(w), 3, 1
  {
    match ReadNilLenient(data, off)
    case Err(e) => Err(e)
    case Ok(Decoded(isNil, p)) =>
      if isNil then Ok(Decoded(Optional(None), p))
      else
        (match ReadValue(rule, data, w, p)
         case Err(e) => Err(e)
         case Ok(Decoded(x, q)) => Ok(Decoded(Optional(Some(x)), q)))
  }

  /** `Nullable.init(from:)` (Nullable.swift): the lenient tag, then `Wrapped.init(from:)`. */
  function ReadNullable(rule: AtEndRule, data: seq<byte>, w: Shape, off: nat): (r: Result<Decoded<Value>>)
    requires off <= |data|
    ensures r.Ok? ==> off <= r.value.next <= |data| && HasShape(r.value.value, NullableOf(w))
    decreases Size(w), 2, 1
  {
    match ReadNilLenient(data, off)
    case Err(e) => Err(e)
    case Ok(Decoded(isNil, p)) =>
      if isNil then Ok(Decoded(Nullable(None), p))
      else
        (match ReadOwn(rule, data, w, p)
         case Err(e) => Err(e)
         case Ok(Decoded(x, q)) => Ok(Decoded(Nullable(Some(x)), q)))
  }

  /**
   * `Array.init(from:)`: an unkeyed container, then `decode(_:)` until
   * `isAtEnd`.
   */
  function ReadArray(rule: AtEndRule, data: seq<byte>, e: Shape, off: nat): (r: Result<Decoded<seq<Value>>>)
    requires off <= |data|
    ensures r.Ok? ==> off < r.value.next <= |data| && |r.value.value| <= IntMax
    ensures r.Ok? ==> forall i | 0 <= i < |r.value.value| :: HasShape(r.value.value[i], e)
    ensures rule.StartsFalse? && r.Ok? ==> r.value.value != []
    decreases 1 + Size(e), 1, |data| + 1
  {
    match ReadCount(data, off)
    case Err(err) => Err(err)
    case Ok(Decoded(n, p)) => ReadElements(rule, data, e, n, 0, StartsAtEnd(rule, n), p)
  }

  /**
   * The loop of `Array.init(from:)` from the element numbered `index`:
   * each `decode(_:)` first counts the element and sets `isAtEnd` to
   * whether the count is reached, then decodes it.  Once past the count
   * `isAtEnd` never becomes true, and the loop runs until a decode throws;
   * an element that then consumes nothing would repeat forever, which is
   * `NoProgress`.
   */
  function ReadElements(rule: AtEndRule, data: seq<byte>, e: Shape, count: nat, index: nat, atEnd: bool, off: nat)
    : (r: Result<Decoded<seq<Value>>>)
    requires off <= |data|
    requires atEnd ==> index == count
    ensures r.Ok? ==> off <= r.value.next <= |data|
    ensures r.Ok? ==> forall i | 0 <= i < |r.value.value| :: HasShape(r.value.value[i], e)
    ensures r.Ok? ==> index <= count && |r.value.value| == count - index
    ensures !atEnd && index >= count ==> r.Err?
    decreases 1 + Size(e), 0, (if index < count then count - index else 0) + (|data| - off)
  {
    if atEnd then Ok(Decoded([], off))
    else
      match ReadValue(rule, data, e, off)
      case Err(err) => Err(err)
      case Ok(Decoded(x, p)) =>
        if index + 1 > count && p == off then Err(NoProgress)
        else
          (match ReadElements(rule, data, e, count, index + 1, index + 1 == count, p)
           case Err(err) => Err(err)
           case Ok(Decoded(xs, q)) => Ok(Decoded([x] + xs, q)))
  }

  /**
   * A synthesized `init(from:)`: one keyed `decode` per stored property,
   * in declaration order; the keys themselves are never looked at.
   */
  function ReadFields(rule: AtEndRule, data: seq<byte>, fs: seq<Shape>, i: nat, off: nat)
    : (r: Result<Decoded<seq<Value>>>)
    requires i <= |fs| && off <= |data|
    ensures r.Ok? ==> off <= r.value.next <= |data| && |r.value.value| == |fs| - i
    ensures r.Ok? ==> forall j | 0 <= j < |r.value.value| :: HasShape(r.value.value[j], fs[i + j])
    decreases Size(RecordOf(fs)), 1, |fs| - i
  {
    if i == |fs| then Ok(Decoded([], off))
    else
      match ReadField(rule, data, fs[i], off)
      case Err(e) => Err(e)
      case Ok(Decoded(x, p)) =>
        (match ReadFields(rule, data, fs, i + 1, p)
         case Err(e) => Err(e)
         case Ok(Decoded(xs, q)) => Ok(Decoded([x] + xs, q)))
  }

  /**
   * One stored property: `decode(_:forKey:)`, which is `decode(_:)`, or
   * for a property of optional type `decodeIfPresent(_:forKey:)`, which
   * reads the tag with the strict `decodeNil(forKey:)` and then decodes
   * the payload type with `decode(_:forKey:)`.
   */
  function ReadField(rule: AtEndRule, data: seq<byte>, s: Shape, off: nat): (r: Result<Decoded<Value>>)
    requires off <= |data|
    ensures r.Ok? ==> off <= r.value.next <= |data| && HasShape(r.value.value, s)
    decreases Size(s), 4, 0
  {
    if s.OptionalOf? then
      match ReadNil(data, off)
      case Err(e) => Err(e)
      case Ok(Decoded(isNil, p)) =>
        if isNil then Ok(Decoded(Optional(None), p))
        else
          (match ReadValue(rule, data, s.wrapped, p)
           case Err(e) => Err(e)
           case Ok(Decoded(x, q)) => Ok(Decoded(Optional(Some(x)), q)))
    else ReadValue(rule, data, s, off)
  }

  /** The entries that a list of decoded `Pair` records stands for. */
  function Entries(pairs: seq<Value>): (entries: seq<(Value, Value)>)
    requires forall i | 0 <= i < |pairs| :: pairs[i].Record? && |pairs[i].fields| == 2
    ensures |entries| == |pairs|
    ensures forall i | 0 <= i < |pairs| :: entries[i] == (pairs[i].fields[0], pairs[i].fields[1])
  {
    seq(|pairs|, i requires 0 <= i < |pairs| => (pairs[i].fields[0], pairs[i].fields[1]))
  }

  /**
   * `Dictionary.init(custom:)`: an array of `Pair` records, then
   * `init(uniqueKeysWithValues:)`, which traps on a repeated key.
   */
  function ReadDictionary(rule: AtEndRule, data: seq<byte>, ks: Shape, vs: Shape, off: nat): (r: Result<Decoded<Value>>)
    requires off <= |data|
    ensures r.Ok? ==> off <= r.value.next <= |data|
    ensures r.Ok? ==> HasShape(r.value.value, DictionaryOf(ks, vs))
    ensures r.Ok? ==> DistinctKeys(r.value.value.entries)
    ensures var a := ReadArray(rule, data, PairOf(ks, vs), off);
            a.Ok? && !DistinctKeys(Entries(a.value.value)) ==> r == Err(Trap)
    decreases Size(DictionaryOf(ks, vs)), 2, 0
  {
    match ReadArray(rule, data, PairOf(ks, vs), off)
    case Err(e) => Err(e)
    case Ok(Decoded(pairs, p)) =>
      var entries := Entries(pairs);
      if !DistinctKeys(entries) then Err(Trap) else Ok(Decoded(Dictionary(entries), p))
  }

  // ---------------------------------------------------------------------
  // The decoder
  // ---------------------------------------------------------------------

  /** Where the cursor stands after a read: past the value, or where it was if the read threw. */
  function Next<T>(r: Result<Decoded<T>>, off: nat): nat
  {
    if r.Ok? then r.value.next else off
  }

  /** The outcome of a loop that has already gathered `xs` and whose remaining steps yield `r`. */
  function Prepend(xs: seq<Value>, r: Result<Decoded<seq<Value>>>): Result<Decoded<seq<Value>>>
  {
    if r.Ok? then Ok(Decoded(xs + r.value.value, r.value.next)) else r
  }

  lemma PrependNothing(r: Result<Decoded<seq<Value>>>)
    ensures Prepend([], r) == r
  {
    if r.Ok? {
      assert [] + r.value.value == r.value.value;
    }
  }

  /** Gathering `x` moves it from the remaining steps to what the loop has. */
  lemma PrependStep(xs: seq<Value>, x: Value, r: Result<Decoded<seq<Value>>>)
    ensures Prepend(xs, Prepend([x], r)) == Prepend(xs + [x], r)
  {
    if r.Ok? {
      assert xs + ([x] + r.value.value) == xs + [x] + r.value.value;
    }
  }

  /**
   * One step of the loop of `Array.init(from:)`, read off `ReadElements`:
   * `x` is what decoding the element at `off` gave, `p` where it stopped.
   */
  lemma ReadElementsStep(rule: AtEndRule, data: seq<byte>, e: Shape, count: nat, index: nat, off: nat, x: Result<Value>, p: nat)
    requires off <= p <= |data|
    requires x == Outcome(ReadValue(rule, data, e, off)) && (x.Ok? ==> p == ReadValue(rule, data, e, off).value.next)
    ensures x.Err? ==> ReadElements(rule, data, e, count, index, false, off) == Err(x.error)
    ensures x.Ok? && index + 1 > count && p == off ==> ReadElements(rule, data, e, count, index, false, off) == Err(NoProgress)
    ensures x.Ok? && !(index + 1 > count && p == off) ==>
              ReadElements(rule, data, e, count, index, false, off)
              == Prepend([x.value], ReadElements(rule, data, e, count, index + 1, index + 1 == count, p))
  {
  }

  /**
   * `_HardpackDecoder` with its single-value and keyed containers, which
   * read through its cursor.  `rule` says what a new unkeyed container's
   * `isAtEnd` is.
   */
  class Decoder {
    const data: seq<byte>
    const rule: AtEndRule
    var offset: nat

    predicate Valid()
      reads this
    {
      offset <= |data|
    }

    constructor (data: seq<byte>, rule: AtEndRule)
      ensures this.data == data && this.rule == rule && offset == 0 && Valid()
    {
      this.data := data;
      this.rule := rule;
      offset := 0;
    }

    /** `decodeNil()`, and the keyed container's `decodeNil(forKey:)`, which is the same code. */
    method DecodeNil() returns (r: Result<bool>)
      requires Valid()
      modifies this
      ensures Valid()
      ensures r == Outcome(ReadNil(data, old(offset)))
      ensures offset == Next(ReadNil(data, old(offset)), old(offset))
    {
      if offset >= |data| {
        return Err(Trap);
      }
      var currentByte := data[offset];
      if currentByte > 1 {
        return Err(CorruptedOptional);
      }
      offset := offset + 1;
      return Ok(currentByte == 0);
    }

    /** The single-value container's `decodeNil()`: `try?` turns a thrown error into "absent". */
    method DecodeNilLenient() returns (r: Result<bool>)
      requires Valid()
      modifies this
      ensures Valid()
      ensures r == Outcome(ReadNilLenient(data, old(offset)))
      ensures offset == Next(ReadNilLenient(data, old(offset)), old(offset))
    {
      r := DecodeNil();
      if r.Err? && r.error != Trap {
        r := Ok(true);
      }
    }

    /** `decodeInteger(_:)`: the bounds check, then `Width(k)` bytes little-endian. */
    method DecodeInteger(k: IntKind) returns (r: Result<int>)
      requires Valid()
      modifies this
      ensures Valid()
      ensures r == Outcome(ReadInteger(data, old(offset), k))
      ensures offset == Next(ReadInteger(data, old(offset), k), old(offset))
    {
      var size := Width(k);
      if offset + size > |data| {
        return Err(UnexpectedEndOfData);
      }
      var bytes := data[offset..offset + size];
      ModulusIsPow2(k);
      var value := FromPattern(k, FromLittleEndian(bytes));
      offset := offset + size;
      return Ok(value);
    }

    /**
     * `decodeVarInt()`: the cursor moves past every byte read, including
     * the ten of a `VarInt` that is too long and all that is left of one
     * that is cut short.
     */
    method DecodeVarInt() returns (r: Result<nat>)
      requires Valid()
      modifies this
      ensures Valid()
      ensures r == Outcome(ReadVarInt(data, old(offset)))
      ensures offset == match VarInt.Read(data[old(offset)..])
                        case Done(_, n) => old(offset) + n
                        case TooLong => old(offset) + 10
                        case Truncated => |data|
    {
      ghost var s := data[offset..];
      var result := 0;
      var shift := 0;
      var bytesRead := 0;
      while offset < |data|
        invariant old(offset) <= offset <= |data| && bytesRead == offset - old(offset) && bytesRead < 10
        invariant s == data[old(offset)..]
        invariant shift == 7 * bytesRead
        invariant result == VarInt.Groups(s[..bytesRead]) % UInt64Limit
        invariant forall j :: 0 <= j < bytesRead ==> s[j] >= 0x80
      {
        var currentByte := data[offset];
        assert currentByte == s[bytesRead];
        offset := offset + 1;
        VarInt.AccumulateStep(s[..bytesRead], currentByte);
        assert s[..bytesRead + 1] == s[..bytesRead] + [currentByte];
        bytesRead := bytesRead + 1;
        result := result + ShiftLeft(currentByte % 0x80, shift);
        shift := shift + 7;
        if currentByte < 0x80 {
          VarInt.TerminatorFromAt(s, 0, bytesRead - 1);
          return Ok(result);
        }
        if bytesRead >= 10 {
          VarInt.ReadOutcomes(s);
          return Err(VarIntTooLong);
        }
      }
      VarInt.ReadOutcomes(s);
      return Err(UnexpectedEndOfData);
    }

    /**
     * `decodeString()`: the length, then the bytes.  The cursor moves past
     * them before they are checked to be UTF-8.
     */
    method DecodeString() returns (r: Result<seq<byte>>)
      requires Valid()
      modifies this
      ensures Valid() && old(offset) <= offset
      ensures r == Outcome(ReadString(data, old(offset)))
      ensures r.Ok? ==> offset == ReadString(data, old(offset)).value.next
      ensures r == Err(InvalidUtf8) ==>
                ReadVarInt(data, old(offset)).Ok? && offset == ReadVarInt(data, old(offset)).value.next + ReadVarInt(data, old(offset)).value.value
    {
      var varLength := DecodeVarInt();
      if varLength.Err? {
        return Err(varLength.error);
      }
      var length := varLength.value;
      if length > IntMax || offset + length > IntMax {
        return Err(Trap);
      }
      if offset + length > |data| {
        return Err(UnexpectedEndOfData);
      }
      var stringData := data[offset..offset + length];
      offset := offset + length;
      if !Utf8.Valid(stringData) {
        return Err(InvalidUtf8);
      }
      return Ok(stringData);
    }

    /** `decodeUUID()`: the next 16 bytes, if there are 16. */
    method DecodeUuid() returns (r: Result<Foundation.UuidBytes>)
      requires Valid()
      modifies this
      ensures Valid()
      ensures r == Outcome(ReadUuid(data, old(offset)))
      ensures offset == Next(ReadUuid(data, old(offset)), old(offset))
    {
      if offset + 16 > |data| {
        return Err(UnexpectedEndOfData);
      }
      var bytes: Foundation.UuidBytes := data[offset..offset + 16];
      offset := offset + 16;
      return Ok(bytes);
    }

    /**
     * The `switch` of `SingleValueContainer.decode(_:)`, with
     * `decodeFloat`, `decodeDouble`, `decodeDate` and `decodeBool`, which
     * all go through `decodeInteger`.
     */
    method DecodeScalar(k: ScalarKind) returns (r: Result<Value>)
      requires Valid()
      modifies this
      ensures Valid() && old(offset) <= offset
      ensures r == Outcome(ReadScalar(data, old(offset), k))
      ensures r.Ok? ==> offset == ReadScalar(data, old(offset), k).value.next
    {
      match k
      case FloatKind =>
        var n := DecodeInteger(UInt32);
        r := if n.Ok? then Ok(Float(n.value)) else Err(n.error);
      case DoubleKind =>
        var n := DecodeInteger(UInt64);
        r := if n.Ok? then Ok(Double(n.value)) else Err(n.error);
      case StringKind =>
        var u := DecodeString();
        r := if u.Ok? then Ok(Text(u.value)) else Err(u.error);
      case DateKind =>
        var n := DecodeInteger(UInt64);
        r := if n.Ok? then Ok(Date(Foundation.FromMillisSince1970(n.value))) else Err(n.error);
      case BoolKind =>
        var n := DecodeInteger(UInt8);
        r := if n.Ok? then Ok(Bool(n.value != 0)) else Err(n.error);
      case UuidKind =>
        var u := DecodeUuid();
        r := if u.Ok? then Ok(Uuid(u.value)) else Err(u.error);
      case VarIntKind =>
        var n := DecodeVarInt();
        r := if n.Ok? then Ok(Var(n.value)) else Err(n.error);
      case IntegerKind(ik) =>
        if ik.Int? || ik.UInt? {
          r := Err(Unsupported);
        } else {
          var n := DecodeInteger(ik);
          r := if n.Ok? then Ok(Integer(ik, n.value)) else Err(n.error);
        }
      case ForeignKind =>
        r := Err(Unsupported);
    }

    /** A scalar's own `init(from:)`: `UUID` and `Date` through a `String` and a `Double`. */
    method DecodeOwnScalar(k: ScalarKind) returns (r: Result<Value>)
      requires Valid()
      modifies this
      ensures Valid() && old(offset) <= offset
      ensures r == Outcome(ReadOwnScalar(data, old(offset), k))
      ensures r.Ok? ==> offset == ReadOwnScalar(data, old(offset), k).value.next
    {
      if k.UuidKind? {
        var text := DecodeScalar(StringKind);
        if text.Err? {
          return Err(text.error);
        }
        var uuid := Foundation.ParseUuid(text.value.utf8);
        if uuid.None? {
          return Err(InvalidUuid);
        }
        r := Ok(Uuid(uuid.value));
      } else if k.DateKind? {
        var x := DecodeScalar(DoubleKind);
        r := if x.Ok? then Ok(Date(x.value.bits)) else Err(x.error);
      } else {
        r := DecodeScalar(k);
      }
    }

    /** `decode(_:)`: a dictionary type goes to `Dictionary.init(custom:)`, any other to its own `init(from:)`. */
    method Decode(s: Shape) returns (r: Result<Value>)
      requires Valid()
      modifies this
      ensures Valid() && old(offset) <= offset
      ensures r == Outcome(ReadValue(rule, data, s, old(offset)))
      ensures r.Ok? ==> offset == ReadValue(rule, data, s, old(offset)).value.next
      decreases Size(s), 3, 0
    {
      if s.DictionaryOf? {
        r := DecodeDictionary(s.key, s.value);
      } else {
        r := DecodeOwn(s);
      }
    }

    /** `init(from:)` of the type `s`. */
    method DecodeOwn(s: Shape) returns (r: Result<Value>)
      requires Valid()
      modifies this
      ensures Valid() && old(offset) <= offset
      ensures r == Outcome(ReadOwn(rule, data, s, old(offset)))
      ensures r.Ok? ==> offset == ReadOwn(rule, data, s, old(offset)).value.next
      decreases Size(s), 2, 0
    {
      match s
      case Scalar(k) =>
        r := DecodeOwnScalar(k);
      case OptionalOf(w) =>
        r := DecodeOptional(w);
      case NullableOf(w) =>
        r := DecodeNullable(w);
      case ArrayOf(e) =>
        var xs := DecodeArray(e);
        r := if xs.Ok? then Ok(Array(xs.value)) else Err(xs.error);
      case RecordOf(fs) =>
        var xs := DecodeRecord(fs);
        r := if xs.Ok? then Ok(Record(xs.value)) else Err(xs.error);
      case PairOf(ks, vs) =>
        var key := Decode(ks);
        if key.Err? {
          return Err(key.error);
        }
        var value := Decode(vs);
        r := if value.Ok? then Ok(Record([key.value, value.value])) else Err(value.error);
      case DictionaryOf(_, _) =>
        r := Err(Unsupported);
    }

    /** `Optional.init(from:)`: the lenient tag, then the single-value container for the payload. */
    method DecodeOptional(w: Shape) returns (r: Result<Value>)
      requires Valid()
      modifies this
      ensures Valid() && old(offset) <= offset
      ensures r == Outcome(ReadOptional(data, w, old(offset)))
      ensures r.Ok? ==> offset == ReadOptional(data, w, old(offset)).value.next
    {
      var isNil := DecodeNilLenient();
      if isNil.Err? {
        return Err(isNil.error);
      }
      if isNil.value {
        return Ok(Optional(None));
      }
      if !w.Scalar? {
        return Err(Unsupported);
      }
      var x := DecodeScalar(w.kind);
      r := if x.Ok? then Ok(Optional(Some(x.value))) else Err(x.error);
    }

    /** `Nullable.init(from:)` (Nullable.swift): the lenient tag, then `Wrapped.init(from:)`. */
    method DecodeNullable(w: Shape) returns (r: Result<Value>)
      requires Valid()
      modifies this
      ensures Valid() && old(offset) <= offset
      ensures r == Outcome(ReadNullable(rule, data, w, old(offset)))
      ensures r.Ok? ==> offset == ReadNullable(rule, data, w, old(offset)).value.next
      decreases Size(w), 2, 1
    {
      var isNil := DecodeNilLenient();
      if isNil.Err? {
        return Err(isNil.error);
      }
      if isNil.value {
        return Ok(Nullable(None));
      }
      var x := DecodeOwn(w);
      r := if x.Ok? then Ok(Nullable(Some(x.value))) else Err(x.error);
    }

    /**
     * `unkeyedContainer()`: `UnkeyedContainer.init(decoder:)` reads the
     * count under `try!` and converts it to `Int`.
     */
    method Unkeyed() returns (r: Result<UnkeyedContainer>)
      requires Valid()
      modifies this
      ensures Valid() && old(offset) <= offset
      ensures r.Ok? <==> ReadCount(data, old(offset)).Ok?
      ensures r.Err? ==> r.error == Trap
      ensures r.Ok? ==> fresh(r.value) && r.value.decoder == this
      ensures r.Ok? ==> r.value.count == ReadCount(data, old(offset)).value.value && offset == ReadCount(data, old(offset)).value.next
      ensures r.Ok? ==> r.value.currentIndex == 0 && r.value.isAtEnd == StartsAtEnd(rule, r.value.count)
    {
      var varCount := DecodeVarInt();
      if varCount.Err? || varCount.value > IntMax {
        return Err(Trap);
      }
      var c := new UnkeyedContainer(this, varCount.value);
      return Ok(c);
    }

    /** `Array.init(from:)`: an unkeyed container, then its elements. */
    method DecodeArray(e: Shape) returns (r: Result<seq<Value>>)
      requires Valid()
      modifies this
      ensures Valid() && old(offset) <= offset
      ensures r == Outcome(ReadArray(rule, data, e, old(offset)))
      ensures r.Ok? ==> offset == ReadArray(rule, data, e, old(offset)).value.next
      decreases 1 + Size(e), 1, 0
    {
      var unkeyed := Unkeyed();
      if unkeyed.Err? {
        return Err(unkeyed.error);
      }
      r := DecodeElements(unkeyed.value, e);
    }

    /**
     * The loop of `Array.init(from:)`: `decode(_:)` on the unkeyed
     * container until `isAtEnd`.  Past the count `isAtEnd` stays false; a
     * step that then consumes nothing would repeat forever and is reported
     * as `NoProgress`.
     */
    method DecodeElements(container: UnkeyedContainer, e: Shape) returns (r: Result<seq<Value>>)
      requires Valid() && container.decoder == this
      requires container.isAtEnd ==> container.currentIndex == container.count
      modifies this, container
      ensures Valid() && old(offset) <= offset
      ensures r == Outcome(ReadElements(rule, data, e, container.count, old(container.currentIndex), old(container.isAtEnd), old(offset)))
      ensures r.Ok? ==> offset == ReadElements(rule, data, e, container.count, old(container.currentIndex), old(container.isAtEnd), old(offset)).value.next
      decreases 1 + Size(e), 0, 0
    {
      ghost var all := ReadElements(rule, data, e, container.count, container.currentIndex, container.isAtEnd, offset);
      var elements: seq<Value> := [];
      PrependNothing(all);
      while !container.isAtEnd
        invariant Valid() && old(offset) <= offset
        invariant container.isAtEnd ==> container.currentIndex == container.count
        invariant all == Prepend(elements, ReadElements(rule, data, e, container.count, container.currentIndex, container.isAtEnd, offset))
        decreases (if container.currentIndex < container.count then container.count - container.currentIndex else 0) + (|data| - offset)
      {
        var before := offset;
        ghost var index := container.currentIndex;
        var element := container.Decode(e);
        ReadElementsStep(rule, data, e, container.count, index, before, element, offset);
        if element.Err? {
          return Err(element.error);
        }
        if container.currentIndex > container.count && offset == before {
          return Err(NoProgress);
        }
        PrependStep(elements, element.value,
                    ReadElements(rule, data, e, container.count, container.currentIndex, container.isAtEnd, offset));
        elements := elements + [element.value];
      }
      assert elements + [] == elements;
      return Ok(elements);
    }

    /** A synthesized `init(from:)`: the stored properties in declaration order. */
    method DecodeRecord(fs: seq<Shape>) returns (r: Result<seq<Value>>)
      requires Valid()
      modifies this
      ensures Valid() && old(offset) <= offset
      ensures r == Outcome(ReadFields(rule, data, fs, 0, old(offset)))
      ensures r.Ok? ==> offset == ReadFields(rule, data, fs, 0, old(offset)).value.next
      decreases Size(RecordOf(fs)), 1, 0
    {
      var fields: seq<Value> := [];
      var i := 0;
      PrependNothing(ReadFields(rule, data, fs, 0, offset));
      while i < |fs|
        invariant i <= |fs| && Valid() && old(offset) <= offset
        invariant ReadFields(rule, data, fs, 0, old(offset)) == Prepend(fields, ReadFields(rule, data, fs, i, offset))
      {
        ghost var before := offset;
        var x := DecodeField(fs[i]);
        if x.Err? {
          return Err(x.error);
        }
        PrependStep(fields, x.value, ReadFields(rule, data, fs, i + 1, offset));
        fields := fields + [x.value];
        i := i + 1;
      }
      assert fields + [] == fields;
      return Ok(fields);
    }

    /**
     * One stored property: `decode(_:forKey:)`, or for a property of
     * optional type `decodeIfPresent(_:forKey:)`, which checks the tag with
     * the strict `decodeNil(forKey:)`.
     */
    method DecodeField(s: Shape) returns (r: Result<Value>)
      requires Valid()
      modifies this
      ensures Valid() && old(offset) <= offset
      ensures r == Outcome(ReadField(rule, data, s, old(offset)))
      ensures r.Ok? ==> offset == ReadField(rule, data, s, old(offset)).value.next
      decreases Size(s), 4, 0
    {
      if !s.OptionalOf? {
        r := Decode(s);
        return;
      }
      var isNil := DecodeNil();
      if isNil.Err? {
        return Err(isNil.error);
      }
      if isNil.value {
        return Ok(Optional(None));
      }
      var x := Decode(s.wrapped);
      r := if x.Ok? then Ok(Optional(Some(x.value))) else Err(x.error);
    }

    /** `Dictionary.init(custom:)`: an array of `Pair`, then `init(uniqueKeysWithValues:)`. */
    method DecodeDictionary(ks: Shape, vs: Shape) returns (r: Result<Value>)
      requires Valid()
      modifies this
      ensures Valid() && old(offset) <= offset
      ensures r == Outcome(ReadDictionary(rule, data, ks, vs, old(offset)))
      ensures r.Ok? ==> offset == ReadDictionary(rule, data, ks, vs, old(offset)).value.next
      decreases Size(DictionaryOf(ks, vs)), 2, 0
    {
      var pairs := DecodeArray(PairOf(ks, vs));
      if pairs.Err? {
        return Err(pairs.error);
      }
      var entries := Entries(pairs.value);
      if !DistinctKeys(entries) {
        return Err(Trap);
      }
      return Ok(Dictionary(entries));
    }
  }

  /** `UnkeyedContainer`: the element count, the index of the next element and `isAtEnd`. */
  class UnkeyedContainer {
    const decoder: Decoder
    const count: nat
    var isAtEnd: bool
    var currentIndex: nat

    constructor (decoder: Decoder, count: nat)
      ensures this.decoder == decoder && this.count == count
      ensures currentIndex == 0 && isAtEnd == StartsAtEnd(decoder.rule, count)
    {
      this.decoder := decoder;
      this.count := count;
      currentIndex := 0;
      isAtEnd := StartsAtEnd(decoder.rule, count);
    }

    /** `decode(_:)`: count the element and set `isAtEnd`, then decode it. */
    method Decode(s: Shape) returns (r: Result<Value>)
      requires decoder.Valid()
      modifies this, decoder
      ensures decoder.Valid() && old(decoder.offset) <= decoder.offset
      ensures currentIndex == old(currentIndex) + 1 && isAtEnd == (currentIndex == count)
      ensures r == Outcome(ReadValue(decoder.rule, decoder.data, s, old(decoder.offset)))
      ensures r.Ok? ==> decoder.offset == ReadValue(decoder.rule, decoder.data, s, old(decoder.offset)).value.next
      decreases Size(s), 4, 0
    {
      currentIndex := currentIndex + 1;
      isAtEnd := currentIndex == count;
      r := decoder.Decode(s);
    }
  }

  /** `HardpackDecoder.decode(_:from:)`: a fresh decoder at offset 0; bytes left over are not an error. */
  method DecodeValue(rule: AtEndRule, data: seq<byte>, s: Shape) returns (r: Result<Value>)
    ensures r == Outcome(ReadValue(rule, data, s, 0))
  {
    var decoder := new Decoder(data, rule);
    r := decoder.Decode(s);
  }
}
