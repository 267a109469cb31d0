/**
 * What `HardpackDecoder` reads back from what `HardpackEncoder` writes.
 *
 * A value decodes to itself, whatever bytes come before and after it,
 * when its static type is one the two sides agree on (`Codable`) and, with
 * the decoder as written, when it holds no empty array or dictionary.
 */
module RoundTrip {
  import opened Wire
  import opened Values
  import VarInt
  import Utf8
  import Foundation
  import opened HardpackEncoder
  import opened HardpackDecoder

  /** Scalar types both the encoder's and the decoder's `switch` list. */
  predicate Supported(k: ScalarKind)
  {
    !k.ForeignKind? && !(k.IntegerKind? && (k.width.Int? || k.width.UInt?))
  }

  /**
   * The static types whose encoding `decode(_:)` reads back.  Left out:
   * `Optional` of anything but a scalar (its `init(from:)` hands the
   * payload to the single-value container) and of a `UUID` or a `Date`
   * (written by their own `encode(to:)` as a string and a `Double`, read
   * by the container as 16 bytes and milliseconds), `Nullable` of an optional, a
   * nullable or a dictionary, and record properties of optional type
   * (written bare by `encodeIfPresent`, read with a tag by
   * `decodeIfPresent`).
   */
  predicate Codable(s: Shape)
  {
    match s
    case Scalar(k) => Supported(k)
    case OptionalOf(w) => w.Scalar? && Supported(w.kind) && !w.kind.UuidKind? && !w.kind.DateKind?
    case NullableOf(w) => (w.Scalar? || w.ArrayOf? || w.RecordOf?) && Codable(w)
    case ArrayOf(e) => Codable(e)
    case DictionaryOf(ks, vs) => Codable(ks) && Codable(vs)
    case RecordOf(fs) => forall i | 0 <= i < |fs| :: !fs[i].OptionalOf? && Codable(fs[i])
    case PairOf(_, _) => false
  }

  /** Every array and dictionary inside `v` has at least one element. */
  predicate Populated(v: Value)
  {
    match v
    case Optional(o) => o.Some? ==> Populated(o.value)
    case Nullable(o) => o.Some? ==> Populated(o.value)
    case Array(es) => |es| > 0 && forall i | 0 <= i < |es| :: Populated(es[i])
    case Dictionary(ps) => |ps| > 0 && forall i | 0 <= i < |ps| :: Populated(ps[i].0) && Populated(ps[i].1)
    case Record(fs) => forall i | 0 <= i < |fs| :: Populated(fs[i])
    case _ => true
  }

  /**
   * `bytes` stand in `data` from `off`, read one byte at a time (the
   * recursion keeps the verifier from unfolding the whole window at once;
   * `AtSlice` gives the slice form).
   */
  predicate At(data: seq<byte>, off: nat, bytes: seq<byte>)
  {
    AtFrom(data, off, bytes, 0)
  }

  /** `data` holds `bytes[j..]` at offset `off + j`, compared one byte at a time. */
  predicate AtFrom(data: seq<byte>, off: nat, bytes: seq<byte>, j: nat)
    decreases |bytes| - j
  {
    off + |bytes| <= |data| && (j >= |bytes| || (data[off + j] == bytes[j] && AtFrom(data, off, bytes, j + 1)))
  }

  lemma {:induction false} AtSlice(data: seq<byte>, off: nat, bytes: seq<byte>)
    ensures At(data, off, bytes) <==> off + |bytes| <= |data| && data[off..off + |bytes|] == bytes
  {
    AtFromSlice(data, off, bytes, 0);
  }

  lemma {:induction false} AtFromSlice(data: seq<byte>, off: nat, bytes: seq<byte>, j: nat)
    requires j <= |bytes|
    ensures AtFrom(data, off, bytes, j) <==> off + |bytes| <= |data| && data[off + j..off + |bytes|] == bytes[j..]
    decreases |bytes| - j
  {
    if j < |bytes| && off + |bytes| <= |data| {
      AtFromSlice(data, off, bytes, j + 1);
      assert data[off + j..off + |bytes|] == [data[off + j]] + data[off + j + 1..off + |bytes|];
      assert bytes[j..] == [bytes[j]] + bytes[j + 1..];
    }
  }

  lemma {:induction false} AtSplit(data: seq<byte>, off: nat, a: seq<byte>, b: seq<byte>)
    requires At(data, off, a + b)
    ensures At(data, off, a) && At(data, off + |a|, b)
  {
    AtSlice(data, off, a + b);
    AtSlice(data, off, a);
    AtSlice(data, off + |a|, b);
    assert data[off..off + |a|] == (a + b)[..|a|];
    assert data[off + |a|..off + |a| + |b|] == (a + b)[|a|..];
  }

  // ---------------------------------------------------------------------
  // Scalars
  // ---------------------------------------------------------------------

  /** `decodeInteger` reads back what `encodeInteger` wrote. */
  lemma {:induction false} IntegerRoundTrip(data: seq<byte>, off: nat, k: IntKind, n: int)
    requires InRange(k, n) && At(data, off, IntegerBytes(k, n))
    ensures ReadInteger(data, off, k) == Ok(Decoded(n, off + Width(k)))
  {
    AtSlice(data, off, IntegerBytes(k, n));
    var r := ReadInteger(data, off, k);
    var m := r.value.value;
    ReadIntegerBytes(data, off, k);
    ModulusIsPow2(k);
    LittleEndianRoundTrip(Pattern(k, m), Width(k));
    LittleEndianRoundTrip(Pattern(k, n), Width(k));
    PatternRoundTrip(k, m);
    PatternRoundTrip(k, n);
  }

  /** A bit pattern below `Modulus(k)` is written as the unsigned integer it is. */
  lemma {:induction false} UnsignedRoundTrip(data: seq<byte>, off: nat, k: IntKind, bits: nat)
    requires !Signed(k) && bits < Modulus(k) && At(data, off, LittleEndian(bits, Width(k)))
    ensures ReadInteger(data, off, k) == Ok(Decoded(bits, off + Width(k)))
  {
    ModOfSmall(bits, Modulus(k));
    IntegerRoundTrip(data, off, k, bits);
  }

  /** `decodeVarInt` reads back what `encodeVarInt` wrote, whatever follows. */
  lemma {:induction false} VarIntRoundTrip(data: seq<byte>, off: nat, n: nat)
    requires n < UInt64Limit && At(data, off, VarInt.Encoding(n))
    ensures ReadVarInt(data, off) == Ok(Decoded(n, off + |VarInt.Encoding(n)|))
  {
    var e := VarInt.Encoding(n);
    AtSlice(data, off, e);
    var rest := data[off + |e|..];
    assert data[off..] == e + rest by {
      assert data[off..] == data[off..off + |e|] + rest;
    }
    VarInt.ReadEncoding(n, rest);
    assert VarInt.Read(data[off..]) == VarInt.Done(n, |e|);
  }

  /** `decodeString` finds the byte count `encodeString` wrote. */
  lemma {:induction false} StringLengthRoundTrip(data: seq<byte>, off: nat, u: seq<byte>)
    requires |u| <= IntMax && At(data, off, VarInt.Encoding(|u|)) && At(data, off + |VarInt.Encoding(|u|)|, u)
    ensures ReadVarInt(data, off) == Ok(Decoded(|u|, off + |VarInt.Encoding(|u|)|))
  {
    VarIntRoundTrip(data, off, |u|);
  }

  /** A valid string of `|u|` bytes after its byte count is accepted. */
  lemma {:induction false} ReadStringOk(data: seq<byte>, off: nat, u: seq<byte>, p: nat)
    requires off <= |data| && ReadVarInt(data, off) == Ok(Decoded(|u|, p))
    requires |u| <= IntMax && p + |u| <= |data| <= IntMax && data[p..p + |u|] == u && Utf8.Valid(u)
    ensures ReadString(data, off) == Ok(Decoded(u, p + |u|))
  {
  }

  /** `decodeString` reads back what `encodeString` wrote: the byte count, then the bytes. */
  lemma {:induction false} StringRoundTrip(data: seq<byte>, off: nat, u: seq<byte>)
    requires Utf8.Valid(u) && |u| <= IntMax && |data| <= IntMax
    requires At(data, off, VarInt.Encoding(|u|)) && At(data, off + |VarInt.Encoding(|u|)|, u)
    ensures ReadString(data, off) == Ok(Decoded(u, off + |VarInt.Encoding(|u|)| + |u|))
  {
    StringLengthRoundTrip(data, off, u);
    AtSlice(data, off + |VarInt.Encoding(|u|)|, u);
    ReadStringOk(data, off, u, off + |VarInt.Encoding(|u|)|);
  }

  /** The single-value container returns the string `decodeString` reads. */
  lemma {:induction false} ScalarString(data: seq<byte>, off: nat, u: seq<byte>, next: nat)
    requires off <= |data| && ReadString(data, off) == Ok(Decoded(u, next))
    ensures ReadScalar(data, off, StringKind) == Ok(Decoded(Text(u), next))
  {
  }

  /** A supported integer type reads back through the single-value container. */
  lemma {:induction false} IntegerScalarRoundTrip(data: seq<byte>, off: nat, k: IntKind, n: int)
    requires !k.Int? && !k.UInt? && InRange(k, n) && At(data, off, IntegerBytes(k, n))
    ensures ReadScalar(data, off, IntegerKind(k)) == Ok(Decoded(Integer(k, n), off + Width(k)))
  {
    IntegerRoundTrip(data, off, k, n);
  }

  /** `decodeFloat` reads back the bit pattern `encodeFloat` wrote. */
  lemma {:induction false} FloatRoundTrip(data: seq<byte>, off: nat, bits: nat)
    requires bits < 0x1_0000_0000 && At(data, off, LittleEndian(bits, 4))
    ensures ReadScalar(data, off, FloatKind) == Ok(Decoded(Float(bits), off + 4))
  {
    UnsignedRoundTrip(data, off, UInt32, bits);
  }

  /** `decodeDouble` reads back the bit pattern `encodeDouble` wrote. */
  lemma {:induction false} DoubleRoundTrip(data: seq<byte>, off: nat, bits: nat)
    requires bits < UInt64Limit && At(data, off, LittleEndian(bits, 8))
    ensures ReadScalar(data, off, DoubleKind) == Ok(Decoded(Double(bits), off + 8))
  {
    UnsignedRoundTrip(data, off, UInt64, bits);
  }

  /**
   * `decodeDate` reads back the milliseconds `encodeDate` wrote, and makes
   * of them the date `FromMillisSince1970` says: the `Double` arithmetic
   * of the two sides is not shown to cancel out.
   */
  lemma {:induction false} DateRoundTrip(data: seq<byte>, off: nat, ms: nat)
    requires ms < UInt64Limit && At(data, off, LittleEndian(ms, 8))
    ensures ReadScalar(data, off, DateKind) == Ok(Decoded(Date(Foundation.FromMillisSince1970(ms)), off + 8))
  {
    UnsignedRoundTrip(data, off, UInt64, ms);
  }

  /** `decodeBool` reads back the byte `encodeBool` wrote. */
  lemma {:induction false} BoolRoundTrip(data: seq<byte>, off: nat, b: bool)
    requires At(data, off, [if b then 1 else 0])
    ensures ReadScalar(data, off, BoolKind) == Ok(Decoded(Bool(b), off + 1))
  {
    assert LittleEndian(if b then 1 else 0, 1) == [if b then 1 else 0];
    UnsignedRoundTrip(data, off, UInt8, if b then 1 else 0);
  }

  /** `decodeUUID` reads back the sixteen bytes `encodeUUID` wrote. */
  lemma {:induction false} UuidRoundTrip(data: seq<byte>, off: nat, u: Foundation.UuidBytes)
    requires At(data, off, u)
    ensures ReadScalar(data, off, UuidKind) == Ok(Decoded(Uuid(u), off + 16))
  {
    AtSlice(data, off, u);
  }

  /** `decodeVarInt` reads back the `VarInt` `encodeVarInt` wrote. */
  lemma {:induction false} VarScalarRoundTrip(data: seq<byte>, off: nat, n: nat)
    requires n < UInt64Limit && At(data, off, VarInt.Encoding(n))
    ensures ReadScalar(data, off, VarIntKind) == Ok(Decoded(Var(n), off + |VarInt.Encoding(n)|))
  {
    VarIntRoundTrip(data, off, n);
  }

  /** `decodeString` reads back the string `encodeString` wrote. */
  lemma {:induction false} TextRoundTrip(data: seq<byte>, off: nat, u: seq<byte>)
    requires Utf8.Valid(u) && |u| <= IntMax && |data| <= IntMax
    requires At(data, off, VarInt.Encoding(|u|)) && At(data, off + |VarInt.Encoding(|u|)|, u)
    ensures ReadScalar(data, off, StringKind) == Ok(Decoded(Text(u), off + |VarInt.Encoding(|u|)| + |u|))
  {
    StringRoundTrip(data, off, u);
    ScalarString(data, off, u, off + |VarInt.Encoding(|u|)| + |u|);
  }

  /**
   * The single-value container reads back every supported scalar it
   * writes itself, a `Date` excepted (`DateRoundTrip`).
   */
  lemma {:induction false} ScalarRoundTrip(data: seq<byte>, off: nat, v: Value, k: ScalarKind)
    requires ScalarHasKind(v, k) && Supported(k) && !k.DateKind? && WellFormed(v) && |data| <= IntMax
    requires At(data, off, FromSingleValue(SingleValue(v)).bytes)
    ensures SingleValue(v).Some?
    ensures ReadScalar(data, off, k) == Ok(Decoded(v, off + |SingleValue(v).value|))
  {
    if v.Text? || v.Var? || v.Uuid? {
      CountedScalarRoundTrip(data, off, v, k);
    } else {
      FixedScalarRoundTrip(data, off, v, k);
    }
  }

  /** The scalars of fixed width: integers, `Float`, `Double` and `Bool`. */
  lemma {:induction false} FixedScalarRoundTrip(data: seq<byte>, off: nat, v: Value, k: ScalarKind)
    requires v.Integer? || v.Float? || v.Double? || v.Bool?
    requires ScalarHasKind(v, k) && Supported(k) && WellFormed(v)
    requires At(data, off, FromSingleValue(SingleValue(v)).bytes)
    ensures SingleValue(v).Some?
    ensures ReadScalar(data, off, k) == Ok(Decoded(v, off + |SingleValue(v).value|))
  {
    match v
    case Integer(ik, n) => IntegerScalarRoundTrip(data, off, ik, n);
    case Float(bits) => FloatRoundTrip(data, off, bits);
    case Double(bits) => DoubleRoundTrip(data, off, bits);
    case Bool(b) => BoolRoundTrip(data, off, b);
  }

  /** The scalars whose width is in their value: strings, `VarInt`s and UUIDs. */
  lemma {:induction false} CountedScalarRoundTrip(data: seq<byte>, off: nat, v: Value, k: ScalarKind)
    requires v.Text? || v.Var? || v.Uuid?
    requires ScalarHasKind(v, k) && WellFormed(v) && |data| <= IntMax
    requires At(data, off, FromSingleValue(SingleValue(v)).bytes)
    ensures SingleValue(v).Some?
    ensures ReadScalar(data, off, k) == Ok(Decoded(v, off + |SingleValue(v).value|))
  {
    match v
    case Uuid(u) =>
      var bytes: seq<byte> := u;
      assert k == UuidKind && SingleValue(v) == Some(bytes);
      UuidRoundTrip(data, off, u);
    case Var(n) =>
      assert k == VarIntKind && SingleValue(v) == Some(VarInt.Encoding(n));
      VarScalarRoundTrip(data, off, n);
    case Text(u) =>
      var e := VarInt.Encoding(|u|);
      assert k == StringKind && SingleValue(v) == Some(e + u);
      AtSplit(data, off, e, u);
      TextRoundTrip(data, off, u);
      assert |e + u| == |e| + |u|;
  }

  /**
   * A scalar's own `init(from:)` reads back what its own `encode(to:)`
   * wrote: a `UUID` parses the `uuidString` back into its bytes, a `Date`
   * takes back the bit pattern of its `timeIntervalSinceReferenceDate`,
   * and every other scalar goes through the single-value container.
   */
  lemma {:induction false} OwnScalarRoundTrip(data: seq<byte>, off: nat, v: Value, k: ScalarKind)
    requires ScalarHasKind(v, k) && Supported(k) && WellFormed(v) && |data| <= IntMax
    requires At(data, off, EmitOwn(v).bytes)
    ensures EmitOwn(v).ok
    ensures ReadOwnScalar(data, off, k) == Ok(Decoded(v, off + |EmitOwn(v).bytes|))
  {
    if v.Uuid? {
      OwnUuidRoundTrip(data, off, v, k);
    } else if v.Date? {
      OwnDateRoundTrip(data, off, v, k);
    } else {
      assert Handed(v) == v;
      assert EmitOwn(v) == FromSingleValue(SingleValue(v));
      ScalarRoundTrip(data, off, v, k);
    }
  }

  /** `UUID.init(from:)` parses back the `uuidString` that `encode(to:)` wrote as a string. */
  lemma {:induction false} OwnUuidRoundTrip(data: seq<byte>, off: nat, v: Value, k: ScalarKind)
    requires v.Uuid? && ScalarHasKind(v, k) && |data| <= IntMax
    requires At(data, off, EmitOwn(v).bytes)
    ensures EmitOwn(v).ok
    ensures ReadOwnScalar(data, off, k) == Ok(Decoded(v, off + |EmitOwn(v).bytes|))
  {
    assert k == UuidKind;
    var text := Foundation.UuidString(v.uuid);
    assert EmitOwn(v) == FromSingleValue(SingleValue(Text(text)));
    HandedWellFormed(v);
    CountedScalarRoundTrip(data, off, Text(text), StringKind);
    Foundation.UuidStringRoundTrip(v.uuid);
  }

  /** `Date.init(from:)` takes back the `Double` that `encode(to:)` wrote. */
  lemma {:induction false} OwnDateRoundTrip(data: seq<byte>, off: nat, v: Value, k: ScalarKind)
    requires v.Date? && ScalarHasKind(v, k) && WellFormed(v)
    requires At(data, off, EmitOwn(v).bytes)
    ensures EmitOwn(v).ok
    ensures ReadOwnScalar(data, off, k) == Ok(Decoded(v, off + |EmitOwn(v).bytes|))
  {
    assert k == DateKind;
    assert EmitOwn(v) == Written(LittleEndian(v.interval, 8));
    DoubleRoundTrip(data, off, v.interval);
  }

  // ---------------------------------------------------------------------
  // Steps of the encoder and the decoder, one at a time
  // ---------------------------------------------------------------------

  /** What a step wrote stands first; if it did not throw, what followed it stands next. */
  lemma {:induction false} AtThen(data: seq<byte>, off: nat, a: Emitted, b: Emitted)
    requires At(data, off, Then(a, b).bytes)
    ensures At(data, off, a.bytes)
    ensures a.ok ==> At(data, off + |a.bytes|, b.bytes) && |Then(a, b).bytes| == |a.bytes| + |b.bytes|
  {
    if a.ok {
      AtSplit(data, off, a.bytes, b.bytes);
    }
  }

  /** A present optional's encoding: the 0x01 tag, then its payload. */
  lemma {:induction false} TagThen(data: seq<byte>, off: nat, v: Value)
    requires (v.Optional? || v.Nullable?) && v.o.Some? && At(data, off, Emit(v).bytes)
    ensures off < |data| && data[off] == 0x01
    ensures Emit(v).ok == Dispatch(v.o.value).ok
    ensures At(data, off + 1, Dispatch(v.o.value).bytes)
    ensures |Emit(v).bytes| == 1 + |Dispatch(v.o.value).bytes|
  {
    assert Emit(v) == Then(Written([0x01]), Dispatch(v.o.value));
    AtThen(data, off, Written([0x01]), Dispatch(v.o.value));
  }

  lemma {:induction false} SliceAll<T>(s: seq<T>)
    ensures s[0..] == s
  {
  }

  lemma {:induction false} SliceCons<T>(s: seq<T>, i: nat)
    requires i < |s|
    ensures s[i..] == [s[i]] + s[i + 1..]
  {
  }

  lemma {:induction false} ReadElementsCons(rule: AtEndRule, data: seq<byte>, e: Shape, count: nat, index: nat, off: nat,
                         x: Value, p: nat, xs: seq<Value>, q: nat)
    requires off <= |data| && index < count
    requires ReadValue(rule, data, e, off) == Ok(Decoded(x, p))
    requires ReadElements(rule, data, e, count, index + 1, index + 1 == count, p) == Ok(Decoded(xs, q))
    ensures ReadElements(rule, data, e, count, index, false, off) == Ok(Decoded([x] + xs, q))
  {
  }

  lemma {:induction false} ReadArrayOk(rule: AtEndRule, data: seq<byte>, e: Shape, off: nat, n: nat, p: nat, xs: seq<Value>, q: nat)
    requires off <= |data| && ReadCount(data, off) == Ok(Decoded(n, p))
    requires rule.StartsAtCount? || n > 0
    requires ReadElements(rule, data, e, n, 0, 0 == n, p) == Ok(Decoded(xs, q))
    ensures ReadArray(rule, data, e, off) == Ok(Decoded(xs, q))
  {
    assert StartsAtEnd(rule, n) == (0 == n);
  }

  /**
   * The unkeyed container finds the count written first, and the elements
   * follow it.
   */
  lemma {:induction false} CountThen(rule: AtEndRule, data: seq<byte>, off: nat, n: nat, body: Emitted)
    requires n <= IntMax && |data| <= IntMax && At(data, off, Then(Written(VarInt.Encoding(n)), body).bytes)
    requires rule.StartsAtCount? || n > 0
    ensures Then(Written(VarInt.Encoding(n)), body).ok == body.ok
    ensures |Then(Written(VarInt.Encoding(n)), body).bytes| == |VarInt.Encoding(n)| + |body.bytes|
    ensures At(data, off + |VarInt.Encoding(n)|, body.bytes)
    ensures ReadCount(data, off) == Ok(Decoded(n, off + |VarInt.Encoding(n)|))
  {
    var c := VarInt.Encoding(n);
    AtThen(data, off, Written(c), body);
    VarIntRoundTrip(data, off, n);
  }

  /** Property `i` read at `off` and the properties after it read at `p` make the properties from `i` on. */
  lemma {:induction false} FieldsJoin(rule: AtEndRule, data: seq<byte>, fs: seq<Shape>, xs: seq<Value>, i: nat, off: nat, p: nat, q: nat)
    requires i < |fs| && i < |xs| && off <= |data| && !fs[i].OptionalOf?
    requires ReadValue(rule, data, fs[i], off) == Ok(Decoded(xs[i], p))
    requires ReadFields(rule, data, fs, i + 1, p) == Ok(Decoded(xs[i + 1..], q))
    ensures ReadFields(rule, data, fs, i, off) == Ok(Decoded(xs[i..], q))
  {
    ReadFieldsCons(rule, data, fs, i, off, xs[i], p, xs[i + 1..], q);
    SliceCons(xs, i);
  }

  lemma {:induction false} ReadFieldsCons(rule: AtEndRule, data: seq<byte>, fs: seq<Shape>, i: nat, off: nat,
                       x: Value, p: nat, xs: seq<Value>, q: nat)
    requires i < |fs| && off <= |data| && !fs[i].OptionalOf?
    requires ReadValue(rule, data, fs[i], off) == Ok(Decoded(x, p))
    requires ReadFields(rule, data, fs, i + 1, p) == Ok(Decoded(xs, q))
    ensures ReadFields(rule, data, fs, i, off) == Ok(Decoded([x] + xs, q))
  {
  }

  lemma {:induction false} ReadPairOk(rule: AtEndRule, data: seq<byte>, ks: Shape, vs: Shape, off: nat,
                   key: Value, p: nat, value: Value, q: nat)
    requires off <= |data|
    requires ReadValue(rule, data, ks, off) == Ok(Decoded(key, p))
    requires ReadValue(rule, data, vs, p) == Ok(Decoded(value, q))
    ensures ReadValue(rule, data, PairOf(ks, vs), off) == Ok(Decoded(Record([key, value]), q))
  {
    assert ReadValue(rule, data, PairOf(ks, vs), off) == ReadOwn(rule, data, PairOf(ks, vs), off);
  }

  /** The two-field `Pair` records a dictionary's entries are decoded as. */
  function PairRecords(ps: seq<(Value, Value)>): (pairs: seq<Value>)
    ensures |pairs| == |ps|
  {
    seq(|ps|, i requires 0 <= i < |ps| => Record([ps[i].0, ps[i].1]))
  }

  lemma {:induction false} ReadDictionaryOk(rule: AtEndRule, data: seq<byte>, ks: Shape, vs: Shape, off: nat, ps: seq<(Value, Value)>, q: nat)
    requires off <= |data| && DistinctKeys(ps)
    requires ReadArray(rule, data, PairOf(ks, vs), off) == Ok(Decoded(PairRecords(ps), q))
    ensures ReadDictionary(rule, data, ks, vs, off) == Ok(Decoded(Dictionary(ps), q))
  {
    assert Entries(PairRecords(ps)) == ps;
  }

  lemma {:induction false} ReadNullableSome(rule: AtEndRule, data: seq<byte>, w: Shape, off: nat, x: Value, q: nat)
    requires off < |data| && data[off] == 0x01
    requires ReadOwn(rule, data, w, off + 1) == Ok(Decoded(x, q))
    ensures ReadNullable(rule, data, w, off) == Ok(Decoded(Nullable(Some(x)), q))
  {
  }

  lemma {:induction false} ReadNullableNone(rule: AtEndRule, data: seq<byte>, w: Shape, off: nat)
    requires off < |data| && data[off] == 0x00
    ensures ReadNullable(rule, data, w, off) == Ok(Decoded(Nullable(None), off + 1))
  {
  }

  lemma {:induction false} ReadOptionalNone(data: seq<byte>, w: Shape, off: nat)
    requires off < |data| && data[off] == 0x00
    ensures ReadOptional(data, w, off) == Ok(Decoded(Optional(None), off + 1))
  {
  }

  lemma {:induction false} ReadOptionalSome(data: seq<byte>, w: Shape, off: nat, x: Value, q: nat)
    requires off < |data| && data[off] == 0x01 && w.Scalar?
    requires ReadScalar(data, off + 1, w.kind) == Ok(Decoded(x, q))
    ensures ReadOptional(data, w, off) == Ok(Decoded(Optional(Some(x)), q))
  {
  }

  // ---------------------------------------------------------------------
  // Values of every codable type
  // ---------------------------------------------------------------------

  /**
   * What a value of a static type must satisfy for its encoding to read
   * back: it is a well-formed value of a codable type, and under the
   * decoder as written it holds no empty array or dictionary.
   */
  predicate Fits(rule: AtEndRule, v: Value, s: Shape)
  {
    WellFormed(v) && HasShape(v, s) && Codable(s) && (rule.StartsAtCount? || Populated(v))
  }

  lemma {:induction false} ElementFits(rule: AtEndRule, es: seq<Value>, e: Shape, i: nat)
    requires Fits(rule, Array(es), ArrayOf(e)) && i < |es|
    ensures Fits(rule, es[i], e)
  {
  }

  lemma {:induction false} EntryFits(rule: AtEndRule, ps: seq<(Value, Value)>, ks: Shape, vs: Shape, i: nat)
    requires Fits(rule, Dictionary(ps), DictionaryOf(ks, vs)) && i < |ps|
    ensures Fits(rule, ps[i].0, ks) && Fits(rule, ps[i].1, vs)
  {
  }

  /** A stored property of a codable record is never of optional type, so it is written whole. */
  lemma {:induction false} FieldFits(rule: AtEndRule, xs: seq<Value>, fs: seq<Shape>, i: nat)
    requires Fits(rule, Record(xs), RecordOf(fs)) && i < |xs|
    ensures Fits(rule, xs[i], fs[i]) && !fs[i].OptionalOf? && EmitField(xs[i]) == Emit(xs[i])
  {
    assert HasShape(xs[i], fs[i]) && !fs[i].OptionalOf?;
    assert !xs[i].Optional?;
  }

  lemma {:induction false} NullableFits(rule: AtEndRule, v: Value, w: Shape)
    requires Fits(rule, v, NullableOf(w)) && v.o.Some?
    ensures Fits(rule, v.o.value, w) && (w.Scalar? || w.ArrayOf? || w.RecordOf?)
  {
  }

  /**
   * `decode(_:)` reads back what `encode(_:)` wrote for a value of a
   * codable type, whatever stands before and after it.
   */
  lemma {:induction false} ValueRoundTrip(rule: AtEndRule, data: seq<byte>, off: nat, v: Value, s: Shape)
    requires Fits(rule, v, s) && |data| <= IntMax && At(data, off, Emit(v).bytes)
    ensures Emit(v).ok
    ensures ReadValue(rule, data, s, off) == Ok(Decoded(v, off + |Emit(v).bytes|))
    decreases v, 3
  {
    match s
    case DictionaryOf(ks, vs) =>
      assert Emit(v) == EmitDictionary(v.entries);
      DictionaryRoundTrip(rule, data, off, v.entries, ks, vs);
    case OptionalOf(w) =>
      OptionalRoundTrip(data, off, v, w);
    case NullableOf(w) =>
      NullableRoundTrip(rule, data, off, v, w);
    case Scalar(_) =>
      assert Emit(v) == Dispatch(v);
      OwnRoundTrip(rule, data, off, v, s);
    case ArrayOf(_) =>
      assert Emit(v) == Dispatch(v);
      OwnRoundTrip(rule, data, off, v, s);
    case RecordOf(_) =>
      assert Emit(v) == Dispatch(v);
      OwnRoundTrip(rule, data, off, v, s);
  }

  /** `Optional.init(from:)` reads back the tag and the scalar payload `encode(_:)` wrote. */
  lemma {:induction false} OptionalRoundTrip(data: seq<byte>, off: nat, v: Value, w: Shape)
    requires w.Scalar? && Supported(w.kind) && !w.kind.UuidKind? && !w.kind.DateKind?
    requires WellFormed(v) && HasShape(v, OptionalOf(w))
    requires |data| <= IntMax && At(data, off, Emit(v).bytes)
    ensures Emit(v).ok
    ensures ReadOptional(data, w, off) == Ok(Decoded(v, off + |Emit(v).bytes|))
  {
    assert v.Optional?;
    if v.o.Some? {
      OptionalSomeRoundTrip(data, off, v, w);
    } else {
      assert v == Optional(None);
      AbsentRoundTrip(data, off, v);
      ReadOptionalNone(data, w, off);
    }
  }

  /** An absent optional is the single byte 0x00. */
  lemma {:induction false} AbsentRoundTrip(data: seq<byte>, off: nat, v: Value)
    requires (v.Optional? || v.Nullable?) && v.o.None? && At(data, off, Emit(v).bytes)
    ensures Emit(v) == Written([0x00]) && off < |data| && data[off] == 0x00
  {
  }

  lemma {:induction false} OptionalSomeRoundTrip(data: seq<byte>, off: nat, v: Value, w: Shape)
    requires w.Scalar? && Supported(w.kind) && !w.kind.UuidKind? && !w.kind.DateKind?
    requires v.Optional? && v.o.Some? && WellFormed(v.o.value) && ScalarHasKind(v.o.value, w.kind)
    requires |data| <= IntMax && At(data, off, Emit(v).bytes)
    ensures Emit(v).ok
    ensures ReadOptional(data, w, off) == Ok(Decoded(v, off + |Emit(v).bytes|))
  {
    var x := v.o.value;
    assert v == Optional(Some(x));
    TagThen(data, off, v);
    assert Dispatch(x) == EmitOwn(x) == FromSingleValue(SingleValue(x));
    ScalarRoundTrip(data, off + 1, x, w.kind);
    ReadOptionalSome(data, w, off, x, off + 1 + |SingleValue(x).value|);
  }

  /** `Nullable.init(from:)` reads back the tag and the payload `encode(_:)` wrote. */
  lemma {:induction false} NullableRoundTrip(rule: AtEndRule, data: seq<byte>, off: nat, v: Value, w: Shape)
    requires Fits(rule, v, NullableOf(w)) && |data| <= IntMax && At(data, off, Emit(v).bytes)
    ensures Emit(v).ok
    ensures ReadNullable(rule, data, w, off) == Ok(Decoded(v, off + |Emit(v).bytes|))
    decreases v, 2
  {
    assert v.Nullable?;
    if v.o.Some? {
      assert v == Nullable(Some(v.o.value));
      NullableFits(rule, v, w);
      NullableSomeRoundTrip(rule, data, off, v.o.value, w);
    } else {
      assert v == Nullable(None);
      AbsentRoundTrip(data, off, v);
      ReadNullableNone(rule, data, w, off);
    }
  }

  lemma {:induction false} NullableSomeRoundTrip(rule: AtEndRule, data: seq<byte>, off: nat, x: Value, w: Shape)
    requires w.Scalar? || w.ArrayOf? || w.RecordOf?
    requires Fits(rule, x, w) && |data| <= IntMax && At(data, off, Emit(Nullable(Some(x))).bytes)
    ensures Emit(Nullable(Some(x))).ok
    ensures ReadNullable(rule, data, w, off) == Ok(Decoded(Nullable(Some(x)), off + |Emit(Nullable(Some(x))).bytes|))
    decreases Nullable(Some(x)), 1
  {
    TagThen(data, off, Nullable(Some(x)));
    OwnRoundTrip(rule, data, off + 1, x, w);
    ReadNullableSome(rule, data, w, off, x, off + 1 + |Dispatch(x).bytes|);
  }

  /** A type's own `init(from:)` reads back what the `switch` of `encode(_:)` wrote. */
  lemma {:induction false} OwnRoundTrip(rule: AtEndRule, data: seq<byte>, off: nat, v: Value, s: Shape)
    requires s.Scalar? || s.ArrayOf? || s.RecordOf?
    requires Fits(rule, v, s) && |data| <= IntMax && At(data, off, Dispatch(v).bytes)
    ensures Dispatch(v).ok
    ensures ReadOwn(rule, data, s, off) == Ok(Decoded(v, off + |Dispatch(v).bytes|))
    decreases v, 2, 1
  {
    if s.Scalar? {
      OwnScalarValueRoundTrip(rule, data, off, v, s);
    } else if s.ArrayOf? {
      OwnArrayRoundTrip(rule, data, off, v, s);
    } else {
      OwnRecordRoundTrip(rule, data, off, v, s);
    }
  }

  /** A scalar's own `init(from:)`, reached through `decode(_:)`. */
  lemma {:induction false} OwnScalarValueRoundTrip(rule: AtEndRule, data: seq<byte>, off: nat, v: Value, s: Shape)
    requires s.Scalar? && Fits(rule, v, s) && |data| <= IntMax && At(data, off, Dispatch(v).bytes)
    ensures Dispatch(v).ok
    ensures ReadOwn(rule, data, s, off) == Ok(Decoded(v, off + |Dispatch(v).bytes|))
  {
    DispatchOwn(v);
    ReadOwnScalarShape(rule, data, s, off);
    OwnScalarRoundTrip(data, off, v, s.kind);
  }

  lemma {:induction false} DispatchOwn(v: Value)
    requires !v.Optional? && !v.Array? && !v.Dictionary?
    ensures Dispatch(v) == EmitOwn(v)
  {
  }

  lemma {:induction false} ReadOwnScalarShape(rule: AtEndRule, data: seq<byte>, s: Shape, off: nat)
    requires s.Scalar? && off <= |data|
    ensures ReadOwn(rule, data, s, off) == ReadOwnScalar(data, off, s.kind)
  {
  }

  lemma {:induction false} OwnArrayRoundTrip(rule: AtEndRule, data: seq<byte>, off: nat, v: Value, s: Shape)
    requires s.ArrayOf? && Fits(rule, v, s) && |data| <= IntMax && At(data, off, Dispatch(v).bytes)
    ensures Dispatch(v).ok
    ensures ReadOwn(rule, data, s, off) == Ok(Decoded(v, off + |Dispatch(v).bytes|))
    decreases v, 2, 0
  {
    assert Dispatch(v) == EmitArray(v.elements);
    ArrayRoundTrip(rule, data, off, v.elements, s.element);
  }

  lemma {:induction false} OwnRecordRoundTrip(rule: AtEndRule, data: seq<byte>, off: nat, v: Value, s: Shape)
    requires s.RecordOf? && Fits(rule, v, s) && |data| <= IntMax && At(data, off, Dispatch(v).bytes)
    ensures Dispatch(v).ok
    ensures ReadOwn(rule, data, s, off) == Ok(Decoded(v, off + |Dispatch(v).bytes|))
    decreases v, 2, 0
  {
    assert Dispatch(v) == EmitFields(v.fields, 0);
    FieldsRoundTrip(rule, data, off, v.fields, s.fields, 0);
    SliceAll(v.fields);
  }

  /** `Array.init(from:)` reads back the count and the elements `encodeArray` wrote. */
  lemma {:induction false} ArrayRoundTrip(rule: AtEndRule, data: seq<byte>, off: nat, es: seq<Value>, e: Shape)
    requires Fits(rule, Array(es), ArrayOf(e)) && |data| <= IntMax && At(data, off, EmitArray(es).bytes)
    ensures EmitArray(es).ok
    ensures ReadArray(rule, data, e, off) == Ok(Decoded(es, off + |EmitArray(es).bytes|))
    decreases Array(es), 1
  {
    assert EmitArray(es) == Then(Written(VarInt.Encoding(|es|)), EmitElements(es, 0));
    assert rule.StartsAtCount? || |es| > 0;
    AtThen(data, off, Written(VarInt.Encoding(|es|)), EmitElements(es, 0));
    ElementsRoundTrip(rule, data, off + |VarInt.Encoding(|es|)|, es, e, 0);
    ArrayFromElements(rule, data, e, off, es);
  }

  /** The count, then the elements the loop read back, make up the array. */
  lemma {:induction false} ArrayFromElements(rule: AtEndRule, data: seq<byte>, e: Shape, off: nat, es: seq<Value>)
    requires |es| <= IntMax && |data| <= IntMax && (rule.StartsAtCount? || |es| > 0)
    requires At(data, off, EmitArray(es).bytes) && EmitElements(es, 0).ok
    requires off + |VarInt.Encoding(|es|)| <= |data|
    requires ReadElements(rule, data, e, |es|, 0, 0 == |es|, off + |VarInt.Encoding(|es|)|)
          == Ok(Decoded(es[0..], off + |VarInt.Encoding(|es|)| + |EmitElements(es, 0).bytes|))
    ensures EmitArray(es).ok
    ensures ReadArray(rule, data, e, off) == Ok(Decoded(es, off + |EmitArray(es).bytes|))
  {
    var body := EmitElements(es, 0);
    var c := VarInt.Encoding(|es|);
    assert EmitArray(es) == Then(Written(c), body);
    CountThen(rule, data, off, |es|, body);
    ReadArrayOk(rule, data, e, off, |es|, off + |c|, es[0..], off + |c| + |body.bytes|);
    SliceAll(es);
  }

  /**
   * The loop of `Array.init(from:)` reads back the elements from number
   * `i` on, and stops after the last.
   */
  lemma {:induction false} ElementsRoundTrip(rule: AtEndRule, data: seq<byte>, off: nat, es: seq<Value>, e: Shape, i: nat)
    requires i <= |es| && Fits(rule, Array(es), ArrayOf(e))
    requires |data| <= IntMax && At(data, off, EmitElements(es, i).bytes)
    ensures EmitElements(es, i).ok
    ensures ReadElements(rule, data, e, |es|, i, i == |es|, off) == Ok(Decoded(es[i..], off + |EmitElements(es, i).bytes|))
    decreases Array(es), 0, |es| - i, 1
  {
    if i < |es| {
      var p := ElementsHead(rule, data, off, es, e, i);
      ElementsRoundTrip(rule, data, p, es, e, i + 1);
      ElementsJoin(rule, data, e, es, i, off, p, off + |EmitElements(es, i).bytes|);
    } else {
      assert es[i..] == [];
    }
  }

  /** Element `i` reads back where it was written, and the elements after it follow. */
  lemma {:induction false} ElementsHead(rule: AtEndRule, data: seq<byte>, off: nat, es: seq<Value>, e: Shape, i: nat)
    returns (p: nat)
    requires i < |es| && Fits(rule, Array(es), ArrayOf(e))
    requires |data| <= IntMax && At(data, off, EmitElements(es, i).bytes)
    ensures off <= |data| && At(data, p, EmitElements(es, i + 1).bytes)
    ensures EmitElements(es, i).ok == EmitElements(es, i + 1).ok
    ensures off + |EmitElements(es, i).bytes| == p + |EmitElements(es, i + 1).bytes|
    ensures ReadValue(rule, data, e, off) == Ok(Decoded(es[i], p))
    decreases Array(es), 0, |es| - i, 0
  {
    var x, rest := Emit(es[i]), EmitElements(es, i + 1);
    assert EmitElements(es, i) == Then(x, rest);
    ElementFits(rule, es, e, i);
    AtThen(data, off, x, rest);
    ValueRoundTrip(rule, data, off, es[i], e);
    p := off + |x.bytes|;
  }

  /**
   * `Dictionary.init(custom:)` reads back the count and the entries
   * `encodeDictionary` wrote; the keys, being a dictionary's, are distinct.
   */
  lemma {:induction false} DictionaryRoundTrip(rule: AtEndRule, data: seq<byte>, off: nat, ps: seq<(Value, Value)>, ks: Shape, vs: Shape)
    requires Fits(rule, Dictionary(ps), DictionaryOf(ks, vs)) && |data| <= IntMax && At(data, off, EmitDictionary(ps).bytes)
    ensures EmitDictionary(ps).ok
    ensures ReadDictionary(rule, data, ks, vs, off) == Ok(Decoded(Dictionary(ps), off + |EmitDictionary(ps).bytes|))
    decreases Dictionary(ps), 2
  {
    var body := EmitEntries(ps, 0);
    var c := VarInt.Encoding(|ps|);
    var q := off + |c| + |body.bytes|;
    assert EmitDictionary(ps) == Then(Written(c), body);
    assert rule.StartsAtCount? || |ps| > 0;
    CountThen(rule, data, off, |ps|, body);
    EntriesRoundTrip(rule, data, off + |c|, ps, ks, vs, 0);
    ReadArrayOk(rule, data, PairOf(ks, vs), off, |ps|, off + |c|, PairRecords(ps)[0..], off + |c| + |EmitEntries(ps, 0).bytes|);
    SliceAll(PairRecords(ps));
    ReadDictionaryOk(rule, data, ks, vs, off, ps, q);
  }

  /** The entries from number `i` on, each read back as a `Pair`. */
  lemma {:induction false} EntriesRoundTrip(rule: AtEndRule, data: seq<byte>, off: nat, ps: seq<(Value, Value)>, ks: Shape, vs: Shape, i: nat)
    requires i <= |ps| && Fits(rule, Dictionary(ps), DictionaryOf(ks, vs))
    requires |data| <= IntMax && At(data, off, EmitEntries(ps, i).bytes)
    ensures EmitEntries(ps, i).ok
    ensures ReadElements(rule, data, PairOf(ks, vs), |ps|, i, i == |ps|, off)
         == Ok(Decoded(PairRecords(ps)[i..], off + |EmitEntries(ps, i).bytes|))
    decreases Dictionary(ps), 1, |ps| - i, 1
  {
    if i < |ps| {
      var p := EntriesHead(rule, data, off, ps, ks, vs, i);
      EntriesRoundTrip(rule, data, p, ps, ks, vs, i + 1);
      ElementsJoin(rule, data, PairOf(ks, vs), PairRecords(ps), i, off, p, off + |EmitEntries(ps, i).bytes|);
    } else {
      EntriesEnd(rule, data, off, ps, ks, vs);
    }
  }

  /** Element `i` read at `off` and the elements after it read at `p` make the elements from `i` on. */
  lemma {:induction false} ElementsJoin(rule: AtEndRule, data: seq<byte>, e: Shape, pairs: seq<Value>, i: nat, off: nat, p: nat, q: nat)
    requires off <= |data| && i < |pairs|
    requires ReadValue(rule, data, e, off) == Ok(Decoded(pairs[i], p))
    requires ReadElements(rule, data, e, |pairs|, i + 1, i + 1 == |pairs|, p) == Ok(Decoded(pairs[i + 1..], q))
    ensures ReadElements(rule, data, e, |pairs|, i, i == |pairs|, off) == Ok(Decoded(pairs[i..], q))
  {
    ReadElementsCons(rule, data, e, |pairs|, i, off, pairs[i], p, pairs[i + 1..], q);
    SliceCons(pairs, i);
  }

  /** Entry `i` reads back as a `Pair`, and the entries after it follow. */
  lemma {:induction false} EntriesHead(rule: AtEndRule, data: seq<byte>, off: nat, ps: seq<(Value, Value)>, ks: Shape, vs: Shape, i: nat)
    returns (p: nat)
    requires i < |ps| && Fits(rule, Dictionary(ps), DictionaryOf(ks, vs))
    requires |data| <= IntMax && At(data, off, EmitEntries(ps, i).bytes)
    ensures off <= |data| && At(data, p, EmitEntries(ps, i + 1).bytes)
    ensures EmitEntries(ps, i).ok == EmitEntries(ps, i + 1).ok
    ensures off + |EmitEntries(ps, i).bytes| == p + |EmitEntries(ps, i + 1).bytes|
    ensures ReadValue(rule, data, PairOf(ks, vs), off) == Ok(Decoded(PairRecords(ps)[i], p))
    decreases Dictionary(ps), 1, |ps| - i, 0
  {
    var entry, rest := EmitEntry(ps, i), EmitEntries(ps, i + 1);
    assert EmitEntries(ps, i) == Then(entry, rest);
    AtThen(data, off, entry, rest);
    EntryFits(rule, ps, ks, vs, i);
    EntryRoundTrip(rule, data, off, ps, ks, vs, i);
    p := off + |entry.bytes|;
  }

  /** Past the last entry the loop stops, having read nothing. */
  lemma {:induction false} EntriesEnd(rule: AtEndRule, data: seq<byte>, off: nat, ps: seq<(Value, Value)>, ks: Shape, vs: Shape)
    requires off <= |data|
    ensures EmitEntries(ps, |ps|) == Written([])
    ensures ReadElements(rule, data, PairOf(ks, vs), |ps|, |ps|, true, off) == Ok(Decoded(PairRecords(ps)[|ps|..], off))
  {
    assert PairRecords(ps)[|ps|..] == [];
  }

  /** One entry: the key, then the value, read back as the private `Pair` struct. */
  lemma {:induction false} EntryRoundTrip(rule: AtEndRule, data: seq<byte>, off: nat, ps: seq<(Value, Value)>, ks: Shape, vs: Shape, i: nat)
    requires i < |ps| && Fits(rule, ps[i].0, ks) && Fits(rule, ps[i].1, vs)
    requires |data| <= IntMax && At(data, off, EmitEntry(ps, i).bytes)
    ensures EmitEntry(ps, i).ok
    ensures ReadValue(rule, data, PairOf(ks, vs), off) == Ok(Decoded(Record([ps[i].0, ps[i].1]), off + |EmitEntry(ps, i).bytes|))
    decreases Dictionary(ps), 0
  {
    var (key, value) := ps[i];
    AtThen(data, off, Emit(key), Emit(value));
    ValueRoundTrip(rule, data, off, key, ks);
    var p := off + |Emit(key).bytes|;
    ValueRoundTrip(rule, data, p, value, vs);
    ReadPairOk(rule, data, ks, vs, off, key, p, value, p + |Emit(value).bytes|);
  }

  /** A synthesized `init(from:)` reads back the stored properties from number `i` on. */
  lemma {:induction false} FieldsRoundTrip(rule: AtEndRule, data: seq<byte>, off: nat, xs: seq<Value>, fs: seq<Shape>, i: nat)
    requires i <= |xs| && Fits(rule, Record(xs), RecordOf(fs))
    requires |data| <= IntMax && At(data, off, EmitFields(xs, i).bytes)
    ensures EmitFields(xs, i).ok
    ensures ReadFields(rule, data, fs, i, off) == Ok(Decoded(xs[i..], off + |EmitFields(xs, i).bytes|))
    decreases Record(xs), 1, |xs| - i
  {
    if i < |xs| {
      FieldFits(rule, xs, fs, i);
      AtThen(data, off, Emit(xs[i]), EmitFields(xs, i + 1));
      ValueRoundTrip(rule, data, off, xs[i], fs[i]);
      var p := off + |Emit(xs[i]).bytes|;
      FieldsRoundTrip(rule, data, p, xs, fs, i + 1);
      FieldsJoin(rule, data, fs, xs, i, off, p, off + |EmitFields(xs, i).bytes|);
    } else {
      assert i == |fs| && xs[i..] == [];
    }
  }

  // ---------------------------------------------------------------------
  // Whole messages
  // ---------------------------------------------------------------------

  /**
   * `HardpackDecoder().decode(_:from:)` of what `HardpackEncoder().encode(_:)`
   * returned is the value encoded, and bytes after the message are left
   * unread.  With `isAtEnd` starting at whether the count is zero, this
   * holds for empty arrays and dictionaries too.
   */
  lemma {:induction false} EncodeDecode(rule: AtEndRule, v: Value, s: Shape, rest: seq<byte>)
    requires Fits(rule, v, s) && |Emit(v).bytes| + |rest| <= IntMax
    ensures Encoding(v) == Ok(Emit(v).bytes)
    ensures ReadValue(rule, Emit(v).bytes + rest, s, 0) == Ok(Decoded(v, |Emit(v).bytes|))
  {
    var bytes := Emit(v).bytes;
    var data := bytes + rest;
    assert data[0..|bytes|] == bytes;
    AtSlice(data, 0, bytes);
    ValueRoundTrip(rule, data, 0, v, s);
  }

  /**
   * As written, an empty array does not read back: the container's count
   * is 0 but `isAtEnd` is false, so the loop asks for an element that is
   * not there.
   */
  lemma EmptyArrayAsWritten()
    ensures Encoding(Array([])) == Ok([0x00])
    ensures ReadValue(StartsFalse, [0x00], ArrayOf(Scalar(IntegerKind(Int16))), 0) == Err(UnexpectedEndOfData)
  {
    assert VarInt.Encoding(0) == [0x00];
    assert EmitElements([], 0) == Written([]);
    assert Emit(Array([])) == Dispatch(Array([])) == EmitArray([]) == Written([0x00]);
  }

  /** As written, an empty array of records without properties never stops reading. */
  lemma EmptyRecordArrayAsWritten()
    ensures ReadValue(StartsFalse, [0x00], ArrayOf(RecordOf([])), 0) == Err(NoProgress)
  {
    assert VarInt.Read([0x00]) == VarInt.Done(0, 1);
  }

  /** With `isAtEnd` starting at whether the count is zero, the empty array reads back. */
  lemma EmptyArrayCorrected()
    ensures ReadValue(StartsAtCount, [0x00], ArrayOf(Scalar(IntegerKind(Int16))), 0) == Ok(Decoded(Array([]), 1))
  {
    assert VarInt.Read([0x00]) == VarInt.Done(0, 1);
  }

  // ---------------------------------------------------------------------
  // Optional UUIDs and dates
  // ---------------------------------------------------------------------

  /**
   * As written, a present `UUID?` does not read back: `encode(_:)` writes
   * the tag and then the `uuidString` its own `encode(to:)` hands over
   * (the length 36 as the byte 0x24, then 36 characters), and
   * `Optional.init(from:)` takes the 16 bytes after the tag for the UUID,
   * leaving 21 of the 38 bytes unread.
   */
  lemma OptionalUuidAsWritten(rule: AtEndRule, u: Foundation.UuidBytes)
    ensures Encoding(Optional(Some(Uuid(u)))) == Ok([0x01, 0x24] + Foundation.UuidString(u))
    ensures ReadValue(rule, [0x01, 0x24] + Foundation.UuidString(u), OptionalOf(Scalar(UuidKind)), 0)
         == Ok(Decoded(Optional(Some(Uuid([0x24] + Foundation.UuidString(u)[..15]))), 17))
  {
    var text := Foundation.UuidString(u);
    var data := [0x01, 0x24] + text;
    assert VarInt.Encoding(36) == [0x24];
    assert SingleValue(Handed(Uuid(u))) == Some([0x24] + text);
    assert Dispatch(Uuid(u)) == EmitOwn(Uuid(u)) == Written([0x24] + text);
    assert Emit(Optional(Some(Uuid(u)))) == Then(Written([0x01]), Written([0x24] + text)) == Written(data);
    assert data[1..17] == [0x24] + text[..15] by {
      forall k | 0 <= k < 16 ensures data[1..17][k] == ([0x24] + text[..15])[k] { }
    }
    assert ReadValue(rule, data, OptionalOf(Scalar(UuidKind)), 0) == ReadOptional(data, Scalar(UuidKind), 0);
  }

  /**
   * As written, a present `Date?` does not read back: `encode(_:)` writes
   * the tag and then the bit pattern of the `timeIntervalSinceReferenceDate`
   * its own `encode(to:)` hands over, and `Optional.init(from:)` reads
   * those 8 bytes as whole milliseconds since 1970.
   */
  lemma OptionalDateAsWritten(rule: AtEndRule, t: nat)
    requires t < UInt64Limit
    ensures Encoding(Optional(Some(Date(t)))) == Ok([0x01] + LittleEndian(t, 8))
    ensures ReadValue(rule, [0x01] + LittleEndian(t, 8), OptionalOf(Scalar(DateKind)), 0)
         == Ok(Decoded(Optional(Some(Date(Foundation.FromMillisSince1970(t)))), 9))
  {
    var bytes := LittleEndian(t, 8);
    var data := [0x01] + bytes;
    assert SingleValue(Handed(Date(t))) == Some(bytes);
    assert Dispatch(Date(t)) == EmitOwn(Date(t)) == Written(bytes);
    assert Emit(Optional(Some(Date(t)))) == Then(Written([0x01]), Written(bytes)) == Written(data);
    assert data[1..9] == bytes;
    AtSlice(data, 1, bytes);
    DateRoundTrip(data, 1, t);
    assert ReadValue(rule, data, OptionalOf(Scalar(DateKind)), 0) == ReadOptional(data, Scalar(DateKind), 0);
  }

  /**
   * The reference date itself, 2001-01-01, whose interval has the bit
   * pattern 0, is read back as 0 milliseconds since 1970: a negative
   * interval, so another date.
   */
  lemma ReferenceDateMisread(t: nat)
    requires t == 0
    ensures Foundation.FromMillisSince1970(t) >= 0x8000_0000_0000_0000
    ensures Foundation.FromMillisSince1970(t) != t
  {
    Foundation.ZeroIsExact(t);
    var z := Foundation.FromInteger(t);
    Foundation.RoundZero(0.0 / 1000.0);
    var d := Foundation.DivideConstant(z, 1000.0);
    Foundation.DenoteZero(d);
  }

  /**
   * With `Optional.init(from:)` running the payload type's own
   * `init(from:)` after the tag, which is what `encode(_:)` writes, a
   * present `UUID?` and `Date?` read back, and so do optional arrays and
   * records.
   */
  lemma {:induction false} OptionalCorrectedRoundTrip(rule: AtEndRule, data: seq<byte>, off: nat, v: Value, w: Shape)
    requires w.Scalar? || w.ArrayOf? || w.RecordOf?
    requires v.Optional? && (v.o.Some? ==> Fits(rule, v.o.value, w))
    requires |data| <= IntMax && At(data, off, Emit(v).bytes)
    ensures Emit(v).ok
    ensures ReadOptionalCorrected(rule, data, w, off) == Ok(Decoded(v, off + |Emit(v).bytes|))
  {
    if v.o.Some? {
      OptionalCorrectedSome(rule, data, off, v, w);
    } else {
      AbsentRoundTrip(data, off, v);
      ReadCorrectedNone(rule, data, w, off);
    }
  }

  lemma {:induction false} OptionalCorrectedSome(rule: AtEndRule, data: seq<byte>, off: nat, v: Value, w: Shape)
    requires w.Scalar? || w.ArrayOf? || w.RecordOf?
    requires v.Optional? && v.o.Some? && Fits(rule, v.o.value, w)
    requires |data| <= IntMax && At(data, off, Emit(v).bytes)
    ensures Emit(v).ok
    ensures ReadOptionalCorrected(rule, data, w, off) == Ok(Decoded(v, off + |Emit(v).bytes|))
  {
    TagThen(data, off, v);
    OwnRoundTrip(rule, data, off + 1, v.o.value, w);
    ReadCorrectedSome(rule, data, w, off, v, off + |Emit(v).bytes|);
  }

  lemma {:induction false} ReadCorrectedNone(rule: AtEndRule, data: seq<byte>, w: Shape, off: nat)
    requires off < |data| && data[off] == 0x00
    ensures ReadOptionalCorrected(rule, data, w, off) == Ok(Decoded(Optional(None), off + 1))
  {
  }

  lemma {:induction false} ReadCorrectedSome(rule: AtEndRule, data: seq<byte>, w: Shape, off: nat, v: Value, q: nat)
    requires off < |data| && data[off] == 0x01 && (w.Scalar? || w.ArrayOf? || w.RecordOf?)
    requires v.Optional? && v.o.Some? && ReadOwn(rule, data, w, off + 1) == Ok(Decoded(v.o.value, q))
    ensures ReadOptionalCorrected(rule, data, w, off) == Ok(Decoded(v, q))
  {
    assert ReadValue(rule, data, w, off + 1) == ReadOwn(rule, data, w, off + 1);
  }
}
