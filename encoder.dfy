/**
 * `HardpackEncoder` (HardpackEncoder.swift): appends a value's bytes to one
 * growing buffer.  Optionals and `Nullable` wrappers get a presence byte,
 * arrays and dictionaries a `VarInt` count, records their fields in order
 * with no framing, and scalars a fixed little-endian layout or, for
 * strings, a `VarInt` length and the UTF-8 bytes.
 *
 * The functions give the bytes each step appends and whether it throws;
 * the `Encoder` class is the encoder itself, each method proved to append
 * exactly what its function says.
 */
module HardpackEncoder {
  import opened Wire
  import opened Values
  import VarInt
  import Foundation

  /** The bytes a step appends and whether it finishes without throwing. */
  datatype Emitted = Emitted(bytes: seq<byte>, ok: bool)

  function Written(bytes: seq<byte>): Emitted
  {
    Emitted(bytes, true)
  }

  /** Runs `a`, then `b` unless `a` threw. */
  function Then(a: Emitted, b: Emitted): Emitted
  {
    if a.ok then Emitted(a.bytes + b.bytes, b.ok) else a
  }

  /** The little-endian bytes `encodeInteger` writes for `n` of type `k`. */
  function IntegerBytes(k: IntKind, n: int): (bytes: seq<byte>)
    ensures |bytes| == Width(k)
  {
    LittleEndian(Pattern(k, n), Width(k))
  }

  /** A `UInt64` is its eight little-endian bytes. */
  lemma UInt64Bytes(n: nat)
    requires n < UInt64Limit
    ensures IntegerBytes(UInt64, n) == LittleEndian(n, 8)
  {
    ModOfSmall(n, UInt64Limit);
  }

  /**
   * The generic `SingleValueContainer.encode(_:)`: a `switch` over the
   * dynamic type, with nothing for the platform `Int` and `UInt` and for
   * any type not listed.  A `UUID` is its 16 bytes and a `Date` its whole
   * milliseconds since 1970 as a `UInt64`, `None` where that conversion
   * traps.  The casts look through a present `Optional`, which is how
   * `Optional` and `Nullable` hand over their payload.
   */
  function SingleValue(v: Value): Option<seq<byte>>
  {
    match v
    case Var(n) => Some(VarInt.Encoding(n))
    case Integer(k, n) => if k.Int? || k.UInt? then None else Some(IntegerBytes(k, n))
    case Text(u) => Some(VarInt.Encoding(|u|) + u)
    case Float(bits) => Some(LittleEndian(bits, 4))
    case Double(bits) => Some(LittleEndian(bits, 8))
    case Bool(b) => Some([if b then 1 else 0])
    case Uuid(u) => Some(u)
    case Date(interval) =>
      var ms := Foundation.MillisSince1970(interval);
      if ms.Some? then Some(LittleEndian(ms.value, 8)) else None
    case Optional(o) => if o.Some? then SingleValue(o.value) else None
    case _ => None
  }

  function FromSingleValue(bytes: Option<seq<byte>>): Emitted
  {
    if bytes.Some? then Written(bytes.value) else Emitted([], false)
  }

  /**
   * `_HardpackEncoder.encode(_:)`: an absent `Optional` or `Nullable` is a
   * 0x00 byte; a present one is a 0x01 byte followed by its payload.
   */
  function Emit(v: Value): Emitted
    decreases v, 3
  {
    match v
    case Optional(o) => if o.Some? then Then(Written([0x01]), Dispatch(o.value)) else Written([0x00])
    case Nullable(o) => if o.Some? then Then(Written([0x01]), Dispatch(o.value)) else Written([0x00])
    case _ => Dispatch(v)
  }

  /**
   * The `switch` that ends `encode(_:)`: collections are written here, the
   * rest encode themselves.  The `as` casts look through present
   * optionals, so that a present `[Int8]?` inside an `[Int8]??` is written
   * as an array.
   */
  function Dispatch(v: Value): Emitted
    decreases v, 2
  {
    var u := LookThrough(v);
    if u.Array? then EmitArray(u.elements)
    else if u.Dictionary? then EmitDictionary(u.entries)
    else EmitOwn(v)
  }

  /**
   * `value.encode(to: encoder)`: a record writes its fields; `Optional`
   * (the standard library) and `Nullable` (Nullable.swift) write 0x00 when
   * absent and hand a present payload to the single-value container; a
   * scalar hands it what `Handed` says: a `UUID` its `uuidString`, a
   * `Date` its `timeIntervalSinceReferenceDate`, any other scalar itself.
   */
  function EmitOwn(v: Value): Emitted
    requires !v.Array? && !v.Dictionary?
    decreases v, 1
  {
    match v
    case Record(fs) => EmitFields(fs, 0)
    case Optional(o) => if o.Some? then FromSingleValue(SingleValue(o.value)) else Written([0x00])
    case Nullable(o) => if o.Some? then FromSingleValue(SingleValue(Optional(o))) else Written([0x00])
    case _ => FromSingleValue(SingleValue(Handed(v)))
  }

  /** `encodeArray(_:)`: the count as a `VarInt`, then every element. */
  function EmitArray(es: seq<Value>): Emitted
    decreases Array(es), 1
  {
    Then(Written(VarInt.Encoding(|es|)), EmitElements(es, 0))
  }

  function EmitElements(es: seq<Value>, i: nat): Emitted
    requires i <= |es|
    decreases Array(es), 0, |es| - i
  {
    if i == |es| then Written([]) else Then(Emit(es[i]), EmitElements(es, i + 1))
  }

  /** `encodeDictionary(_:)`: the count as a `VarInt`, then each key followed by its value. */
  function EmitDictionary(ps: seq<(Value, Value)>): Emitted
    decreases Dictionary(ps), 1
  {
    Then(Written(VarInt.Encoding(|ps|)), EmitEntries(ps, 0))
  }

  function EmitEntries(ps: seq<(Value, Value)>, i: nat): Emitted
    requires i <= |ps|
    decreases Dictionary(ps), 0, |ps| - i
  {
    if i == |ps| then Written([]) else Then(EmitEntry(ps, i), EmitEntries(ps, i + 1))
  }

  /** One entry: its key, then its value. */
  function EmitEntry(ps: seq<(Value, Value)>, i: nat): Emitted
    requires i < |ps|
    decreases Dictionary(ps), 0, 0
  {
    Then(Emit(ps[i].0), Emit(ps[i].1))
  }

  /**
   * A synthesized `encode(to:)`: one `encode(_:forKey:)` per stored
   * property, which the keyed container passes to `encode(_:)`; a property
   * of optional type goes through `encodeIfPresent`, which writes nothing
   * when it is absent and the bare payload when it is present.
   */
  function EmitFields(fs: seq<Value>, i: nat): Emitted
    requires i <= |fs|
    decreases Record(fs), 0, |fs| - i
  {
    if i == |fs| then Written([]) else Then(EmitField(fs[i]), EmitFields(fs, i + 1))
  }

  function EmitField(f: Value): Emitted
    decreases f, 4
  {
    match f
    case Optional(o) => if o.Some? then Emit(o.value) else Written([])
    case _ => Emit(f)
  }

  /** `HardpackEncoder.encode(_:)`: the buffer, or the error that was thrown. */
  function Encoding(v: Value): Result<seq<byte>>
  {
    if Emit(v).ok then Ok(Emit(v).bytes) else Err(Unsupported)
  }

  // ---------------------------------------------------------------------
  // Sequencing
  // ---------------------------------------------------------------------

  lemma ThenAssociative(a: Emitted, b: Emitted, c: Emitted)
    ensures Then(Then(a, b), c) == Then(a, Then(b, c))
  {
    if a.ok && b.ok {
      assert (a.bytes + b.bytes) + c.bytes == a.bytes + (b.bytes + c.bytes);
    }
  }

  /** Appending what a successful step wrote to what was written before it. */
  lemma ThenWritten(written: seq<byte>, step: Emitted, rest: Emitted)
    ensures step.ok ==> Then(Written(written), Then(step, rest)) == Then(Written(written + step.bytes), rest)
    ensures !step.ok ==> Then(Written(written), Then(step, rest)) == Emitted(written + step.bytes, false)
  {
    if step.ok {
      assert (written + step.bytes) + rest.bytes == written + (step.bytes + rest.bytes);
    }
  }

  lemma FieldsStep(fs: seq<Value>, i: nat, written: seq<byte>)
    requires i < |fs|
    ensures EmitField(fs[i]).ok ==>
      Then(Written(written), EmitFields(fs, i)) == Then(Written(written + EmitField(fs[i]).bytes), EmitFields(fs, i + 1))
    ensures !EmitField(fs[i]).ok ==>
      Then(Written(written), EmitFields(fs, i)) == Emitted(written + EmitField(fs[i]).bytes, false)
  {
    ThenWritten(written, EmitField(fs[i]), EmitFields(fs, i + 1));
  }

  lemma ElementsStep(es: seq<Value>, i: nat, written: seq<byte>)
    requires i < |es|
    ensures Emit(es[i]).ok ==>
      Then(Written(written), EmitElements(es, i)) == Then(Written(written + Emit(es[i]).bytes), EmitElements(es, i + 1))
    ensures !Emit(es[i]).ok ==>
      Then(Written(written), EmitElements(es, i)) == Emitted(written + Emit(es[i]).bytes, false)
  {
    ThenWritten(written, Emit(es[i]), EmitElements(es, i + 1));
  }

  lemma EntriesStep(ps: seq<(Value, Value)>, i: nat, written: seq<byte>)
    requires i < |ps|
    ensures EmitEntry(ps, i).ok ==>
      Then(Written(written), EmitEntries(ps, i)) == Then(Written(written + EmitEntry(ps, i).bytes), EmitEntries(ps, i + 1))
    ensures !EmitEntry(ps, i).ok ==>
      Then(Written(written), EmitEntries(ps, i)) == Emitted(written + EmitEntry(ps, i).bytes, false)
  {
    ThenWritten(written, EmitEntry(ps, i), EmitEntries(ps, i + 1));
  }

  // ---------------------------------------------------------------------
  // The encoder
  // ---------------------------------------------------------------------

  /** `_HardpackEncoder`, with its containers, which only forward to it. */
  class Encoder {
    var data: seq<byte>

    constructor ()
      ensures data == []
    {
      data := [];
    }

    /** `encodeNil()`; both containers' `encodeNil` forward to it. */
    method EncodeNil()
      modifies this
      ensures data == old(data) + [0x00]
    {
      data := data + [0x00];
    }

    method EncodeBool(b: bool)
      modifies this
      ensures data == old(data) + [if b then 0x01 else 0x00]
    {
      data := data + [if b then 0x01 else 0x00];
    }

    method EncodeInteger(k: IntKind, n: int)
      modifies this
      ensures data == old(data) + IntegerBytes(k, n)
    {
      data := data + LittleEndian(Pattern(k, n), Width(k));
    }

    /** `encodeFloat(_:)`: the 32-bit `bitPattern`, little-endian. */
    method EncodeFloat(bits: nat)
      modifies this
      ensures data == old(data) + LittleEndian(bits, 4)
    {
      data := data + LittleEndian(bits, 4);
    }

    /** `encodeDouble(_:)`: the 64-bit `bitPattern`, little-endian. */
    method EncodeDouble(bits: nat)
      modifies this
      ensures data == old(data) + LittleEndian(bits, 8)
    {
      data := data + LittleEndian(bits, 8);
    }

    method EncodeVarInt(x: VarInt.VarInt)
      modifies this
      ensures data == old(data) + x.bytes
    {
      data := data + x.bytes;
    }

    /** `encodeString(_:)`: the byte count as a `VarInt`, then the UTF-8 bytes. */
    method EncodeString(utf8: seq<byte>)
      requires |utf8| < UInt64Limit
      modifies this
      ensures data == old(data) + VarInt.Encoding(|utf8|) + utf8
    {
      var length := VarInt.FromInteger(|utf8|);
      EncodeVarInt(length);
      data := data + utf8;
    }

    method EncodeUuid(uuid: Foundation.UuidBytes)
      modifies this
      ensures data == old(data) + uuid
    {
      data := data + uuid;
    }

    /**
     * `encodeDate(_:)`: whole milliseconds since 1970 as a `UInt64`, for a
     * date whose conversion does not trap.
     */
    method EncodeDate(interval: nat)
      requires Foundation.MillisSince1970(interval).Some?
      modifies this
      ensures data == old(data) + LittleEndian(Foundation.MillisSince1970(interval).value, 8)
    {
      var millis := Foundation.MillisSince1970(interval).value;
      UInt64Bytes(millis);
      EncodeInteger(UInt64, millis);
    }

    /** `SingleValueContainer.encode(_:)`. */
    method EncodeSingle(v: Value) returns (ok: bool)
      requires WellFormed(v)
      modifies this
      ensures ok == SingleValue(v).Some?
      ensures data == old(data) + (if ok then SingleValue(v).value else [])
    {
      match v
      case Var(n) =>
        var x := VarInt.FromInteger(n);
        EncodeVarInt(x);
        ok := true;
      case Integer(k, n) =>
        if k.Int? || k.UInt? {
          ok := false;
        } else {
          EncodeInteger(k, n);
          ok := true;
        }
      case Text(u) =>
        EncodeString(u);
        ok := true;
      case Float(bits) =>
        EncodeFloat(bits);
        ok := true;
      case Double(bits) =>
        EncodeDouble(bits);
        ok := true;
      case Bool(b) =>
        EncodeBool(b);
        ok := true;
      case Uuid(u) =>
        EncodeUuid(u);
        ok := true;
      case Date(interval) =>
        if Foundation.MillisSince1970(interval).Some? {
          EncodeDate(interval);
          ok := true;
        } else {
          ok := false;
        }
      case Optional(o) =>
        if o.Some? {
          ok := EncodeSingle(o.value);
        } else {
          ok := false;
        }
      case Foreign =>
        ok := false;
      case Nullable(_) =>
        ok := false;
      case Array(_) =>
        ok := false;
      case Dictionary(_) =>
        ok := false;
      case Record(_) =>
        ok := false;
    }

    /** `encode(_:)`. */
    method Encode(v: Value) returns (ok: bool)
      requires WellFormed(v)
      modifies this
      ensures data == old(data) + Emit(v).bytes && ok == Emit(v).ok
      decreases v, 4
    {
      if v.Optional? || v.Nullable? {
        if v.o.None? {
          EncodeNil();
          return true;
        }
        // `encode(UInt8(0x01))`, which `UInt8` writes through the single-value container
        EncodeInteger(UInt8, 1);
        assert IntegerBytes(UInt8, 1) == [0x01];
        ok := Switch(v.o.value);
      } else {
        ok := Switch(v);
      }
    }

    /** The `switch` that ends `encode(_:)`, its casts looking through present optionals. */
    method Switch(v: Value) returns (ok: bool)
      requires WellFormed(v)
      modifies this
      ensures data == old(data) + Dispatch(v).bytes && ok == Dispatch(v).ok
      decreases v, 3
    {
      var u := LookThrough(v);
      LookThroughWellFormed(v);
      if u.Array? {
        ok := EncodeArray(u.elements);
      } else if u.Dictionary? {
        ok := EncodeDictionary(u.entries);
      } else {
        ok := EncodeTo(v);
      }
    }

    /**
     * `encodeOptional(_:)`: writes the tag itself, then the payload with
     * `encode(_:)`.  Nothing in the encoder calls it; optionals get their
     * tag from `encode(_:)`.
     */
    method EncodeOptional(o: Option<Value>) returns (ok: bool)
      requires o.Some? ==> WellFormed(o.value)
      modifies this
      ensures o.None? ==> data == old(data) + [0x00] && ok
      ensures o.Some? ==> data == old(data) + [0x01] + Emit(o.value).bytes && ok == Emit(o.value).ok
    {
      if o.Some? {
        data := data + [0x01];
        ok := Encode(o.value);
      } else {
        EncodeNil();
        ok := true;
      }
    }

    /** `encodeArray(_:)`. */
    method EncodeArray(es: seq<Value>) returns (ok: bool)
      requires WellFormed(Array(es))
      modifies this
      ensures data == old(data) + EmitArray(es).bytes && ok == EmitArray(es).ok
      decreases Array(es), 1
    {
      var count := VarInt.FromInteger(|es|);
      EncodeVarInt(count);
      ghost var written := count.bytes;
      var i := 0;
      while i < |es|
        invariant 0 <= i <= |es|
        invariant data == old(data) + written
        invariant EmitArray(es) == Then(Written(written), EmitElements(es, i))
      {
        ok := EncodeElement(es, i);
        ElementsStep(es, i, written);
        if !ok {
          return;
        }
        written := written + Emit(es[i]).bytes;
        i := i + 1;
      }
      ok := true;
    }

    /** The body of the loop in `encodeArray(_:)`: `encode(element)`. */
    method EncodeElement(es: seq<Value>, i: nat) returns (ok: bool)
      requires WellFormed(Array(es)) && i < |es|
      modifies this
      ensures data == old(data) + Emit(es[i]).bytes && ok == Emit(es[i]).ok
      decreases Array(es), 0
    {
      ok := Encode(es[i]);
    }

    /** `encodeDictionary(_:)`: the keys and the values as two arrays, then pairwise. */
    method EncodeDictionary(ps: seq<(Value, Value)>) returns (ok: bool)
      requires WellFormed(Dictionary(ps))
      modifies this
      ensures data == old(data) + EmitDictionary(ps).bytes && ok == EmitDictionary(ps).ok
      decreases Dictionary(ps), 1
    {
      var count := VarInt.FromInteger(|ps|);
      EncodeVarInt(count);
      ghost var written := count.bytes;
      var index := 0;
      while index < |ps|
        invariant 0 <= index <= |ps|
        invariant data == old(data) + written
        invariant EmitDictionary(ps) == Then(Written(written), EmitEntries(ps, index))
      {
        ok := EncodeEntry(ps, index);
        EntriesStep(ps, index, written);
        if !ok {
          return;
        }
        written := written + EmitEntry(ps, index).bytes;
        index := index + 1;
      }
      ok := true;
    }

    /** The body of the loop in `encodeDictionary(_:)`: `encode(key)`, then `encode(value)`. */
    method EncodeEntry(ps: seq<(Value, Value)>, i: nat) returns (ok: bool)
      requires WellFormed(Dictionary(ps)) && i < |ps|
      modifies this
      ensures data == old(data) + EmitEntry(ps, i).bytes && ok == EmitEntry(ps, i).ok
      decreases Dictionary(ps), 0, 0
    {
      var (key, value) := ps[i];
      ok := Encode(key);
      if ok {
        ok := Encode(value);
      }
    }

    /** `value.encode(to: self)` for a value that is not a collection. */
    method EncodeTo(v: Value) returns (ok: bool)
      requires WellFormed(v) && !v.Array? && !v.Dictionary?
      modifies this
      ensures data == old(data) + EmitOwn(v).bytes && ok == EmitOwn(v).ok
      decreases v, 2
    {
      if v.Record? {
        ok := EncodeFields(v.fields);
      } else if v.Optional? || v.Nullable? {
        // `Optional.encode(to:)` and `Nullable.encode(to:)`: both hand the optional to the container
        if v.o.Some? {
          ok := EncodeSingle(Optional(v.o));
        } else {
          EncodeNil();
          ok := true;
        }
      } else {
        // the scalar's own `encode(to:)`
        HandedWellFormed(v);
        ok := EncodeSingle(Handed(v));
      }
    }

    /** A synthesized `encode(to:)`: the keyed container, then each stored property in turn. */
    method EncodeFields(fs: seq<Value>) returns (ok: bool)
      requires WellFormed(Record(fs))
      modifies this
      ensures data == old(data) + EmitFields(fs, 0).bytes && ok == EmitFields(fs, 0).ok
      decreases Record(fs), 1
    {
      ghost var written := [];
      var i := 0;
      while i < |fs|
        invariant 0 <= i <= |fs|
        invariant data == old(data) + written
        invariant EmitFields(fs, 0) == Then(Written(written), EmitFields(fs, i))
      {
        ok := EncodeField(fs, i);
        FieldsStep(fs, i, written);
        if !ok {
          return;
        }
        written := written + EmitField(fs[i]).bytes;
        i := i + 1;
      }
      ok := true;
    }

    /**
     * One stored property: `encode(_:forKey:)`, which the keyed container
     * passes to `encode(_:)`, or for a property of optional type
     * `encodeIfPresent(_:forKey:)`.
     */
    method EncodeField(fs: seq<Value>, i: nat) returns (ok: bool)
      requires WellFormed(Record(fs)) && i < |fs|
      modifies this
      ensures data == old(data) + EmitField(fs[i]).bytes && ok == EmitField(fs[i]).ok
      decreases Record(fs), 0
    {
      var f := fs[i];
      if f.Optional? {
        if f.o.Some? {
          ok := Encode(f.o.value);
        } else {
          ok := true;
        }
      } else {
        ok := Encode(f);
      }
    }
  }

  /** `HardpackEncoder.encode(_:)`: a fresh encoder, one `encode(_:)`, its buffer. */
  method EncodeValue(v: Value) returns (r: Result<seq<byte>>)
    requires WellFormed(v)
    ensures r == Encoding(v)
  {
    var encoder := new Encoder();
    var ok := encoder.Encode(v);
    if !ok {
      return Err(Unsupported);
    }
    assert encoder.data == Emit(v).bytes;
    return Ok(encoder.data);
  }
}
