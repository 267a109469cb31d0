/**
 * `OldHardpackEncoder` (OldHardpackEncoder.swift): the first version of
 * the encoder, which frames arrays differently.
 *
 * It writes to `data` and keeps a list of pending array elements.  An
 * array's `encode(to:)` asks for an unkeyed container and hands every
 * element to a fresh encoder, whose output joins the pending list; the
 * list is written out (its count as a `VarInt`, then the elements in
 * order) only when the next container is requested or the top-level
 * `encode` finishes.  An empty list writes nothing, so an empty array
 * leaves no trace.  Optionals get no presence byte beyond the 0x00 of an
 * absent one, and the platform `Int` and `UInt` are written as 8 bytes.
 *
 * `Run` and `Top` say what the encoder does to its state and what it
 * returns; the `Encoder` class is the encoder itself.
 */
module OldHardpack {
  import opened Wire
  import opened Values
  import Foundation
  import VarInt
  import HardpackEncoder
  import HardpackDecoder
  import RoundTrip

  /** The encoder's two fields: the bytes written and the pending array elements. */
  datatype State = State(data: seq<byte>, pending: seq<seq<byte>>)

  /** The bytes of `parts`, one after the other. */
  function Concat(parts: seq<seq<byte>>): seq<byte>
  {
    if parts == [] then [] else parts[0] + Concat(parts[1..])
  }

  /**
   * `encodeArray()`: a non-empty pending list is written as its count and
   * its elements in order, and emptied; an empty one changes nothing.
   */
  function Flushed(st: State): State
  {
    if st.pending == [] then st
    else State(st.data + VarInt.Encoding(|st.pending|) + Concat(st.pending), [])
  }

  /**
   * `SingleValueContainer.encode(_:)`: the casts in source order, `Bool`
   * first, then every `FixedWidthInteger` (the platform words included),
   * then the other scalars; anything else throws.  A `UUID` is its 16
   * bytes and a `Date` its whole milliseconds since 1970 as a `UInt64`,
   * `None` where that conversion traps.  The casts look through a present
   * `Optional`.
   */
  function ValueBytes(x: Value): Option<seq<byte>>
  {
    match x
    case Bool(b) => Some([if b then 0x01 else 0x00])
    case Integer(k, n) => Some(HardpackEncoder.IntegerBytes(k, n))
    case Var(n) => Some(VarInt.Encoding(n))
    case Float(bits) => Some(LittleEndian(bits, 4))
    case Double(bits) => Some(LittleEndian(bits, 8))
    case Text(u) => Some(VarInt.Encoding(|u|) + u)
    case Uuid(u) => Some(u)
    case Date(interval) =>
      var ms := Foundation.MillisSince1970(interval);
      if ms.Some? then Some(LittleEndian(ms.value, 8)) else None
    case Optional(o) => if o.Some? then ValueBytes(o.value) else None
    case _ => None
  }

  /** Appends what the single-value container wrote, or throws. */
  function Put(st: State, bytes: Option<seq<byte>>): (r: Result<State>)
    ensures r.Err? ==> r.error == Unsupported
  {
    if bytes.Some? then Ok(State(st.data + bytes.value, st.pending)) else Err(Unsupported)
  }

  /**
   * The values the model covers: a dictionary is only covered where the
   * top-level `encode` (or an array element's fresh encoder) catches it;
   * one reached through `encode(to:)` would run the standard library's
   * own `Dictionary.encode(to:)`.
   */
  predicate InScope(v: Value)
    decreases v, 1
  {
    match v
    case Dictionary(_) => false
    case Array(es) => forall i | 0 <= i < |es| :: es[i].Dictionary? || InScope(es[i])
    case Record(fs) => forall i | 0 <= i < |fs| :: FieldInScope(fs[i])
    case _ => true
  }

  predicate FieldInScope(f: Value)
    decreases f, 2
  {
    if f.Optional? && f.o.Some? then InScope(f.o.value) else InScope(f)
  }

  /**
   * `value.encode(to: encoder)` from state `st`.  Every conformance asks
   * for a container first, which flushes the pending list: an array asks
   * for an unkeyed one and queues its elements, a record a keyed one and
   * writes its properties, `Optional` (the standard library) and
   * `Nullable` (Nullable.swift) a single-value one, and write 0x00 when
   * absent and their payload through `encode(_:)` when present; a scalar
   * hands `encode(_:)` what `Handed` says, so that a `UUID` is written as
   * its `uuidString` and a `Date` as its `timeIntervalSinceReferenceDate`.
   */
  function Run(v: Value, st: State): (r: Result<State>)
    requires InScope(v)
    ensures r.Err? ==> r.error == Unsupported
    decreases v, 1
  {
    var s := Flushed(st);
    match v
    case Array(es) => RunElements(es, 0, s)
    case Record(fs) => RunFields(fs, 0, s)
    case Optional(o) => if o.Some? then Put(s, ValueBytes(o.value)) else Ok(State(s.data + [0x00], s.pending))
    case Nullable(o) => if o.Some? then Put(s, ValueBytes(Optional(o))) else Ok(State(s.data + [0x00], s.pending))
    case _ => Put(s, ValueBytes(Handed(v)))
  }

  /** `UnkeyedContainer.encode(_:)` for each element: a fresh encoder's output joins the pending list. */
  function RunElements(es: seq<Value>, i: nat, st: State): (r: Result<State>)
    requires i <= |es| && InScope(Array(es))
    ensures r.Ok? ==> r.value.data == st.data && |r.value.pending| == |st.pending| + |es| - i
    ensures r.Err? ==> r.error == Unsupported
    decreases Array(es), 0, |es| - i
  {
    if i == |es| then Ok(st)
    else
      match Top(es[i])
      case Err(e) => Err(e)
      case Ok(bytes) => RunElements(es, i + 1, State(st.data, st.pending + [bytes]))
  }

  /** The synthesized `encode(to:)`: each stored property in order through the keyed container. */
  function RunFields(fs: seq<Value>, i: nat, st: State): (r: Result<State>)
    requires i <= |fs| && InScope(Record(fs))
    ensures r.Err? ==> r.error == Unsupported
    decreases Record(fs), 0, |fs| - i
  {
    if i == |fs| then Ok(st)
    else
      match RunField(fs[i], st)
      case Err(e) => Err(e)
      case Ok(next) => RunFields(fs, i + 1, next)
  }

  /**
   * One property: `encode(_:forKey:)`, which runs the value's own
   * `encode(to:)` on the same encoder; a property of optional type goes
   * through `encodeIfPresent`, which skips an absent one.
   */
  function RunField(f: Value, st: State): (r: Result<State>)
    requires FieldInScope(f)
    ensures r.Err? ==> r.error == Unsupported
    decreases f, 2
  {
    if f.Optional? then (if f.o.Some? then Run(f.o.value, st) else Ok(st))
    else Run(f, st)
  }

  /**
   * `_HardpackEncoder.encode(_:)`: from empty fields, a dictionary is
   * skipped (the `is` test looks through a present `Optional`, so an
   * optional dictionary is skipped too) and anything else encodes itself;
   * the pending list is flushed and `data` returned.
   */
  function Top(v: Value): (r: Result<seq<byte>>)
    requires v.Dictionary? || InScope(v)
    ensures r.Err? ==> r.error == Unsupported
    decreases v, 2
  {
    if LookThrough(v).Dictionary? then Ok(Flushed(State([], [])).data)
    else
      match Run(v, State([], []))
      case Err(e) => Err(e)
      case Ok(st) => Ok(Flushed(st).data)
  }

  // ---------------------------------------------------------------------
  // The encoder
  // ---------------------------------------------------------------------

  /** `_HardpackEncoder`, with its containers, which only forward to it. */
  class Encoder {
    var data: seq<byte>
    var pending: seq<seq<byte>>

    /** Swift counts the pending list with an `Int`. */
    predicate Valid()
      reads this
    {
      |pending| <= IntMax
    }

    function Current(): State
      reads this
    {
      State(data, pending)
    }

    constructor ()
      ensures Valid() && data == [] && pending == []
    {
      data := [];
      pending := [];
    }

    /** `encodeArray()`, which every container request calls first. */
    method Flush()
      requires Valid()
      modifies this
      ensures Valid() && Current() == Flushed(old(Current()))
    {
      if pending != [] {
        var parts := pending;
        var count := VarInt.FromInteger(|parts|);
        data := data + count.bytes;
        ghost var start := data;
        for i := 0 to |parts|
          invariant data == start + Concat(parts[..i])
        {
          ConcatSnoc(parts[..i], parts[i]);
          assert parts[..i + 1] == parts[..i] + [parts[i]];
          data := data + parts[i];
        }
        assert parts[..|parts|] == parts;
        pending := [];
      }
    }

    /** `SingleValueContainer.encodeNil()`. */
    method EncodeNil()
      modifies this
      ensures data == old(data) + [0x00] && pending == old(pending)
    {
      data := data + [0x00];
    }

    /** `SingleValueContainer.encode(_:)` and the scalar writers it calls. */
    method EncodeSingle(x: Value) returns (ok: bool)
      requires WellFormed(x)
      modifies this
      ensures ok == ValueBytes(x).Some? && pending == old(pending)
      ensures data == old(data) + (if ok then ValueBytes(x).value else [])
    {
      match x
      case Bool(b) =>
        data := data + [if b then 0x01 else 0x00];
        ok := true;
      case Integer(k, n) =>
        data := data + LittleEndian(Pattern(k, n), Width(k));
        ok := true;
      case Var(n) =>
        var varInt := VarInt.FromInteger(n);
        data := data + varInt.bytes;
        ok := true;
      case Float(bits) =>
        data := data + LittleEndian(bits, 4);
        ok := true;
      case Double(bits) =>
        data := data + LittleEndian(bits, 8);
        ok := true;
      case Text(u) =>
        var length := VarInt.FromInteger(|u|);
        data := data + length.bytes + u;
        ok := true;
      case Uuid(u) =>
        data := data + u;
        ok := true;
      case Date(interval) =>
        var ms := Foundation.MillisSince1970(interval);
        if ms.Some? {
          data := data + LittleEndian(ms.value, 8);
          ok := true;
        } else {
          ok := false;
        }
      case Optional(o) =>
        if o.Some? {
          ok := EncodeSingle(o.value);
        } else {
          ok := false;
        }
      case Foreign =>
        ok := false;
      case Nullable(_) =>
        ok := false;
      case Array(_) =>
        ok := false;
      case Dictionary(_) =>
        ok := false;
      case Record(_) =>
        ok := false;
    }

    /** `value.encode(to: self)`. */
    method EncodeTo(v: Value) returns (ok: bool)
      requires Valid() && WellFormed(v) && InScope(v)
      modifies this
      ensures Valid()
      ensures ok == Run(v, old(Current())).Ok?
      ensures ok ==> Current() == Run(v, old(Current())).value
      decreases v, 1
    {
      Flush();
      if v.Array? {
        ok := EncodeElements(v.elements);
      } else if v.Record? {
        ok := EncodeFields(v.fields);
      } else if v.Optional? || v.Nullable? {
        if v.o.None? {
          EncodeNil();
          ok := true;
        } else if v.Optional? {
          ok := EncodeSingle(v.o.value);
        } else {
          // `Nullable` hands over its `Optional` wrapped value
          ok := EncodeSingle(Optional(v.o));
        }
      } else {
        HandedWellFormed(v);
        ok := EncodeSingle(Handed(v));
      }
    }

    /** `Array.encode(to:)` after its unkeyed container is granted: every element in order. */
    method EncodeElements(es: seq<Value>) returns (ok: bool)
      requires Valid() && pending == [] && WellFormed(Array(es)) && InScope(Array(es))
      modifies this
      ensures Valid()
      ensures ok == RunElements(es, 0, old(Current())).Ok?
      ensures ok ==> Current() == RunElements(es, 0, old(Current())).value
      decreases Array(es), 0
    {
      var i := 0;
      while i < |es|
        invariant 0 <= i <= |es| && |pending| == i
        invariant RunElements(es, 0, old(Current())) == RunElements(es, i, Current())
      {
        ok := EncodeElement(es, i);
        if !ok {
          return;
        }
        i := i + 1;
      }
      ok := true;
    }

    /** `UnkeyedContainer.encode(_:)`: a fresh encoder encodes the element, and its bytes join the pending list. */
    method EncodeElement(es: seq<Value>, i: nat) returns (ok: bool)
      requires i < |es| && WellFormed(Array(es)) && InScope(Array(es))
      modifies this
      ensures data == old(data)
      ensures ok == Top(es[i]).Ok?
      ensures pending == old(pending) + (if ok then [Top(es[i]).value] else [])
      decreases Array(es), 0, 0
    {
      var encoder := new Encoder();
      var r := encoder.Encode(es[i]);
      if r.Err? {
        return false;
      }
      pending := pending + [r.value];
      ok := true;
    }

    /** The synthesized `encode(to:)` after its keyed container is granted. */
    method EncodeFields(fs: seq<Value>) returns (ok: bool)
      requires Valid() && WellFormed(Record(fs)) && InScope(Record(fs))
      modifies this
      ensures Valid()
      ensures ok == RunFields(fs, 0, old(Current())).Ok?
      ensures ok ==> Current() == RunFields(fs, 0, old(Current())).value
      decreases Record(fs), 0
    {
      var i := 0;
      while i < |fs|
        invariant 0 <= i <= |fs| && Valid()
        invariant RunFields(fs, 0, old(Current())) == RunFields(fs, i, Current())
      {
        ok := EncodeField(fs[i]);
        if !ok {
          return;
        }
        i := i + 1;
      }
      ok := true;
    }

    /** `encode(_:forKey:)`, or `encodeIfPresent(_:forKey:)` for a property of optional type. */
    method EncodeField(f: Value) returns (ok: bool)
      requires Valid() && WellFormed(f) && FieldInScope(f)
      modifies this
      ensures Valid()
      ensures ok == RunField(f, old(Current())).Ok?
      ensures ok ==> Current() == RunField(f, old(Current())).value
      decreases f, 2
    {
      if f.Optional? {
        if f.o.Some? {
          ok := EncodeTo(f.o.value);
        } else {
          ok := true;
        }
      } else {
        ok := EncodeTo(f);
      }
    }

    /** `_HardpackEncoder.encode(_:)`: whatever the fields held before, the result is `Top(v)`. */
    method Encode(v: Value) returns (r: Result<seq<byte>>)
      requires WellFormed(v) && (v.Dictionary? || InScope(v))
      modifies this
      ensures Valid()
      ensures r == Top(v)
      decreases v, 2
    {
      data := [];
      pending := [];
      if !LookThrough(v).Dictionary? {
        var ok := EncodeTo(v);
        if !ok {
          return Err(Unsupported);
        }
      }
      Flush();
      return Ok(data);
    }
  }

  /** `OldHardpackEncoder.encode(_:)`: a fresh `_HardpackEncoder` encodes `v`. */
  method EncodeValue(v: Value) returns (r: Result<seq<byte>>)
    requires WellFormed(v) && (v.Dictionary? || InScope(v))
    ensures r == Top(v)
  {
    var encoder := new Encoder();
    r := encoder.Encode(v);
  }

  // ---------------------------------------------------------------------
  // Properties
  // ---------------------------------------------------------------------

  lemma {:induction false} ConcatSnoc(parts: seq<seq<byte>>, last: seq<byte>)
    ensures Concat(parts + [last]) == Concat(parts) + last
  {
    if parts == [] {
      assert [] + [last] == [last];
      assert Concat([last]) == last + Concat([]);
    } else {
      assert (parts + [last])[1..] == parts[1..] + [last];
      ConcatSnoc(parts[1..], last);
      assert Concat(parts + [last]) == parts[0] + Concat(parts[1..] + [last]);
    }
  }

  /** Requesting a container twice in a row flushes once: the second flush finds nothing pending. */
  lemma {:induction false} FlushIdempotent(st: State)
    ensures Flushed(Flushed(st)) == Flushed(st)
    ensures Flushed(st).pending == []
  {
    if st.pending != [] {
      assert Flushed(st).pending == [];
    }
  }

  /** Whatever is pending when a value starts encoding is written before any of its bytes. */
  lemma ContainerRequestFlushes(v: Value, st: State)
    requires InScope(v)
    ensures Run(v, st) == Run(v, Flushed(st))
  {
    FlushIdempotent(st);
  }

  /**
   * An array with no elements leaves nothing pending and so writes no
   * count: encoding it does exactly what requesting a container does.
   */
  lemma EmptyArrayVanishes(st: State)
    ensures Run(Array([]), st) == Ok(Flushed(st))
    ensures Top(Array([])) == Ok([])
    ensures HardpackEncoder.Encoding(Array([])) == Ok([0x00])
  {
    assert VarInt.Encoding(0) == [0x00];
    assert HardpackEncoder.EmitElements([], 0) == HardpackEncoder.Written([]);
    assert HardpackEncoder.Emit(Array([])) == HardpackEncoder.Dispatch(Array([])) == HardpackEncoder.EmitArray([])
        == HardpackEncoder.Written([0x00]);
  }

  /** A top-level dictionary, present optionals of it included, encodes to no bytes at all. */
  lemma TopLevelDictionary(ps: seq<(Value, Value)>, v: Value)
    requires LookThrough(v) == Dictionary(ps)
    ensures Top(v) == Ok([])
    ensures Top(Optional(Some(v))) == Ok([])
  {
  }

  /**
   * The platform words are written as 8 little-endian bytes, which the
   * current encoder refuses.
   */
  lemma PlatformIntegers(k: IntKind, n: int)
    requires k.Int? || k.UInt?
    ensures Top(Integer(k, n)) == Ok(LittleEndian(Pattern(k, n), 8))
    ensures HardpackEncoder.Encoding(Integer(k, n)) == Err(Unsupported)
  {
    var v := Integer(k, n);
    assert [] + HardpackEncoder.IntegerBytes(k, n) == LittleEndian(Pattern(k, n), 8);
    assert Run(v, State([], [])) == Ok(State(LittleEndian(Pattern(k, n), 8), []));
    assert HardpackEncoder.Emit(v) == HardpackEncoder.Dispatch(v) == HardpackEncoder.EmitOwn(v) == HardpackEncoder.Emitted([], false);
  }

  /**
   * A present `Optional` of a scalar is written without the 0x01 tag the
   * current encoder puts before it, and through the container's own
   * writer: a `UUID` as its 16 bytes and a `Date` as milliseconds, where
   * the current encoder hands the scalar its own `encode(to:)`.  For the
   * other scalars the payloads are the same.
   */
  lemma OptionalHasNoTag(x: Value)
    requires Plain(x) && !x.Array? && !x.Record?
    ensures Top(Optional(Some(x))) == (if ValueBytes(x).Some? then Ok(ValueBytes(x).value) else Err(Unsupported))
    ensures ValueBytes(x).None? ==> x.Date?
    ensures HardpackEncoder.Encoding(Optional(Some(x))) == Ok([0x01] + ValueBytes(Handed(x)).value)
    ensures !x.Uuid? && !x.Date? ==> ValueBytes(Handed(x)) == ValueBytes(x)
  {
    var bytes := HardpackEncoder.SingleValue(Handed(x)).value;
    assert ValueBytes(Handed(x)) == Some(bytes);
    if ValueBytes(x).Some? {
      assert [] + ValueBytes(x).value == ValueBytes(x).value;
      assert Run(Optional(Some(x)), State([], [])) == Ok(State(ValueBytes(x).value, []));
    }
    assert HardpackEncoder.Dispatch(x) == HardpackEncoder.EmitOwn(x) == HardpackEncoder.Written(bytes);
    assert HardpackEncoder.Emit(Optional(Some(x)))
        == HardpackEncoder.Then(HardpackEncoder.Written([0x01]), HardpackEncoder.Dispatch(x))
        == HardpackEncoder.Written([0x01] + bytes);
  }

  /**
   * The values on which the two encoders agree: scalars the current
   * encoder writes, arrays with at least one element, and records whose
   * properties are such values or optionals of them.
   */
  predicate Plain(v: Value)
    decreases v, 1
  {
    match v
    case Array(es) => |es| > 0 && forall i | 0 <= i < |es| :: Plain(es[i])
    case Record(fs) => forall i | 0 <= i < |fs| :: PlainField(fs[i])
    case _ => HardpackEncoder.SingleValue(Handed(v)).Some? && !v.Optional?
  }

  predicate PlainField(f: Value)
    decreases f, 2
  {
    if f.Optional? then f.o.Some? ==> Plain(f.o.value) else Plain(f)
  }

  lemma {:induction false} PlainInScope(v: Value)
    requires Plain(v)
    ensures InScope(v)
    decreases v, 1
  {
    match v
    case Array(es) =>
      forall i | 0 <= i < |es|
        ensures InScope(es[i])
      {
        PlainInScope(es[i]);
      }
    case Record(fs) =>
      forall i | 0 <= i < |fs|
        ensures FieldInScope(fs[i])
      {
        PlainFieldInScope(fs[i]);
      }
    case _ =>
  }

  lemma {:induction false} PlainFieldInScope(f: Value)
    requires PlainField(f)
    ensures FieldInScope(f)
    decreases f, 2
  {
    if f.Optional? {
      if f.o.Some? {
        PlainInScope(f.o.value);
      }
    } else {
      PlainInScope(f);
    }
  }

  /**
   * On a plain value the old encoder, once its pending list is flushed,
   * has written exactly what the current encoder writes, after whatever
   * it had written and queued before.
   */
  lemma {:induction false} PlainRun(v: Value, st: State)
    requires Plain(v)
    ensures InScope(v) && HardpackEncoder.Emit(v).ok && Run(v, st).Ok?
    ensures Flushed(Run(v, st).value) == State(Flushed(st).data + HardpackEncoder.Emit(v).bytes, [])
    decreases v, 1
  {
    PlainInScope(v);
    FlushIdempotent(st);
    var s := Flushed(st);
    if v.Array? {
      var es := v.elements;
      ElementsRun(es, 0, s);
      var after := RunElements(es, 0, s).value;
      assert HardpackEncoder.Emit(v) == HardpackEncoder.Dispatch(v) == HardpackEncoder.EmitArray(es);
      assert Flushed(after).data == s.data + (VarInt.Encoding(|es|) + Concat(after.pending));
    } else if v.Record? {
      FieldsRun(v.fields, 0, s);
      assert HardpackEncoder.Emit(v) == HardpackEncoder.Dispatch(v) == HardpackEncoder.EmitOwn(v);
    } else {
      assert ValueBytes(Handed(v)) == HardpackEncoder.SingleValue(Handed(v));
      assert HardpackEncoder.Emit(v) == HardpackEncoder.Dispatch(v) == HardpackEncoder.EmitOwn(v);
    }
  }

  /** The elements queue their encodings, which together are what the current encoder writes after the count. */
  lemma {:induction false} ElementsRun(es: seq<Value>, i: nat, st: State)
    requires i <= |es| && InScope(Array(es))
    requires forall j | i <= j < |es| :: Plain(es[j])
    ensures HardpackEncoder.EmitElements(es, i).ok && RunElements(es, i, st).Ok?
    ensures RunElements(es, i, st).value.data == st.data
    ensures |RunElements(es, i, st).value.pending| == |st.pending| + |es| - i
    ensures Concat(RunElements(es, i, st).value.pending) == Concat(st.pending) + HardpackEncoder.EmitElements(es, i).bytes
    decreases Array(es), 0, |es| - i
  {
    if i == |es| {
      assert Concat(st.pending) + [] == Concat(st.pending);
    } else {
      var x := es[i];
      PlainRun(x, State([], []));
      var bytes := HardpackEncoder.Emit(x).bytes;
      assert Flushed(State([], [])) == State([], []);
      assert [] + bytes == bytes;
      assert Top(x) == Ok(bytes);
      var next := State(st.data, st.pending + [bytes]);
      ElementsRun(es, i + 1, next);
      ConcatSnoc(st.pending, bytes);
      var rest := HardpackEncoder.EmitElements(es, i + 1).bytes;
      assert Concat(st.pending) + bytes + rest == Concat(st.pending) + (bytes + rest);
    }
  }

  /** The properties write, in order, what the current encoder writes for them. */
  lemma {:induction false} FieldsRun(fs: seq<Value>, i: nat, st: State)
    requires i <= |fs| && InScope(Record(fs))
    requires forall j | i <= j < |fs| :: PlainField(fs[j])
    ensures HardpackEncoder.EmitFields(fs, i).ok && RunFields(fs, i, st).Ok?
    ensures Flushed(RunFields(fs, i, st).value) == State(Flushed(st).data + HardpackEncoder.EmitFields(fs, i).bytes, [])
    decreases Record(fs), 0, |fs| - i
  {
    if i == |fs| {
      assert Flushed(st).data + [] == Flushed(st).data;
    } else {
      var f := fs[i];
      var x := if f.Optional? && f.o.Some? then f.o.value else f;
      var rest := HardpackEncoder.EmitFields(fs, i + 1);
      if f.Optional? && f.o.None? {
        FieldsRun(fs, i + 1, st);
        assert HardpackEncoder.EmitField(f) == HardpackEncoder.Written([]);
        assert [] + rest.bytes == rest.bytes;
      } else {
        PlainRun(x, st);
        var next := Run(x, st).value;
        assert RunField(f, st) == Run(x, st);
        FieldsRun(fs, i + 1, next);
        FlushIdempotent(next);
        assert HardpackEncoder.EmitField(f) == HardpackEncoder.Emit(x);
        var bytes := HardpackEncoder.Emit(x).bytes;
        assert Flushed(st).data + bytes + rest.bytes == Flushed(st).data + (bytes + rest.bytes);
      }
    }
  }

  /**
   * On every plain value the two encoders produce the same bytes; they
   * differ on empty arrays, present optionals outside records and the
   * platform integers (the lemmas above).
   */
  lemma EncodersAgree(v: Value)
    requires Plain(v)
    ensures v.Dictionary? || InScope(v)
    ensures Top(v) == HardpackEncoder.Encoding(v) && Top(v).Ok?
  {
    PlainRun(v, State([], []));
    assert Flushed(State([], [])) == State([], []);
    assert [] + HardpackEncoder.Emit(v).bytes == HardpackEncoder.Emit(v).bytes;
  }

  /**
   * What the old encoder writes for a plain value, the current decoder
   * reads back as that value.
   */
  lemma OldOutputDecodes(rule: HardpackDecoder.AtEndRule, v: Value, s: Shape)
    requires Plain(v) && RoundTrip.Fits(rule, v, s) && |HardpackEncoder.Emit(v).bytes| <= IntMax
    ensures v.Dictionary? || InScope(v)
    ensures Top(v).Ok? && HardpackDecoder.ReadValue(rule, Top(v).value, s, 0) == Ok(Decoded(v, |Top(v).value|))
  {
    EncodersAgree(v);
    var bytes := HardpackEncoder.Emit(v).bytes;
    RoundTrip.EncodeDecode(rule, v, s, []);
    assert bytes + [] == bytes;
  }

  /**
   * An empty array property vanishes from the old encoder's output, and
   * the current decoder then takes the next property's byte for the
   * array's count.
   */
  lemma EmptyArrayPropertyIsMisread(rule: HardpackDecoder.AtEndRule)
    ensures Top(Record([Array([]), Integer(UInt8, 5)])) == Ok([0x05])
    ensures HardpackDecoder.ReadValue(rule, [0x05], RecordOf([ArrayOf(Scalar(IntegerKind(UInt8))), Scalar(IntegerKind(UInt8))]), 0)
         == Err(UnexpectedEndOfData)
  {
    var v := Record([Array([]), Integer(UInt8, 5)]);
    var empty := State([], []);
    assert Run(Array([]), empty) == Ok(empty);
    assert HardpackEncoder.IntegerBytes(UInt8, 5) == [0x05];
    assert ValueBytes(Integer(UInt8, 5)) == Some([0x05]);
    assert empty.data + [0x05] == [0x05];
    assert Run(Integer(UInt8, 5), empty) == Ok(State([0x05], []));
    assert RunFields(v.fields, 2, State([0x05], [])) == Ok(State([0x05], []));
    assert RunFields(v.fields, 1, empty) == Ok(State([0x05], []));
    assert Run(v, empty) == Ok(State([0x05], []));

    var data: seq<byte> := [0x05];
    var e := Scalar(IntegerKind(UInt8));
    var fs := [ArrayOf(e), e];
    assert VarInt.Read(data) == VarInt.Done(5, 1);
    assert HardpackDecoder.ReadCount(data, 0) == Ok(Decoded(5, 1));
    assert HardpackDecoder.ReadValue(rule, data, e, 1) == Err(UnexpectedEndOfData);
    assert HardpackDecoder.ReadElements(rule, data, e, 5, 0, false, 1) == Err(UnexpectedEndOfData);
    assert HardpackDecoder.ReadArray(rule, data, e, 0) == Err(UnexpectedEndOfData);
    assert HardpackDecoder.ReadValue(rule, data, fs[0], 0) == Err(UnexpectedEndOfData);
    assert HardpackDecoder.ReadFields(rule, data, fs, 0, 0) == Err(UnexpectedEndOfData);
  }
}
