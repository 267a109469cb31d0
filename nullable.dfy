/**
 * The `Nullable` property wrapper (Nullable.swift): an optional stored
 * property written with a presence tag, which is what lets a record refer
 * to another value of its own type.
 *
 * The presence tag is the encoder's doing: `Nullable` conforms to
 * `EncodableOptional`, so `encode(_:)` unwraps it before anything else,
 * writes 0x00 for an absent value, and for a present one writes 0x01 and
 * then dispatches on the wrapped value.  The wrapper's own `encode(to:)`,
 * which writes the payload alone through the single-value container, is
 * not reached for a `Nullable` property; it is reached only for a
 * `Nullable` held by a present `Optional`, after the optional's tag.  `init(from:)` asks the single-value
 * container's lenient `decodeNil()` first and then runs the payload type's
 * own `init(from:)` on the same decoder.
 */
module NullableWrapper {
  import opened Wire
  import opened Values
  import opened HardpackEncoder
  import opened HardpackDecoder
  import RoundTrip

  /** `encode(_:)` on a wrapper: an absent value is the single byte 0x00; a present one is 0x01, then the wrapped value's encoding. */
  lemma Encode(o: Option<Value>)
    ensures o.None? ==> Emit(Nullable(o)) == Written([0x00])
    ensures o.Some? ==> Emit(Nullable(o)).bytes[..1] == [0x01]
    ensures o.Some? ==> Emit(Nullable(o)) == Then(Written([0x01]), Dispatch(o.value))
  {
  }

  /**
   * `init(from:)`: tag 0 is absent and consumed; a tag above 1 is also
   * absent, and `decodeNil()` leaves it unread; tag 1 is consumed and the
   * payload type's `init(from:)` goes on right after it.  With no byte
   * left, reading the tag traps.
   */
  lemma Decode(rule: AtEndRule, data: seq<byte>, w: Shape, off: nat)
    requires off <= |data|
    ensures off == |data| ==> ReadNullable(rule, data, w, off) == Err(Trap)
    ensures off < |data| && data[off] == 0 ==> ReadNullable(rule, data, w, off) == Ok(Decoded(Nullable(None), off + 1))
    ensures off < |data| && data[off] > 1 ==> ReadNullable(rule, data, w, off) == Ok(Decoded(Nullable(None), off))
    ensures off < |data| && data[off] == 1 ==>
              ReadNullable(rule, data, w, off)
              == match ReadOwn(rule, data, w, off + 1)
                 case Err(e) => Err(e)
                 case Ok(Decoded(x, q)) => Ok(Decoded(Nullable(Some(x)), q))
  {
  }

  /**
   * A corrupt tag is not an error: the property reads as absent and the
   * byte is read again as the next property.
   */
  lemma CorruptTagIsReadAgain()
    ensures ReadValue(StartsFalse, [0x05], RecordOf([NullableOf(Scalar(BoolKind)), Scalar(IntegerKind(UInt8))]), 0)
         == Ok(Decoded(Record([Nullable(None), Integer(UInt8, 5)]), 1))
  {
    var fs := [NullableOf(Scalar(BoolKind)), Scalar(IntegerKind(UInt8))];
    assert ReadField(StartsFalse, [0x05], fs[0], 0) == Ok(Decoded(Nullable(None), 0));
    assert ReadInteger([0x05], 0, UInt8) == Ok(Decoded(5, 1)) by {
      assert [0x05][0..1] == [0x05];
      assert FromLittleEndian([0x05]) == 5;
    }
    assert ReadScalar([0x05], 0, IntegerKind(UInt8)) == Ok(Decoded(Integer(UInt8, 5), 1));
    assert ReadOwn(StartsFalse, [0x05], fs[1], 0) == Ok(Decoded(Integer(UInt8, 5), 1));
    assert ReadValue(StartsFalse, [0x05], fs[1], 0) == Ok(Decoded(Integer(UInt8, 5), 1));
    assert ReadField(StartsFalse, [0x05], fs[1], 0) == Ok(Decoded(Integer(UInt8, 5), 1));
    assert ReadFields(StartsFalse, [0x05], fs, 2, 1) == Ok(Decoded([], 1));
    assert [Integer(UInt8, 5)] + [] == [Integer(UInt8, 5)];
    assert [Nullable(None)] + [Integer(UInt8, 5)] == [Nullable(None), Integer(UInt8, 5)];
    assert ReadFields(StartsFalse, [0x05], fs, 1, 0) == Ok(Decoded([Integer(UInt8, 5)], 1));
    assert ReadFields(StartsFalse, [0x05], fs, 0, 0) == Ok(Decoded([Nullable(None), Integer(UInt8, 5)], 1));
    assert ReadValue(StartsFalse, [0x05], RecordOf(fs), 0) == ReadOwn(StartsFalse, [0x05], RecordOf(fs), 0);
  }

  // ---------------------------------------------------------------------
  // A linked list of nodes
  // ---------------------------------------------------------------------

  /**
   * A node `{ value: Int8, @Nullable next: Node? }` holding `vs[0]`,
   * followed by the chain of the rest of `vs`.
   */
  function Chain(vs: seq<int>): Value
    requires |vs| >= 1
    decreases |vs|
  {
    Record([Integer(Int8, vs[0]), Nullable(if |vs| == 1 then None else Some(Chain(vs[1..])))])
  }

  /**
   * The node type unfolded `depth` times: a chain of `depth + 1` nodes
   * has this shape.  Beyond the last node the shape is never consulted.
   */
  function NodeShape(depth: nat): Shape
  {
    RecordOf([Scalar(IntegerKind(Int8)), NullableOf(if depth == 0 then RecordOf([]) else NodeShape(depth - 1))])
  }

  /** Each node's value byte, then 0x01 before the next node or 0x00 after the last. */
  function ChainBytes(vs: seq<int>): (bytes: seq<byte>)
    requires |vs| >= 1
    ensures |bytes| == 2 * |vs|
    decreases |vs|
  {
    IntegerBytes(Int8, vs[0]) + (if |vs| == 1 then [0x00] else [0x01] + ChainBytes(vs[1..]))
  }

  predicate AllInt8(vs: seq<int>)
  {
    forall i | 0 <= i < |vs| :: InRange(Int8, vs[i])
  }

  /** A chain encodes to its values separated by presence tags, without framing. */
  lemma {:induction false} ChainEncoding(vs: seq<int>)
    requires |vs| >= 1
    ensures Emit(Chain(vs)) == Written(ChainBytes(vs))
    decreases |vs|
  {
    var c := Chain(vs);
    var first := Integer(Int8, vs[0]);
    var next := c.fields[1];
    assert EmitOwn(first) == Written(IntegerBytes(Int8, vs[0]));
    assert EmitField(first) == Emit(first) == Dispatch(first) == EmitOwn(first);
    if |vs| == 1 {
      assert EmitField(next) == Written([0x00]);
    } else {
      ChainEncoding(vs[1..]);
      assert Dispatch(Chain(vs[1..])) == Emit(Chain(vs[1..]));
      assert EmitField(next) == Written([0x01] + ChainBytes(vs[1..]));
    }
    assert EmitFields(c.fields, 2) == Written([]);
    assert EmitField(next).ok;
    assert EmitFields(c.fields, 1) == Written(EmitField(next).bytes + []);
    assert EmitFields(c.fields, 0) == Written(IntegerBytes(Int8, vs[0]) + (EmitField(next).bytes + []));
    assert Emit(c) == Dispatch(c) == EmitOwn(c) == EmitFields(c.fields, 0);
  }

  /** Every chain of `Int8` values is a value the encoder and decoder agree on. */
  lemma {:induction false} ChainFits(rule: AtEndRule, vs: seq<int>)
    requires |vs| >= 1 && AllInt8(vs)
    ensures RoundTrip.Fits(rule, Chain(vs), NodeShape(|vs| - 1))
  {
    ChainWellFormed(vs);
    ChainHasShape(vs);
    NodeShapeCodable(|vs| - 1);
    ChainPopulated(vs);
  }

  lemma {:induction false} ChainWellFormed(vs: seq<int>)
    requires |vs| >= 1 && AllInt8(vs)
    ensures WellFormed(Chain(vs))
    decreases |vs|
  {
    var c := Chain(vs);
    if |vs| > 1 {
      ChainWellFormed(vs[1..]);
    }
    assert WellFormed(c.fields[0]) && WellFormed(c.fields[1]);
  }

  lemma {:induction false} ChainHasShape(vs: seq<int>)
    requires |vs| >= 1
    ensures HasShape(Chain(vs), NodeShape(|vs| - 1))
    decreases |vs|
  {
    var c := Chain(vs);
    var s := NodeShape(|vs| - 1);
    if |vs| > 1 {
      ChainHasShape(vs[1..]);
    }
    assert HasShape(c.fields[0], s.fields[0]) && HasShape(c.fields[1], s.fields[1]);
  }

  lemma {:induction false} NodeShapeCodable(depth: nat)
    ensures RoundTrip.Codable(NodeShape(depth))
  {
    if depth > 0 {
      NodeShapeCodable(depth - 1);
    }
    var fs := NodeShape(depth).fields;
    assert RoundTrip.Codable(fs[0]) && RoundTrip.Codable(fs[1]);
  }

  lemma {:induction false} ChainPopulated(vs: seq<int>)
    requires |vs| >= 1
    ensures RoundTrip.Populated(Chain(vs))
    decreases |vs|
  {
    var c := Chain(vs);
    if |vs| > 1 {
      ChainPopulated(vs[1..]);
    }
    assert RoundTrip.Populated(c.fields[0]) && RoundTrip.Populated(c.fields[1]);
  }

  /** The chain 1 -> 2 -> 3 -> nil of the library's own example. */
  lemma ThreeNodes()
    ensures Chain([1, 2, 3]) == Record([Integer(Int8, 1), Nullable(Some(Record([Integer(Int8, 2),
                                  Nullable(Some(Record([Integer(Int8, 3), Nullable(None)])))])))])
    ensures ChainBytes([1, 2, 3]) == [0x01, 0x01, 0x02, 0x01, 0x03, 0x00]
  {
    assert [1, 2, 3][1..] == [2, 3];
    assert [2, 3][1..] == [3];
    assert LittleEndian(1, 1) == [0x01] && LittleEndian(2, 1) == [0x02] && LittleEndian(3, 1) == [0x03];
  }

  /**
   * A chain of any length reads back as the same chain, whatever follows
   * it, as asserted for three nodes by the library's tests.
   */
  lemma ChainRoundTrip(rule: AtEndRule, vs: seq<int>, rest: seq<byte>)
    requires |vs| >= 1 && AllInt8(vs) && 2 * |vs| + |rest| <= IntMax
    ensures HardpackEncoder.Encoding(Chain(vs)) == Ok(ChainBytes(vs))
    ensures ReadValue(rule, ChainBytes(vs) + rest, NodeShape(|vs| - 1), 0) == Ok(Decoded(Chain(vs), 2 * |vs|))
  {
    ChainEncoding(vs);
    ChainFits(rule, vs);
    RoundTrip.EncodeDecode(rule, Chain(vs), NodeShape(|vs| - 1), rest);
  }
}
