/**
 * The `VarInt` struct of VarInt.swift: an unsigned 64-bit integer written
 * as little-endian groups of seven bits, each byte but the last carrying
 * the continuation bit 0x80.
 */
module VarInt {
  import opened Wire

  /** A `VarInt` value: its canonical bytes and the `UInt64` they denote. */
  datatype VarInt = VarInt(bytes: seq<byte>, value: nat)

  /**
   * The bytes the initialiser writes for `v`: the low seven bits with the
   * continuation bit while `v` is at least 0x80, then the remaining bits.
   */
  function Encoding(v: nat): (bytes: seq<byte>)
    ensures |bytes| >= 1
  {
    if v < 0x80 then [v] else [v % 0x80 + 0x80] + Encoding(v / 0x80)
  }

  /** The number spelled by the seven-bit groups of `s`, without truncation. */
  function Groups(s: seq<byte>): nat
  {
    if s == [] then 0 else s[0] % 0x80 + 0x80 * Groups(s[1..])
  }

  /** Where the first byte without the continuation bit sits among the first ten. */
  function Terminator(s: seq<byte>): (k: Option<nat>)
    ensures k.Some? ==> k.value < |s| && k.value < 10
  {
    TerminatorFrom(s, 0)
  }

  /** The terminator is the first byte below 0x80, if one is among the first ten. */
  lemma TerminatorIsFirst(s: seq<byte>)
    ensures Terminator(s).Some? ==> s[Terminator(s).value] < 0x80
    ensures Terminator(s).Some? ==> forall j :: 0 <= j < Terminator(s).value ==> s[j] >= 0x80
    ensures Terminator(s).None? ==> forall j :: 0 <= j < |s| && j < 10 ==> s[j] >= 0x80
  {
    TerminatorFromIsFirst(s, 0);
  }

  function TerminatorFrom(s: seq<byte>, i: nat): (k: Option<nat>)
    requires i <= 10
    ensures k.Some? ==> i <= k.value < |s| && k.value < 10
    decreases 10 - i
  {
    if i >= |s| || i == 10 then None
    else if s[i] < 0x80 then Some(i)
    else TerminatorFrom(s, i + 1)
  }

  lemma {:induction false} TerminatorFromIsFirst(s: seq<byte>, i: nat)
    requires i <= 10
    requires forall j :: 0 <= j < i && j < |s| ==> s[j] >= 0x80
    ensures TerminatorFrom(s, i).Some? ==> s[TerminatorFrom(s, i).value] < 0x80
    ensures TerminatorFrom(s, i).Some? ==> forall j :: 0 <= j < TerminatorFrom(s, i).value ==> s[j] >= 0x80
    ensures TerminatorFrom(s, i).None? ==> forall j :: 0 <= j < |s| && j < 10 ==> s[j] >= 0x80
    decreases 10 - i
  {
    if i < |s| && i < 10 && s[i] >= 0x80 {
      TerminatorFromIsFirst(s, i + 1);
    }
  }

  /** A byte below 0x80 among the first ten, with only continuation bytes before it, is the terminator. */
  lemma {:induction false} TerminatorFromAt(s: seq<byte>, i: nat, k: nat)
    requires i <= k < |s| && k < 10 && s[k] < 0x80
    requires forall j :: i <= j < k ==> s[j] >= 0x80
    ensures TerminatorFrom(s, i) == Some(k)
    decreases k - i
  {
    if i < k {
      TerminatorFromAt(s, i + 1, k);
    }
  }

  /** The three outcomes of reading a `VarInt` from the front of a byte string. */
  datatype Scan = Done(value: nat, length: nat) | TooLong | Truncated

  /**
   * What reading a `VarInt` from the front of `s` yields: the first byte
   * without the continuation bit ends it, provided it is among the first
   * ten; the value keeps only the low 64 bits of the groups read, as the
   * `UInt64` shifts do.
   */
  function Read(s: seq<byte>): (r: Scan)
    ensures r.Done? ==> 1 <= r.length <= 10 && r.length <= |s| && r.value < UInt64Limit
  {
    match Terminator(s)
    case Some(k) => Done(Groups(s[..k + 1]) % UInt64Limit, k + 1)
    case None => if |s| >= 10 then TooLong else Truncated
  }

  /**
   * A `VarInt` ends at its first byte below 0x80; ten bytes that all carry
   * the continuation bit are too long; fewer that all carry it are cut short.
   */
  lemma ReadOutcomes(s: seq<byte>)
    ensures Read(s).Done? ==> s[Read(s).length - 1] < 0x80 && forall j :: 0 <= j < Read(s).length - 1 ==> s[j] >= 0x80
    ensures Read(s) == TooLong <==> |s| >= 10 && forall j :: 0 <= j < 10 ==> s[j] >= 0x80
    ensures Read(s) == Truncated <==> |s| < 10 && forall j :: 0 <= j < |s| ==> s[j] >= 0x80
  {
    TerminatorIsFirst(s);
  }

  /**
   * `init<T: FixedWidthInteger>(_:)`.  The conversion `UInt64(value)` traps
   * on a negative value, and no fixed-width integer exceeds 64 bits.
   */
  method FromInteger(value: int) returns (r: VarInt)
    requires 0 <= value < UInt64Limit
    ensures r.value == value && r.bytes == Encoding(value)
  {
    var v := value;
    var bytes: seq<byte> := [];
    while v >= 0x80
      invariant 0 <= v
      invariant bytes + Encoding(v) == Encoding(value)
      decreases v
    {
      bytes := bytes + [v % 0x80 + 0x80];
      v := v / 0x80;
    }
    bytes := bytes + [v % 0x80];
    r := VarInt(bytes, value);
  }

  /**
   * The private static `decode(_:)`: gathers seven bits per byte with
   * `result |= value << shift`.  The bits already in `result` lie below
   * `shift`, so the OR is an addition, and the shift drops whatever passes
   * bit 63.
   */
  method Decode(bytes: seq<byte>) returns (r: Option<nat>)
    ensures r.Some? <==> Read(bytes).Done?
    ensures r.Some? ==> r.value == Read(bytes).value
  {
    var result := 0;
    var shift := 0;
    var bytesRead := 0;
    while bytesRead < |bytes|
      invariant bytesRead <= |bytes| && bytesRead < 10
      invariant shift == 7 * bytesRead
      invariant result == Groups(bytes[..bytesRead]) % UInt64Limit
      invariant forall j :: 0 <= j < bytesRead ==> bytes[j] >= 0x80
    {
      var b := bytes[bytesRead];
      var value := b % 0x80;
      AccumulateStep(bytes[..bytesRead], b);
      assert bytes[..bytesRead + 1] == bytes[..bytesRead] + [b];
      result := result + ShiftLeft(value, shift);
      shift := shift + 7;
      bytesRead := bytesRead + 1;
      if b < 0x80 {
        return Some(result);
      }
      if bytesRead >= 10 {
        return None;
      }
    }
    return None;
  }

  /** `init?(bytes:)`: fails exactly when `Decode` does, else re-encodes the value. */
  method FromBytes(bytes: seq<byte>) returns (r: Option<VarInt>)
    ensures r.Some? <==> Read(bytes).Done?
    ensures r.Some? ==> r.value.value == Read(bytes).value && r.value.bytes == Encoding(Read(bytes).value)
  {
    var decoded := Decode(bytes);
    if decoded.None? {
      return None;
    }
    var v := FromInteger(decoded.value);
    return Some(v);
  }

  // ---------------------------------------------------------------------
  // Accumulating seven bits at a time
  // ---------------------------------------------------------------------

  lemma {:induction false} GroupsBound(s: seq<byte>)
    ensures Groups(s) < Pow2(7 * |s|)
  {
    if s != [] {
      GroupsBound(s[1..]);
      Pow2Add(7, 7 * (|s| - 1));
      assert Pow2(7) == 0x80;
    }
  }

  lemma {:induction false} GroupsAppend(s: seq<byte>, b: byte)
    ensures Groups(s + [b]) == Groups(s) + (b % 0x80) * Pow2(7 * |s|)
  {
    var c := b % 0x80;
    if s == [] {
      assert Groups([b]) == c + 0x80 * Groups([b][1..]);
    } else {
      var n := |s|;
      assert (s + [b])[0] == s[0];
      assert (s + [b])[1..] == s[1..] + [b];
      GroupsAppend(s[1..], b);
      var rest := Groups(s[1..]);
      var p := Pow2(7 * (n - 1));
      assert Groups(s[1..] + [b]) == rest + c * p;
      Pow2Add(7, 7 * (n - 1));
      assert Pow2(7) == 0x80;
      assert Pow2(7 * n) == 0x80 * p;
      ScaleSum(rest, c, p);
    }
  }

  lemma ScaleSum(rest: nat, c: nat, p: nat)
    ensures 0x80 * (rest + c * p) == 0x80 * rest + c * (0x80 * p)
  {
  }

  /**
   * One step of the decoding loops: adding the shifted group to the
   * accumulator so far gives the low 64 bits of the longer prefix.
   */
  lemma AccumulateStep(prefix: seq<byte>, b: byte)
    requires |prefix| < 10
    ensures Groups(prefix) % UInt64Limit == Groups(prefix)
    ensures Groups(prefix) + ShiftLeft(b % 0x80, 7 * |prefix|) == Groups(prefix + [b]) % UInt64Limit
  {
    GroupsBelowLimit(prefix);
    ModSmall(Groups(prefix));
    if |prefix| <= 8 {
      AccumulateLow(prefix, b);
    } else {
      AccumulateHigh(prefix, b);
    }
  }

  lemma GroupsBelowLimit(s: seq<byte>)
    requires |s| <= 9
    ensures Groups(s) < UInt64Limit
  {
    GroupsBound(s);
    Pow2Of64();
    Pow2Monotone(7 * |s|, 64);
  }

  /** Up to the ninth byte nothing is shifted out. */
  lemma AccumulateLow(prefix: seq<byte>, b: byte)
    requires |prefix| <= 8
    ensures Groups(prefix) + ShiftLeft(b % 0x80, 7 * |prefix|) == Groups(prefix + [b]) % UInt64Limit
  {
    AccumulateLowBound(prefix, b);
    ShiftLeftSmall(b % 0x80, 7 * |prefix|);
    ModSmall(Groups(prefix + [b]));
  }

  lemma AccumulateLowBound(prefix: seq<byte>, b: byte)
    requires |prefix| <= 8
    ensures Groups(prefix + [b]) == Groups(prefix) + (b % 0x80) * Pow2(7 * |prefix|)
    ensures Groups(prefix + [b]) < UInt64Limit
  {
    GroupsAppend(prefix, b);
    GroupsBound(prefix + [b]);
    Pow2Of64();
    Pow2Monotone(7 * (|prefix| + 1), 63);
  }

  /** At the tenth byte the shift is 63: only the lowest bit of the group survives. */
  lemma AccumulateHigh(prefix: seq<byte>, b: byte)
    requires |prefix| == 9
    ensures Groups(prefix) + ShiftLeft(b % 0x80, 7 * |prefix|) == Groups(prefix + [b]) % UInt64Limit
  {
    GroupsAppend(prefix, b);
    GroupsBound(prefix);
    Pow2Of64();
    ModSmall(Groups(prefix));
    AccumulateTop(Groups(prefix), b % 0x80);
  }

  lemma AccumulateTop(g: nat, c: nat)
    requires g < Pow2(63) && c < 0x80 && 2 * Pow2(63) == UInt64Limit
    ensures g % UInt64Limit + (c * Pow2(63)) % UInt64Limit == (g + c * Pow2(63)) % UInt64Limit
  {
    var half := Pow2(63);
    calc {
      c * half;
      (2 * (c / 2) + c % 2) * half;
      (c / 2) * UInt64Limit + (c % 2) * half;
    }
    ModOfMultiplePlus(c / 2, (c % 2) * half);
    ModOfMultiplePlus(c / 2, g + (c % 2) * half);
  }

  lemma ShiftLeftSmall(x: nat, k: nat)
    requires x * Pow2(k) < UInt64Limit
    ensures ShiftLeft(x, k) == x * Pow2(k)
  {
  }

  lemma ModSmall(x: nat)
    requires x < UInt64Limit
    ensures x % UInt64Limit == x
  {
  }

  lemma ModOfMultiplePlus(q: nat, r: nat)
    requires r < UInt64Limit
    ensures (q * UInt64Limit + r) % UInt64Limit == r
  {
  }

  // ---------------------------------------------------------------------
  // Properties of the encoding
  // ---------------------------------------------------------------------

  /** Every byte but the last carries the continuation bit; the last does not. */
  lemma {:induction false} EncodingContinuation(v: nat)
    ensures forall i :: 0 <= i < |Encoding(v)| - 1 ==> Encoding(v)[i] >= 0x80
    ensures Encoding(v)[|Encoding(v)| - 1] < 0x80
  {
    if v >= 0x80 {
      EncodingContinuation(v / 0x80);
    }
  }

  /** The groups of the encoding spell the encoded value. */
  lemma {:induction false} EncodingGroups(v: nat)
    ensures Groups(Encoding(v)) == v
  {
    if v >= 0x80 {
      EncodingGroups(v / 0x80);
      assert Encoding(v)[1..] == Encoding(v / 0x80);
    } else {
      assert Encoding(v)[1..] == [];
    }
  }

  /** The encoding fits in `m` bytes exactly when the value fits in `7 m` bits. */
  lemma {:induction false} EncodingLength(v: nat, m: nat)
    requires m >= 1
    ensures |Encoding(v)| <= m <==> v < Pow2(7 * m)
  {
    Pow2Add(7, 7 * (m - 1));
    assert Pow2(7) == 0x80;
    if v >= 0x80 && m > 1 {
      EncodingLength(v / 0x80, m - 1);
    } else if v < 0x80 {
      Pow2Monotone(7, 7 * m);
    }
  }

  /** Every `UInt64` takes one to ten bytes. */
  lemma EncodingAtMostTen(v: nat)
    requires v < UInt64Limit
    ensures 1 <= |Encoding(v)| <= 10
  {
    Pow2Of64();
    Pow2Monotone(64, 70);
    EncodingLength(v, 10);
  }

  /** Reading the encoding of `v` gives back `v`, whatever follows it. */
  lemma ReadEncoding(v: nat, rest: seq<byte>)
    requires v < UInt64Limit
    ensures Read(Encoding(v) + rest) == Done(v, |Encoding(v)|)
  {
    var e := Encoding(v);
    var s := e + rest;
    var n := |e|;
    EncodingAtMostTen(v);
    EncodingContinuation(v);
    assert forall j :: 0 <= j < n ==> s[j] == e[j];
    TerminatorFromAt(s, 0, n - 1);
    assert Terminator(s) == Some(n - 1);
    assert s[..n] == e;
    EncodingGroups(v);
    ModSmall(v);
  }

  /** Bytes after a complete `VarInt` do not change what is read. */
  lemma ReadIgnoresTrailing(s: seq<byte>, t: seq<byte>)
    requires Read(s).Done?
    ensures Read(s + t) == Read(s)
  {
    var k := Read(s).length;
    assert (s + t)[..k] == s[..k];
    assert forall j :: 0 <= j < k ==> (s + t)[j] == s[j];
  }

  /**
   * No `VarInt` read from the wire is shorter than the canonical encoding
   * of its value: the initialiser never writes redundant groups.
   */
  lemma ReadNoShorterThanEncoding(s: seq<byte>)
    requires Read(s).Done?
    ensures |Encoding(Read(s).value)| <= Read(s).length
  {
    var k := Read(s).length;
    var g := Groups(s[..k]);
    GroupsBound(s[..k]);
    Pow2Of64();
    if k <= 9 {
      Pow2Monotone(7 * k, 64);
      assert g % UInt64Limit == g;
      EncodingLength(g, k);
    } else {
      EncodingAtMostTen(Read(s).value);
    }
  }

  lemma EncodingExamples()
    ensures Encoding(0) == [0x00]
    ensures Encoding(0x7F) == [0x7F]
    ensures Encoding(0x80) == [0x80, 0x01]
    ensures Encoding(300) == [0xAC, 0x02]
    ensures Encoding(123456) == [0xC0, 0xC4, 0x07]
  {
  }

  /** Ten bytes that all continue are rejected; so is an empty input. */
  lemma ReadExamples()
    ensures Read([0x80, 0x80, 0x80, 0x80, 0x80, 0x80, 0x80, 0x80, 0x80, 0x80, 0x00]) == TooLong
    ensures Read([]) == Truncated
    ensures Read([0x80]) == Truncated
  {
  }
}
