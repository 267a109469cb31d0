/**
 * Well-formed UTF-8 as defined by RFC 3629 section 4: the test the decoder
 * applies (through `String(data:encoding: .utf8)`) to the bytes of a string.
 *
 * The UTF8-char rule is read one byte at a time: the state says what the
 * next byte of the current character may be.
 */
module Utf8 {
  import opened Wire

  /**
   * `Start`: between characters.  `Second(lo, hi, tails)`: the second byte
   * of a character must lie in `lo..hi`, and `tails` more bytes follow it.
   * `Tails(n)`: `n` more bytes in 0x80..0xBF end the character.
   */
  datatype State = Start | Second(lo: byte, hi: byte, tails: nat) | Tails(n: nat)

  predicate IsTail(b: byte)
  {
    0x80 <= b <= 0xBF
  }

  /**
   * The state after byte `b`, or `None` when `b` cannot come next.  The
   * narrower second-byte ranges after E0, ED, F0 and F4 exclude overlong
   * forms, the surrogates D800..DFFF and code points above U+10FFFF.
   */
  function Step(st: State, b: byte): Option<State>
  {
    match st
    case Start =>
      if b <= 0x7F then Some(Start)
      else if 0xC2 <= b <= 0xDF then Some(Tails(1))
      else if b == 0xE0 then Some(Second(0xA0, 0xBF, 1))
      else if 0xE1 <= b <= 0xEC || 0xEE <= b <= 0xEF then Some(Tails(2))
      else if b == 0xED then Some(Second(0x80, 0x9F, 1))
      else if b == 0xF0 then Some(Second(0x90, 0xBF, 2))
      else if 0xF1 <= b <= 0xF3 then Some(Tails(3))
      else if b == 0xF4 then Some(Second(0x80, 0x8F, 2))
      else None
    case Second(lo, hi, tails) =>
      if lo <= b <= hi then Some(Tails(tails)) else None
    case Tails(n) =>
      if !IsTail(b) then None
      else if n <= 1 then Some(Start)
      else Some(Tails(n - 1))
  }

  /** The bytes of `s` from `i` on finish the character begun in state `st`, then are whole characters. */
  predicate ValidFrom(s: seq<byte>, i: nat, st: State)
    requires i <= |s|
    decreases |s| - i
  {
    if i == |s| then st == Start
    else Step(st, s[i]).Some? && ValidFrom(s, i + 1, Step(st, s[i]).value)
  }

  /** `s` is a sequence of well-formed UTF-8 characters. */
  predicate Valid(s: seq<byte>)
  {
    ValidFrom(s, 0, Start)
  }

  /** ASCII text is valid UTF-8. */
  lemma AsciiIsValid(s: seq<byte>)
    requires forall i :: 0 <= i < |s| ==> s[i] < 0x80
    ensures Valid(s)
  {
    AsciiFrom(s, 0);
  }

  lemma {:induction false} AsciiFrom(s: seq<byte>, i: nat)
    requires i <= |s| && forall j :: i <= j < |s| ==> s[j] < 0x80
    ensures ValidFrom(s, i, Start)
    decreases |s| - i
  {
    if i < |s| {
      AsciiFrom(s, i + 1);
    }
  }

  /** The octets C0, C1 and F5 to FF never appear in valid UTF-8. */
  lemma ValidExcludesForbiddenOctets(s: seq<byte>)
    requires Valid(s)
    ensures forall i :: 0 <= i < |s| ==> s[i] != 0xC0 && s[i] != 0xC1 && s[i] < 0xF5
  {
    ForbiddenFrom(s, 0, Start);
  }

  /** Every second-byte range the machine sets lies within 0x80..0xBF. */
  predicate InTailRange(st: State)
  {
    st.Second? ==> 0x80 <= st.lo && st.hi <= 0xBF
  }

  lemma {:induction false} ForbiddenFrom(s: seq<byte>, i: nat, st: State)
    requires i <= |s| && InTailRange(st) && ValidFrom(s, i, st)
    ensures forall j :: i <= j < |s| ==> s[j] != 0xC0 && s[j] != 0xC1 && s[j] < 0xF5
    decreases |s| - i
  {
    if i < |s| {
      ForbiddenFrom(s, i + 1, Step(st, s[i]).value);
    }
  }

  lemma Examples()
    ensures Valid([0x48, 0x69])
    ensures Valid([0xC3, 0xA9])
    ensures Valid([0xE2, 0x82, 0xAC])
    ensures Valid([0xF0, 0x9F, 0x98, 0x80])
    ensures !Valid([0xC0, 0x80])
    ensures !Valid([0xED, 0xA0, 0x80])
    ensures !Valid([0xE2, 0x82])
  {
  }
}
