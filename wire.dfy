/**
 * Byte-level vocabulary shared by the Hardpack encoders and the decoder:
 * bytes, the 64-bit limits of the Swift integer types involved, the
 * little-endian layout of fixed-width integers, and the outcome types of
 * the decoder.
 */
module Wire {

  /** One octet of a Hardpack message (Swift `UInt8`). */
  type byte = b: int | 0 <= b < 0x100

  /** 2^64: one past the largest `UInt64`. */
  const UInt64Limit: nat := 0x1_0000_0000_0000_0000

  /** `Int.max` on the 64-bit platforms Hardpack targets. */
  const IntMax: nat := 0x7FFF_FFFF_FFFF_FFFF

  datatype Option<T> = None | Some(value: T)

  /**
   * Why decoding stopped.  `UnexpectedEndOfData`, `CorruptedOptional`,
   * `VarIntTooLong`, `InvalidUtf8` and `Unsupported` are the errors the
   * decoder throws; `InvalidUuid` is the `dataCorrupted` error a `UUID`'s
   * own `init(from:)` throws for a string that is not a UUID; `Trap` stands for a Swift runtime trap (an index out of
   * range, a failed `try!`, an overflowing `Int` conversion or addition, a
   * duplicate dictionary key); `NoProgress` stands for a decoding loop that
   * would repeat the same step forever.
   */
  datatype Error =
    | UnexpectedEndOfData
    | CorruptedOptional
    | VarIntTooLong
    | InvalidUtf8
    | Unsupported
    | InvalidUuid
    | Trap
    | NoProgress

  datatype Result<T> = Ok(value: T) | Err(error: Error)

  /** A decoded value together with the offset just past its bytes. */
  datatype Decoded<T> = Decoded(value: T, next: nat)

  function Pow2(n: nat): (r: nat)
    ensures r >= 1
  {
    if n == 0 then 1 else 2 * Pow2(n - 1)
  }

  lemma {:induction false} Pow2Add(a: nat, b: nat)
    ensures Pow2(a + b) == Pow2(a) * Pow2(b)
  {
    if a > 0 {
      Pow2Add(a - 1, b);
    }
  }

  lemma Pow2Monotone(a: nat, b: nat)
    requires a <= b
    ensures Pow2(a) <= Pow2(b)
  {
    Pow2Add(a, b - a);
  }

  lemma Pow2Of64()
    ensures Pow2(64) == UInt64Limit
    ensures 2 * Pow2(63) == UInt64Limit
  {
    assert Pow2(8) == 0x100;
    Pow2Add(8, 8);
    assert Pow2(16) == 0x1_0000;
    Pow2Add(16, 16);
    assert Pow2(32) == 0x1_0000_0000;
    Pow2Add(32, 32);
  }

  /** Swift's `x << k` on `UInt64`: the bits shifted past bit 63 are lost. */
  function ShiftLeft(x: nat, k: nat): nat
  {
    (x * Pow2(k)) % UInt64Limit
  }

  /**
   * The `n` bytes of the bit pattern `x`, least significant first: what
   * `withUnsafeBytes(of: &value.littleEndian)` hands to `Data.append`.
   */
  function LittleEndian(x: nat, n: nat): (bytes: seq<byte>)
    ensures |bytes| == n
  {
    if n == 0 then [] else [x % 0x100] + LittleEndian(x / 0x100, n - 1)
  }

  /** The bit pattern spelled by `bytes`, least significant byte first. */
  function FromLittleEndian(bytes: seq<byte>): (x: nat)
    ensures x < Pow2(8 * |bytes|)
  {
    if bytes == [] then 0
    else
      assert Pow2(8 * |bytes|) == 0x100 * Pow2(8 * (|bytes| - 1)) by {
        Pow2Add(8, 8 * (|bytes| - 1));
        Pow2Add(4, 4);
      }
      bytes[0] + 0x100 * FromLittleEndian(bytes[1..])
  }

  /** Reading back `n` little-endian bytes gives the pattern that was written. */
  lemma {:induction false} LittleEndianRoundTrip(x: nat, n: nat)
    requires x < Pow2(8 * n)
    ensures FromLittleEndian(LittleEndian(x, n)) == x
  {
    if n > 0 {
      assert Pow2(8 * n) == 0x100 * Pow2(8 * (n - 1)) by {
        Pow2Add(8, 8 * (n - 1));
        Pow2Add(4, 4);
      }
      LittleEndianRoundTrip(x / 0x100, n - 1);
      assert LittleEndian(x, n)[1..] == LittleEndian(x / 0x100, n - 1);
    }
  }

  /** Every byte string is the little-endian layout of the pattern it spells. */
  lemma {:induction false} FromLittleEndianRoundTrip(bytes: seq<byte>)
    ensures LittleEndian(FromLittleEndian(bytes), |bytes|) == bytes
  {
    if bytes != [] {
      FromLittleEndianRoundTrip(bytes[1..]);
    }
  }
}
