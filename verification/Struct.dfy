/** Python's fixed-width integer codecs: `int.to_bytes`, and `struct` formats `>I` and `>q`. */
module Struct {
  import opened Prelude
  import opened Radix

  const TWO32: int := 0x1_0000_0000
  const TWO63: int := 0x8000_0000_0000_0000
  const TWO64: int := 0x1_0000_0000_0000_0000

  /** `n.to_bytes(len, "big")`, which refuses a number of more than `len` bytes. */
  function ToBytes(n: nat, len: nat): (r: Result<Bytes>)
    ensures r.Ok? ==> |r.value| == len
  {
    if |Minimal(256, n)| <= len then Ok(Digits(256, n, len)) else Err(OverflowError)
  }

  /** `struct.pack(">I", n)`. */
  function PackU32(n: int): (r: Result<Bytes>)
    ensures r.Ok? <==> 0 <= n <= 0xFFFF_FFFF
    ensures r.Ok? ==> |r.value| == 4
  {
    if 0 <= n < TWO32 then Ok(Digits(256, n, 4)) else Err(StructError)
  }

  function UnpackU32(b: Bytes): (n: nat)
    requires |b| == 4
  {
    Value(256, b)
  }

  /** `struct.pack(">q", n)`: two's complement in 64 bits. */
  function PackI64(n: int): (r: Result<Bytes>)
    ensures r.Ok? <==> -0x8000_0000_0000_0000 <= n < 0x8000_0000_0000_0000
    ensures r.Ok? ==> |r.value| == 8
  {
    if -TWO63 <= n < TWO63
    then Ok(Digits(256, if n < 0 then n + TWO64 else n, 8))
    else Err(StructError)
  }

  function UnpackI64(b: Bytes): int
    requires |b| == 8
  {
    var n := Value(256, b);
    if n < TWO63 then n else n - TWO64
  }

  lemma WidthPowers()
    ensures Pow(256, 4) == TWO32 && Pow(256, 8) == TWO64
  {
    assert Pow(256, 2) == 0x1_0000;
    PowAdd(256, 2, 2);
    PowAdd(256, 4, 4);
  }

  lemma U32RoundTrip(n: int)
    requires 0 <= n <= 0xFFFF_FFFF
    ensures UnpackU32(PackU32(n).value) == n
  {
    WidthPowers();
    ValueOfDigits(256, n, 4);
  }

  /** A packed signed integer is congruent to the number, and reads back as the number. */
  lemma I64RoundTrip(n: int)
    requires -0x8000_0000_0000_0000 <= n < 0x8000_0000_0000_0000
    ensures Value(256, PackI64(n).value) == n % 0x1_0000_0000_0000_0000
    ensures UnpackI64(PackI64(n).value) == n
  {
    WidthPowers();
    ValueOfDigits(256, if n < 0 then n + TWO64 else n, 8);
  }
}
