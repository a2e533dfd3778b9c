/** Base58 as `_b58encode` computes it, with a reference decoder. */
module Base58 {
  import opened Prelude
  import opened Radix

  const UPPER: string := "123456789" + "ABCDEFGH" + "JKLMN" + "PQRSTUVWXYZ"
  const LOWER: string := "abcdefghijk" + "mnopqrstuvwxyz"
  const ALPHABET: string := UPPER + LOWER

  function CharOf(d: nat): char
    requires d < 58
  {
    ALPHABET[d]
  }

  function Chars(ds: seq<nat>): (s: string)
    requires IsNumeral(58, ds)
    ensures |s| == |ds|
  {
    seq(|ds|, i requires 0 <= i < |ds| => CharOf(ds[i]))
  }

  /** What `_b58encode` returns. */
  function Encode(data: Bytes): (s: string) {
    var n := Value(256, data);
    if n == 0 then [CharOf(0)]
    else Chars(Zeros(LeadingZeros(data)) + Minimal(58, n))
  }

  /** `_b58encode`: the digits, one `1` for each leading zero byte, and the reversal of both. */
  method B58Encode(data: Bytes) returns (s: string)
    ensures s == Encode(data)
  {
    var n: nat := Value(256, data);
    if n == 0 {
      return [CharOf(0)];
    }
    var out := AppendDigits(n);
    out := AppendOnes(data, out, Minimal(58, n));
    Reversal(out, Zeros(LeadingZeros(data)) + Minimal(58, n));
    s := Reverse(out);
  }

  /** Its first loop: repeated `divmod` by 58. */
  method AppendDigits(number: nat) returns (out: string)
    ensures Appended(out, Minimal(58, number))
  {
    var n := number;
    out := [];
    ghost var digits: seq<nat> := [];
    while n != 0
      invariant Appended(out, digits)
      invariant Minimal(58, number) == Minimal(58, n) + digits
    {
      var q, r := n / 58, n % 58;
      DivmodStep(n, q, r, digits);
      out := Append(out, r, digits);
      digits := [r] + digits;
      n := q;
    }
    assert Minimal(58, 0) + digits == digits;
  }

  /** Its second loop, which stops at the first nonzero byte. */
  method AppendOnes(data: Bytes, digitsOut: string, ghost digits: seq<nat>) returns (out: string)
    requires Appended(digitsOut, digits)
    ensures Appended(out, Zeros(LeadingZeros(data)) + digits)
  {
    out := digitsOut;
    assert Zeros(0) + digits == digits;
    for i := 0 to |data|
      invariant i <= LeadingZeros(data) && Appended(out, Zeros(i) + digits)
    {
      if data[i] != 0 {
        break;
      }
      out := Append(out, 0, Zeros(i) + digits);
      ZeroStep(i, digits);
    }
  }

  /** `out` holds the characters of `digits` in reverse order. */
  ghost predicate Appended(out: string, digits: seq<nat>) {
    IsNumeral(58, digits) && out == Reverse(Chars(digits))
  }

  /** `out.append(_B58_ALPHABET[d])`. */
  method Append(out: string, d: nat, ghost digits: seq<nat>) returns (r: string)
    requires d < 58 && Appended(out, digits)
    ensures Appended(r, [d] + digits)
  {
    r := out + [CharOf(d)];
  }

  lemma DivmodStep(n: nat, q: nat, r: nat, digits: seq<nat>)
    requires n > 0 && r < 58 && n == q * 58 + r
    ensures Minimal(58, n) + digits == Minimal(58, q) + ([r] + digits)
  {
    MinimalSnoc(58, q, r, digits);
  }

  lemma ZeroStep(i: nat, all: seq<nat>)
    ensures [0] + (Zeros(i) + all) == Zeros(i + 1) + all
  {}

  lemma Reversal(out: string, digits: seq<nat>)
    requires Appended(out, digits)
    ensures Reverse(out) == Chars(digits)
  {}

  // ---- the reference decoder ---------------------------------------------------------

  /** The alphabet by ranges: digits without 0, capitals without I and O, small letters without l. */
  function DigitOf(c: char): Option<nat> {
    if '1' <= c <= '9' then Some(c as int - '1' as int)
    else if 'A' <= c <= 'H' then Some(c as int - 'A' as int + 9)
    else if 'J' <= c <= 'N' then Some(c as int - 'J' as int + 17)
    else if 'P' <= c <= 'Z' then Some(c as int - 'P' as int + 22)
    else if 'a' <= c <= 'k' then Some(c as int - 'a' as int + 33)
    else if 'm' <= c <= 'z' then Some(c as int - 'm' as int + 44)
    else None
  }

  predicate IsBase58(s: string) {
    forall i :: 0 <= i < |s| ==> DigitOf(s[i]).Some?
  }

  function DigitsOf(s: string): (ds: seq<nat>)
    requires IsBase58(s)
    ensures |ds| == |s|
  {
    seq(|s|, i requires 0 <= i < |s| => DigitOf(s[i]).value)
  }

  /** One zero byte for each leading `1`, then the bytes of the number. */
  function Decode(s: string): Option<Bytes> {
    if !IsBase58(s) then None
    else Some(Zeros(LeadingZeros(DigitsOf(s))) + Minimal(256, Value(58, DigitsOf(s))))
  }

  lemma UpperBlocks(d: nat)
    requires d < 33
    ensures |UPPER| == 33 && UPPER[d] as int
      == if d < 9 then '1' as int + d
         else if d < 17 then 'A' as int + (d - 9)
         else if d < 22 then 'J' as int + (d - 17)
         else 'P' as int + (d - 22)
  {}

  lemma LowerBlocks(d: nat)
    requires d < 25
    ensures LOWER[d] as int == if d < 11 then 'a' as int + d else 'm' as int + (d - 11)
  {}

  lemma CharBlocks(d: nat)
    requires d < 58
    ensures CharOf(d) == if d < 33 then UPPER[d] else LOWER[d - 33]
  {}

  lemma CharDigit(d: nat)
    requires d < 58
    ensures DigitOf(CharOf(d)) == Some(d)
  {
    CharBlocks(d);
    if d < 33 {
      UpperBlocks(d);
    } else {
      LowerBlocks(d - 33);
    }
  }

  lemma DigitChar(c: char)
    requires DigitOf(c).Some?
    ensures DigitOf(c).value < 58 && CharOf(DigitOf(c).value) == c
  {
    var d := DigitOf(c).value;
    CharBlocks(d);
    if d < 33 {
      UpperBlocks(d);
    } else {
      LowerBlocks(d - 33);
    }
  }

  lemma CharsDigits(ds: seq<nat>)
    requires IsNumeral(58, ds)
    ensures IsBase58(Chars(ds)) && DigitsOf(Chars(ds)) == ds
  {
    forall i | 0 <= i < |ds|
      ensures DigitOf(Chars(ds)[i]) == Some(ds[i])
    {
      CharDigit(ds[i]);
    }
  }

  lemma DigitsChars(s: string)
    requires IsBase58(s)
    ensures IsNumeral(58, DigitsOf(s)) && Chars(DigitsOf(s)) == s
  {
    forall i | 0 <= i < |s|
      ensures DigitsOf(s)[i] < 58 && CharOf(DigitsOf(s)[i]) == s[i]
    {
      DigitChar(s[i]);
    }
  }

  predicate HasNonZero(data: seq<nat>) {
    exists i :: 0 <= i < |data| && data[i] != 0
  }

  lemma {:induction false} LeadingZerosOf(z: nat, rest: seq<nat>)
    requires rest != [] ==> rest[0] != 0
    ensures LeadingZeros(Zeros(z) + rest) == z
  {
    if z == 0 {
      assert Zeros(0) + rest == rest;
    } else {
      LeadingZerosOf(z - 1, rest);
      assert (Zeros(z) + rest)[1..] == Zeros(z - 1) + rest;
    }
  }

  /** A numeral is its leading zeros followed by the minimal form of its value. */
  lemma Canonical(b: nat, ds: seq<nat>)
    requires b >= 2 && IsNumeral(b, ds)
    ensures ds == Zeros(LeadingZeros(ds)) + Minimal(b, Value(b, ds))
  {
    var z := LeadingZeros(ds);
    assert ds == Zeros(z) + ds[z..];
    ValueLeadingZeros(b, z, ds[z..]);
    MinimalOfValue(b, ds[z..]);
  }

  /** As many leading `1`s as leading zero bytes, then the number in base 58. */
  lemma EncodeDigits(data: Bytes)
    requires HasNonZero(data)
    ensures IsBase58(Encode(data))
    ensures LeadingZeros(DigitsOf(Encode(data))) == LeadingZeros(data)
    ensures Value(58, DigitsOf(Encode(data))) == Value(256, data)
  {
    var z, n := LeadingZeros(data), Value(256, data);
    ValueZeroIff(256, data);
    var ds := Zeros(z) + Minimal(58, n);
    CharsDigits(ds);
    MinimalHead(58, n);
    LeadingZerosOf(z, Minimal(58, n));
    ValueLeadingZeros(58, z, Minimal(58, n));
    ValueOfMinimal(58, n);
  }

  /** All-zero data of any length, and no data at all, is a single `1`. */
  lemma AllZeros(data: Bytes)
    requires !HasNonZero(data)
    ensures Encode(data) == "1"
  {
    ValueZeroIff(256, data);
    DigitChar('1');
  }

  /** Decoding recovers the bytes, length included, exactly when some byte is nonzero or the
      data is one zero byte: every other all-zero input collapses to a single `1`. */
  lemma RoundTrip(data: Bytes)
    ensures Decode(Encode(data)) == Some(data) <==> HasNonZero(data) || |data| == 1
  {
    ValueZeroIff(256, data);
    if HasNonZero(data) {
      EncodeDigits(data);
      Canonical(256, data);
    } else {
      CharsDigits([0]);
      assert Chars([0]) == Encode(data);
      assert [0] == Zeros(1) + [];
      LeadingZerosOf(1, []);
      ValueOfZeros(58, 1);
      assert [0] == Zeros(1);
      assert Decode(Encode(data)) == Some([0]);
      if |data| == 1 {
        assert data == [0];
      }
    }
  }

  /** In the other direction, a base58 string is the encoding of what it decodes to exactly
      when it has a character other than `1` or is that one character. */
  lemma DecodeThenEncode(s: string)
    requires IsBase58(s)
    ensures Encode(Decode(s).value) == s <==> HasNonZero(DigitsOf(s)) || |s| == 1
  {
    DigitsChars(s);
    var ds := DigitsOf(s);
    var n, z := Value(58, ds), LeadingZeros(ds);
    var data := Decode(s).value;
    ValueZeroIff(58, ds);
    ValueLeadingZeros(256, z, Minimal(256, n));
    ValueOfMinimal(256, n);
    assert Value(256, data) == n;
    if n == 0 {
      CharsDigits([0]);
      assert Chars([0]) == Encode(data);
      if |s| == 1 {
        assert ds == [0];
      }
    } else {
      MinimalHead(256, n);
      LeadingZerosOf(z, Minimal(256, n));
      Canonical(58, ds);
    }
  }

  /** Encoding is injective on data that is not all zeros. */
  lemma Injective(a: Bytes, b: Bytes)
    requires HasNonZero(a) && HasNonZero(b) && Encode(a) == Encode(b)
    ensures a == b
  {
    RoundTrip(a);
    RoundTrip(b);
  }
}
