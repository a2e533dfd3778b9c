/** Serialized extended private keys: the 78-byte record, its checksum, base58. */
module Xprv {
  import opened Prelude
  import opened Radix
  import opened Struct
  import opened Derivation
  import Base58

  const MAINNET: Bytes4 := [0x04, 0x88, 0xAD, 0xE4]
  const TESTNET: Bytes4 := [0x04, 0x35, 0x83, 0x94]

  function Version(network: string): Result<Bytes4> {
    if network == "mainnet" then Ok(MAINNET)
    else if network == "testnet" then Ok(TESTNET)
    else Err(KeyError)
  }

  function Raw(version: Bytes4, key: ExtendedKey): Result<Bytes> {
    if key.depth > 255 then Err(ValueError)
    else
      var child :- PackU32(key.childNumber);
      Ok(version + [key.depth] + key.parentFingerprint + child + key.cc + [0] + key.sk)
  }

  function ToBase58(p: Primitives, key: ExtendedKey, network: string): Result<string> {
    var version :- Version(network);
    var raw :- Raw(version, key);
    Ok(Base58.Encode(raw + p.sha256(p.sha256(raw))[..4]))
  }

  /** The layout of BIP-32's "Serialization format", field by field at its offset. */
  ghost predicate Layout(p: Primitives, key: ExtendedKey, network: string, d: Bytes) {
    && |d| == 82
    && d[..4] == (if network == "mainnet" then [0x04, 0x88, 0xAD, 0xE4] else [0x04, 0x35, 0x83, 0x94])
    && d[4] == key.depth
    && d[5..9] == key.parentFingerprint
    && Value(256, d[9..13]) == key.childNumber
    && d[13..45] == key.cc
    && d[45] == 0
    && d[46..78] == key.sk
    && d[78..] == p.sha256(p.sha256(d[..78]))[..4]
  }

  lemma RawLayout(p: Primitives, key: ExtendedKey, network: string, version: Bytes4)
    requires Version(network) == Ok(version) && Raw(version, key).Ok?
    ensures var raw := Raw(version, key).value;
      && |raw| == 78 && Layout(p, key, network, raw + p.sha256(p.sha256(raw))[..4])
  {
    var raw := Raw(version, key).value;
    var child := PackU32(key.childNumber).value;
    U32RoundTrip(key.childNumber);
    var d := raw + p.sha256(p.sha256(raw))[..4];
    assert d[9..13] == child;
    assert d[..78] == raw;
  }

  /** Serialization fails exactly for an unknown network, a depth that is no byte, or a child
      number that is no u32, in this order. */
  lemma SerializesIff(p: Primitives, key: ExtendedKey, network: string)
    ensures ToBase58(p, key, network).Ok?
       <==> network in {"mainnet", "testnet"} && key.depth <= 255 && 0 <= key.childNumber <= 0xFFFF_FFFF
    ensures ToBase58(p, key, network).Err? ==>
      ToBase58(p, key, network).error
      == if network !in {"mainnet", "testnet"} then KeyError
         else if key.depth > 255 then ValueError
         else StructError
  {}

  /** A base58 decoder reads the whole record back. */
  lemma Serialized(p: Primitives, key: ExtendedKey, network: string, s: string)
    requires ToBase58(p, key, network) == Ok(s)
    ensures Base58.Decode(s).Some? && Layout(p, key, network, Base58.Decode(s).value)
  {
    var version := Version(network).value;
    RawLayout(p, key, network, version);
    var raw := Raw(version, key).value;
    var d := raw + p.sha256(p.sha256(raw))[..4];
    assert d[0] != 0;
    Base58.RoundTrip(d);
  }

  /** A derived key serializes exactly when the path has at most 255 components. */
  lemma DerivedSerializes(p: Primitives, seed: Bytes, path: seq<Component>, network: string)
    requires FromSeed(p, seed, path).Ok?
    ensures ToBase58(p, FromSeed(p, seed, path).value, network).Ok?
       <==> network in {"mainnet", "testnet"} && |path| <= 255
  {
    var key := FromSeed(p, seed, path).value;
    SerializesIff(p, key, network);
    PathDepth(p, Master(p, seed), path);
    if path != [] {
      PathStep(p, seed, path, |path| - 1);
      assert path[..|path| - 1 + 1] == path;
    }
  }

  /** Equal strings come from equal networks and equal keys, field by field. */
  lemma Injective(p: Primitives, k1: ExtendedKey, n1: string, k2: ExtendedKey, n2: string)
    requires ToBase58(p, k1, n1).Ok? && ToBase58(p, k1, n1) == ToBase58(p, k2, n2)
    ensures k1 == k2 && n1 == n2
  {
    var s := ToBase58(p, k1, n1).value;
    Serialized(p, k1, n1, s);
    Serialized(p, k2, n2, s);
    SerializesIff(p, k1, n1);
    SerializesIff(p, k2, n2);
    assert Base58.Decode(s).value[..4][1] == if n1 == "mainnet" then 0x88 else 0x35;
    assert Base58.Decode(s).value[..4][1] == if n2 == "mainnet" then 0x88 else 0x35;
  }

  /** The record of a seed's master key: no depth, parent or child number, then the right and the
      left half of the HMAC under "Bitcoin seed". */
  lemma MasterSerialized(p: Primitives, seed: Bytes, key: ExtendedKey, network: string, s: string)
    requires FromSeed(p, seed, []) == Ok(key) && ToBase58(p, key, network) == Ok(s)
    ensures Base58.Decode(s).Some? && |Base58.Decode(s).value| == 82
    ensures var I, d := SeedHash(p, seed), Base58.Decode(s).value;
      && (forall i :: 4 <= i < 13 ==> d[i] == 0)
      && d[13..45] == I[32..] && d[45] == 0 && d[46..78] == I[..32]
  {
    MasterKey(p, seed);
    Serialized(p, key, network, s);
    var d := Base58.Decode(s).value;
    NoMetadata(d);
  }

  lemma NoMetadata(d: Bytes)
    requires |d| == 82 && d[4] == 0 && d[5..9] == [0, 0, 0, 0] && Value(256, d[9..13]) == 0
    ensures forall i :: 4 <= i < 13 ==> d[i] == 0
  {
    ValueZeroIff(256, d[9..13]);
    assert forall i :: 9 <= i < 13 ==> d[i] == d[9..13][i - 9];
    assert forall i :: 5 <= i < 9 ==> d[i] == d[5..9][i - 5];
  }

  // ---- 111 characters, xprv or tprv ---------------------------------------------------

  /** The first four characters of every serialization on a network. */
  function Prefix(network: string): string {
    if network == "mainnet" then "xprv" else "tprv"
  }

  const POW58_53: nat := 0x58D4C21FDCBC34A87AD92FADFF745B2A468CF6CF8CB954FAADAFDDB8341C0A4DA0000000000000
  const POW58_107: nat := POW58_53 * POW58_53 * 58
  const POW256_39: nat := 0x1000000000000000000000000000000000000000000000000000000000000000000000000000000
  const POW256_78: nat := POW256_39 * POW256_39

  // Exponents are given as ranges, so that the verifier does not unroll Pow on literals.

  lemma Pow58(n: nat)
    requires 106 < n < 108
    ensures Pow(58, n) == POW58_107
  {
    var h, q, e: nat := n / 2, n / 4, n / 8;
    assert Pow(58, 13) == 0x11CCA26E71024579A000;
    PowAdd(58, e, e);
    PowAdd(58, q, q);
    assert q == e + e && h == q + q + 1 && n == h + h + 1;
    assert Pow(58, h) == POW58_53;
    PowAdd(58, h, h);
  }

  lemma Pow256(n: nat)
    requires 77 < n < 79
    ensures Pow(256, n) == POW256_78
  {
    var h, q: nat := n / 2, n / 6;
    assert Pow(256, 13) == 0x100000000000000000000000000;
    PowAdd(256, q, q);
    PowAdd(256, q + q, q);
    assert h == q + q + q && n == h + h;
    PowAdd(256, h, h);
  }

  lemma ValueOfFour(b: nat, d: seq<nat>)
    requires |d| == 4
    ensures Value(b, d) == ((d[0] * b + d[1]) * b + d[2]) * b + d[3]
  {
    assert d == [] + [d[0]] + [d[1]] + [d[2]] + [d[3]];
    ValueSnoc(b, [], d[0]);
    ValueSnoc(b, [] + [d[0]], d[1]);
    ValueSnoc(b, [] + [d[0]] + [d[1]], d[2]);
    ValueSnoc(b, [] + [d[0]] + [d[1]] + [d[2]], d[3]);
  }

  /** The four leading base58 digits of each network's prefix, as a number. */
  function PrefixNumber(network: string): nat {
    if network == "mainnet" then 10892163 else 10111715
  }

  /** The 82-byte integer lies between consecutive multiples of 58^107. */
  lemma PrefixBounds(network: string, k: nat, m: nat)
    requires Version(network).Ok? && 106 < k < 108 && 77 < m < 79
    ensures var v, x := Value(256, Version(network).value), PrefixNumber(network);
      && x * Pow(58, k) <= v * Pow(256, m)
      && (v + 1) * Pow(256, m) <= (x + 1) * Pow(58, k)
  {
    Pow58(k);
    Pow256(m);
    ValueOfFour(256, Version(network).value);
  }

  function PrefixDigitsOf(network: string): seq<nat> {
    if network == "mainnet" then [55, 47, 49, 53] else [51, 47, 49, 53]
  }

  lemma PrefixNumberDigits(network: string)
    ensures IsNumeral(58, PrefixDigitsOf(network))
    ensures Minimal(58, PrefixNumber(network)) == PrefixDigitsOf(network)
  {
    var ds := PrefixDigitsOf(network);
    ValueOfFour(58, ds);
    MinimalOfValue(58, ds);
  }

  lemma PrefixLetters()
    ensures Base58.CharOf(55) == 'x' && Base58.CharOf(51) == 't'
    ensures Base58.CharOf(47) == 'p' && Base58.CharOf(49) == 'r' && Base58.CharOf(53) == 'v'
  {
    Base58.DigitChar('x');
    Base58.DigitChar('t');
    Base58.DigitChar('p');
    Base58.DigitChar('r');
    Base58.DigitChar('v');
  }

  lemma PrefixDigits(network: string)
    requires Version(network).Ok?
    ensures Base58.Chars(Minimal(58, PrefixNumber(network))) == Prefix(network)
  {
    PrefixNumberDigits(network);
    PrefixLetters();
  }

  lemma Between(n: nat, v: nat, q: nat, low: nat, x: nat, p: nat)
    requires n == v * q + low && low < q
    requires x * p <= v * q && (v + 1) * q <= (x + 1) * p
    ensures x * p <= n < x * p + p
  {}

  /** Every number in those bounds has 111 base58 digits, led by the prefix. */
  lemma LeadingDigits(network: string, d: Bytes, k: nat)
    requires Version(network).Ok? && |d| == 82 && d[..4] == Version(network).value && 106 < k < 108
    ensures var n := Value(256, d);
      && |Minimal(58, n)| == |Minimal(58, PrefixNumber(network))| + k
      && Minimal(58, n)[..|Minimal(58, n)| - k] == Minimal(58, PrefixNumber(network))
  {
    var v, x, low := Value(256, d[..4]), PrefixNumber(network), Value(256, d[4..]);
    assert d == d[..4] + d[4..];
    ValueConcat(256, d[..4], d[4..]);
    ValueBound(256, d[4..]);
    PrefixBounds(network, k, |d[4..]|);
    Between(Value(256, d), v, Pow(256, |d[4..]|), low, x, Pow(58, k));
    MinimalSplit(58, x, Value(256, d) - x * Pow(58, k), k);
  }

  /** Every serialization has exactly 111 characters and starts with `xprv` on mainnet and
      with `tprv` on testnet, whatever the key, chain code, depth and checksum. */
  lemma Shape(p: Primitives, key: ExtendedKey, network: string)
    requires ToBase58(p, key, network).Ok?
    ensures var s := ToBase58(p, key, network).value;
      |s| == 111 && s[..4] == if network == "mainnet" then "xprv" else "tprv"
  {
    var version := Version(network).value;
    var raw := Raw(version, key).value;
    var d := raw + p.sha256(p.sha256(raw))[..4];
    RawLayout(p, key, network, version);
    NoLeadingZeros(d);
    LeadingChars(network, d);
  }

  lemma NoLeadingZeros(d: Bytes)
    requires d != [] && d[0] != 0
    ensures Base58.Encode(d) == Base58.Chars(Minimal(58, Value(256, d)))
  {
    ValueZeroIff(256, d);
    assert Zeros(LeadingZeros(d)) + Minimal(58, Value(256, d)) == Minimal(58, Value(256, d));
  }

  lemma LeadingChars(network: string, d: Bytes)
    requires Version(network).Ok? && |d| == 82 && d[..4] == Version(network).value
    ensures var s := Base58.Chars(Minimal(58, Value(256, d)));
      |s| == 111 && s[..4] == Prefix(network)
  {
    LeadingDigits(network, d, 107);
    PrefixNumberDigits(network);
    PrefixDigits(network);
  }
}
