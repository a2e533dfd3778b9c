/** BIP-32 private key derivation. */
module Derivation {
  import opened Prelude
  import opened Radix
  import opened Struct

  const HARDENED_OFFSET: nat := 0x8000_0000
  const MAX_INDEX: nat := 0x7FFF_FFFF
  const MAX_CHILD_INDEX: nat := 0xFFFF_FFFF

  /** Order of the secp256k1 group. */
  const SECP256K1_N: nat := 0xFFFFFFFF_FFFFFFFF_FFFFFFFF_FFFFFFFE_BAAEDCE6_AF48A03B_BFD25E8C_D0364141

  /** "Bitcoin seed" in ASCII. */
  const BITCOIN_SEED: Bytes :=
    [0x42, 0x69, 0x74, 0x63, 0x6F, 0x69, 0x6E, 0x20, 0x73, 0x65, 0x65, 0x64]

  /** A compressed public key. */
  type Point = s: Bytes | |s| == 33 && (s[0] == 2 || s[0] == 3) witness [2] + Zeros(32)

  /** The library functions derivation calls: only their output shapes are known. */
  datatype Primitives = Primitives(
    sha256: Bytes -> Bytes32,
    ripemd160: Bytes -> Bytes20,
    hmacSha512: (Bytes, Bytes) -> Bytes64,
    point: Bytes32 -> Point)

  datatype ExtendedKey = ExtendedKey(
    sk: Bytes32, cc: Bytes32, depth: nat, parentFingerprint: Bytes4, childNumber: int)

  /** A path component: index and hardened flag. */
  type Component = (int, bool)

  function Int(b: Bytes): nat {
    Value(256, b)
  }

  ghost predicate ValidScalar(sk: Bytes32) {
    0 < Int(sk) < SECP256K1_N
  }

  // ---- operations --------------------------------------------------------------------

  function Master(p: Primitives, seed: Bytes): ExtendedKey {
    var I := p.hmacSha512(BITCOIN_SEED, seed);
    ExtendedKey(I[..32], I[32..], 0, Zeros(4), 0)
  }

  /** `PrivateKey(sk).public_key.format(compressed=True)`: libsecp256k1 refuses a scalar that
      is zero or not below the group order. */
  function PublicKey(p: Primitives, sk: Bytes32): Result<Point> {
    if 0 < Int(sk) < SECP256K1_N then Ok(p.point(sk)) else Err(ValueError)
  }

  function Fingerprint(p: Primitives, sk: Bytes32): (r: Result<Bytes4>) {
    var pk :- PublicKey(p, sk);
    Ok(p.ripemd160(p.sha256(pk))[..4])
  }

  /** The raw child number of a component. */
  function ChildNumber(c: Component): (i: int)
    ensures i == c.0 + (if c.1 then 0x8000_0000 else 0)
  {
    if c.1 then c.0 + HARDENED_OFFSET else c.0
  }

  function HmacInput(p: Primitives, key: ExtendedKey, index: int): Result<Bytes> {
    if index >= HARDENED_OFFSET then
      var ser :- PackU32(index);
      Ok([0] + key.sk + ser)
    else
      var pub :- PublicKey(p, key.sk);
      var ser :- PackU32(index);
      Ok(pub + ser)
  }

  /** What `derive` makes of the HMAC output. */
  function ChildKey(p: Primitives, key: ExtendedKey, I: Bytes64, index: int): Result<ExtendedKey> {
    var il, kpar := Int(I[..32]), Int(key.sk);
    if il >= SECP256K1_N then Err(ValueError)
    else
      var child := (il + kpar) % SECP256K1_N;
      if child == 0 then Err(ValueError)
      else
        var childKey :- ToBytes(child, 32);
        var fingerprint :- Fingerprint(p, key.sk);
        Ok(ExtendedKey(childKey, I[32..], key.depth + 1, fingerprint, index))
  }

  function Derive(p: Primitives, key: ExtendedKey, c: Component): Result<ExtendedKey> {
    if c.0 < 0 || c.0 > MAX_INDEX then Err(ValueError)
    else
      var index := ChildNumber(c);
      if index < 0 || index > MAX_CHILD_INDEX then Err(ValueError)
      else
        var data :- HmacInput(p, key, index);
        ChildKey(p, key, p.hmacSha512(key.cc, data), index)
  }

  /** Deriving along a path, stopping at the first failure. */
  function DerivePath(p: Primitives, key: ExtendedKey, path: seq<Component>): Result<ExtendedKey>
    decreases |path|
  {
    if path == [] then Ok(key)
    else
      var child :- Derive(p, key, path[0]);
      DerivePath(p, child, path[1..])
  }

  function FromSeed(p: Primitives, seed: Bytes, path: seq<Component>): Result<ExtendedKey> {
    DerivePath(p, Master(p, seed), path)
  }

  /** The loop of `derive_from_seed`. */
  method DeriveFromSeed(p: Primitives, seed: Bytes, path: seq<Component>) returns (r: Result<ExtendedKey>)
    ensures r == FromSeed(p, seed, path)
  {
    var key := Master(p, seed);
    for i := 0 to |path|
      invariant DerivePath(p, key, path[i..]) == FromSeed(p, seed, path)
    {
      var next := Derive(p, key, path[i]);
      if next.Err? {
        return next;
      }
      key := next.value;
      assert path[i..][1..] == path[i + 1..];
    }
    r := Ok(key);
  }

  // ---- the standard's constants ------------------------------------------------------

  lemma OrderValue()
    ensures SECP256K1_N == Pow(256, 32) - 0x1_45512319_50B75FC4_402DA173_2FC9BEBF
  {
    WidthPowers();
    PowAdd(256, 8, 8);
    PowAdd(256, 16, 16);
  }

  /** BIP-32's hash of a seed, under an ASCII key. */
  function SeedHash(p: Primitives, seed: Bytes): Bytes64 {
    p.hmacSha512(Ascii("Bitcoin seed"), seed)
  }

  /** The master key: both halves of that hash, at depth zero without a parent. */
  lemma MasterKey(p: Primitives, seed: Bytes)
    ensures var I := SeedHash(p, seed);
      Master(p, seed) == ExtendedKey(I[..32], I[32..], 0, [0, 0, 0, 0], 0)
  {
    assert BITCOIN_SEED == Ascii("Bitcoin seed");
    assert Zeros(4) == [0, 0, 0, 0];
  }

  // ---- one step ----------------------------------------------------------------------

  lemma OrderFits()
    ensures SECP256K1_N < Pow(256, 32)
  {
    OrderValue();
  }

  /** BIP-32's ser256, ser32 and CKDpriv, over the scalar `k`, the chain code `c` and the
      child number `i`. */
  function CKDInput(p: Primitives, k: nat, i: nat): Bytes {
    var ser256: Bytes32 := Digits(256, k, 32);
    var ser32 := Digits(256, i, 4);
    if i >= 0x8000_0000 then [0] + ser256 + ser32 else p.point(ser256) + ser32
  }

  function CKDpriv(p: Primitives, k: nat, c: Bytes32, i: nat): Option<(nat, Bytes32)> {
    var I := p.hmacSha512(c, CKDInput(p, k, i));
    var parse256 := Value(256, I[..32]);
    if parse256 >= SECP256K1_N || (parse256 + k) % SECP256K1_N == 0 then None
    else Some(((parse256 + k) % SECP256K1_N, I[32..]))
  }

  lemma HmacInputIsCKD(p: Primitives, key: ExtendedKey, i: nat)
    requires ValidScalar(key.sk) && i <= 0xFFFF_FFFF
    ensures HmacInput(p, key, i) == Ok(CKDInput(p, Int(key.sk), i))
  {
    DigitsOfValue(256, key.sk);
  }

  lemma ScalarBytes(k: nat)
    requires k < SECP256K1_N
    ensures ToBytes(k, 32) == Ok(Digits(256, k, 32))
  {
    OrderFits();
    MinimalLength(256, k, 32);
  }

  lemma FingerprintIs(p: Primitives, sk: Bytes32)
    requires ValidScalar(sk)
    ensures Fingerprint(p, sk) == Ok(p.ripemd160(p.sha256(p.point(sk)))[..4])
  {}

  lemma ChildKeyIs(p: Primitives, key: ExtendedKey, I: Bytes64, index: int, k: nat, fingerprint: Bytes4)
    requires k == (Int(I[..32]) + Int(key.sk)) % SECP256K1_N && Fingerprint(p, key.sk) == Ok(fingerprint)
    ensures ChildKey(p, key, I, index)
         == if Int(I[..32]) >= SECP256K1_N || k == 0 then Err(ValueError)
            else Ok(ExtendedKey(Digits(256, k, 32), I[32..], key.depth + 1, fingerprint, index))
  {
    ScalarBytes(k);
  }

  lemma DeriveIsChildKey(p: Primitives, key: ExtendedKey, c: Component)
    requires ValidScalar(key.sk) && 0 <= c.0 <= 0x7FFF_FFFF
    ensures Derive(p, key, c)
         == ChildKey(p, key, p.hmacSha512(key.cc, CKDInput(p, Int(key.sk), ChildNumber(c))), ChildNumber(c))
  {
    HmacInputIsCKD(p, key, ChildNumber(c));
  }

  /** On a valid parent and a 31-bit index, `derive` is CKDpriv, failing where it is undefined. */
  lemma DeriveIsCKDpriv(p: Primitives, key: ExtendedKey, c: Component)
    requires ValidScalar(key.sk) && 0 <= c.0 <= 0x7FFF_FFFF
    ensures Derive(p, key, c)
      == match CKDpriv(p, Int(key.sk), key.cc, ChildNumber(c))
         case None => Err(ValueError)
         case Some((k, cc)) =>
           Ok(ExtendedKey(Digits(256, k, 32), cc, key.depth + 1,
                          p.ripemd160(p.sha256(p.point(key.sk)))[..4], ChildNumber(c)))
  {
    DeriveIsChildKey(p, key, c);
    var I := p.hmacSha512(key.cc, CKDInput(p, Int(key.sk), ChildNumber(c)));
    FingerprintIs(p, key.sk);
    ChildKeyIs(p, key, I, ChildNumber(c), (Int(I[..32]) + Int(key.sk)) % SECP256K1_N,
               p.ripemd160(p.sha256(p.point(key.sk)))[..4]);
  }

  /** Everything else is a ValueError: a longer index, or a parent that is no valid scalar. */
  lemma DeriveOtherwiseFails(p: Primitives, key: ExtendedKey, c: Component)
    requires !(ValidScalar(key.sk) && 0 <= c.0 <= 0x7FFF_FFFF)
    ensures Derive(p, key, c) == Err(ValueError)
  {
    match HmacInput(p, key, ChildNumber(c))
    case Ok(data) => ScalarBytes((Int(p.hmacSha512(key.cc, data)[..32]) + Int(key.sk)) % SECP256K1_N);
    case Err(_) =>
  }

  /** The 37-byte HMAC inputs of one parent are distinct for distinct components, and start
      with a zero byte exactly for hardened ones. */
  lemma HmacSeparation(p: Primitives, key: ExtendedKey, c: Component, d: Component)
    requires 0 <= c.0 <= 0x7FFF_FFFF && 0 <= d.0 <= 0x7FFF_FFFF
    requires HmacInput(p, key, ChildNumber(c)).Ok? && HmacInput(p, key, ChildNumber(d)).Ok?
    ensures var x := HmacInput(p, key, ChildNumber(c)).value;
      |x| == 37 && (x[0] == 0 <==> c.1)
    ensures HmacInput(p, key, ChildNumber(c)) == HmacInput(p, key, ChildNumber(d)) ==> c == d
  {
    var x, y := HmacInput(p, key, ChildNumber(c)).value, HmacInput(p, key, ChildNumber(d)).value;
    U32RoundTrip(ChildNumber(c));
    U32RoundTrip(ChildNumber(d));
    assert x[33..] == PackU32(ChildNumber(c)).value;
    assert y[33..] == PackU32(ChildNumber(d)).value;
  }

  // ---- whole paths -------------------------------------------------------------------

  /** Deriving p ++ q is deriving p and then folding over q, failures included. */
  lemma {:induction false} PathComposition(p: Primitives, key: ExtendedKey, a: seq<Component>, b: seq<Component>)
    ensures DerivePath(p, key, a + b)
      == match DerivePath(p, key, a)
         case Ok(k) => DerivePath(p, k, b)
         case Err(e) => Err(e)
    decreases |a|
  {
    if a == [] {
      assert a + b == b;
    } else {
      assert (a + b)[1..] == a[1..] + b;
      if Derive(p, key, a[0]).Ok? {
        PathComposition(p, Derive(p, key, a[0]).value, a[1..], b);
      }
    }
  }

  /** The left half of the HMAC output of one step, as a number. */
  function StepIL(p: Primitives, key: ExtendedKey, c: Component): nat {
    match HmacInput(p, key, ChildNumber(c))
    case Ok(data) => Int(p.hmacSha512(key.cc, data)[..32])
    case Err(_) => 0
  }

  /** The sum of the left halves along a path. */
  function ILSum(p: Primitives, key: ExtendedKey, path: seq<Component>): nat
    decreases |path|
  {
    if path == [] then 0
    else match Derive(p, key, path[0])
      case Ok(child) => StepIL(p, key, path[0]) + ILSum(p, child, path[1..])
      case Err(_) => 0
  }

  lemma StepScalar(p: Primitives, key: ExtendedKey, c: Component, child: ExtendedKey) returns (q: nat)
    requires Derive(p, key, c) == Ok(child)
    ensures ValidScalar(key.sk) && ValidScalar(child.sk)
    ensures Int(key.sk) + StepIL(p, key, c) == q * SECP256K1_N + Int(child.sk)
  {
    StepKey(p, key, c, child);
    q := ScalarOfSum(StepIL(p, key, c) + Int(key.sk), child.sk);
  }

  lemma ScalarOfSum(sum: nat, sk: Bytes32) returns (q: nat)
    requires sum % SECP256K1_N > 0 && sk == Digits(256, sum % SECP256K1_N, 32)
    ensures ValidScalar(sk) && sum == q * SECP256K1_N + Int(sk)
  {
    OrderFits();
    ValueOfDigits(256, sum % SECP256K1_N, 32);
    q := sum / SECP256K1_N;
  }

  lemma StepKey(p: Primitives, key: ExtendedKey, c: Component, child: ExtendedKey)
    requires Derive(p, key, c) == Ok(child)
    ensures var k := (StepIL(p, key, c) + Int(key.sk)) % SECP256K1_N;
      ValidScalar(key.sk) && k > 0 && child.sk == Digits(256, k, 32)
  {
    if !(ValidScalar(key.sk) && 0 <= c.0 <= 0x7FFF_FFFF) {
      DeriveOtherwiseFails(p, key, c);
    }
    FingerprintIs(p, key.sk);
    ChildKeyIs(p, key, p.hmacSha512(key.cc, HmacInput(p, key, ChildNumber(c)).value), ChildNumber(c),
               (StepIL(p, key, c) + Int(key.sk)) % SECP256K1_N,
               p.ripemd160(p.sha256(p.point(key.sk)))[..4]);
  }

  lemma {:induction false} PathScalar(p: Primitives, key: ExtendedKey, path: seq<Component>, k: ExtendedKey)
    returns (q: nat)
    requires path != [] && DerivePath(p, key, path) == Ok(k)
    ensures ValidScalar(key.sk) && ValidScalar(k.sk)
    ensures Int(key.sk) + ILSum(p, key, path) == q * SECP256K1_N + Int(k.sk)
    decreases |path|
  {
    var child, rest := Derive(p, key, path[0]).value, path[1..];
    q := StepScalar(p, key, path[0], child);
    if rest != [] {
      var q' := PathScalar(p, child, rest, k);
      q := q + q';
    }
  }

  /** After any successful nonempty path the private key is the sum of the master IL and of
      all step ILs modulo the group order, and a valid scalar. */
  lemma Telescoping(p: Primitives, seed: Bytes, path: seq<Component>, k: ExtendedKey)
    requires path != [] && FromSeed(p, seed, path) == Ok(k)
    ensures 1 <= Int(k.sk) < SECP256K1_N
    ensures Int(k.sk)
         == (Int(SeedHash(p, seed)[..32]) + ILSum(p, Master(p, seed), path)) % SECP256K1_N
  {
    MasterKey(p, seed);
    var q := PathScalar(p, Master(p, seed), path, k);
    DivModUnique(SECP256K1_N, q, Int(k.sk));
  }

  /** The master key is not checked, so a derived key is a valid scalar exactly when a step was
      taken or the master IL happens to be in range; a master out of range has no children. */
  lemma ValidExceptMaster(p: Primitives, seed: Bytes, path: seq<Component>)
    ensures FromSeed(p, seed, path).Ok? ==>
      (ValidScalar(FromSeed(p, seed, path).value.sk)
       <==> path != [] || 0 < Int(SeedHash(p, seed)[..32]) < SECP256K1_N)
    ensures FromSeed(p, seed, path).Ok? && path != [] ==>
      0 < Int(SeedHash(p, seed)[..32]) < SECP256K1_N
  {
    MasterKey(p, seed);
    if path != [] && FromSeed(p, seed, path).Ok? {
      var _ := PathScalar(p, Master(p, seed), path, FromSeed(p, seed, path).value);
    }
  }

  /** Every prefix of a path that succeeds succeeds, and each step records its parent: depth,
      child number, and the fingerprint of the prefix key. */
  lemma PathStep(p: Primitives, seed: Bytes, path: seq<Component>, i: nat)
    requires i < |path| && FromSeed(p, seed, path).Ok?
    ensures FromSeed(p, seed, path[..i]).Ok? && FromSeed(p, seed, path[..i + 1]).Ok?
    ensures var parent, child := FromSeed(p, seed, path[..i]).value, FromSeed(p, seed, path[..i + 1]).value;
      && parent.depth == i && child.depth == i + 1
      && Fingerprint(p, parent.sk) == Ok(child.parentFingerprint)
      && child.childNumber == ChildNumber(path[i])
      && Derive(p, parent, path[i]) == Ok(child)
  {
    assert path == path[..i] + path[i..];
    assert path[..i + 1] == path[..i] + [path[i]];
    PathComposition(p, Master(p, seed), path[..i], path[i..]);
    PathComposition(p, Master(p, seed), path[..i], [path[i]]);
    PathDepth(p, Master(p, seed), path[..i]);
  }

  lemma {:induction false} PathDepth(p: Primitives, key: ExtendedKey, path: seq<Component>)
    requires DerivePath(p, key, path).Ok?
    ensures DerivePath(p, key, path).value.depth == key.depth + |path|
    decreases |path|
  {
    if path != [] {
      PathDepth(p, Derive(p, key, path[0]).value, path[1..]);
    }
  }

  // ---- BIP-32 as a whole -------------------------------------------------------------

  /** BIP-32's key tree over numbers: the master key of a seed, then CKDpriv for each child
      number; undefined where the standard calls a key invalid. */
  function Bip32(p: Primitives, seed: Bytes, path: seq<nat>): (r: Option<(nat, Bytes32)>)
    ensures r.Some? ==> 0 < r.value.0 < SECP256K1_N
    decreases |path|
  {
    if path == [] then
      var I := SeedHash(p, seed);
      var parse256 := Value(256, I[..32]);
      if 0 < parse256 < SECP256K1_N then Some((parse256, I[32..])) else None
    else
      match Bip32(p, seed, path[..|path| - 1])
      case None => None
      case Some((k, c)) => CKDpriv(p, k, c, path[|path| - 1])
  }

  ghost predicate ValidPath(path: seq<Component>) {
    forall i :: 0 <= i < |path| ==> 0 <= path[i].0 <= 0x7FFF_FFFF
  }

  function ChildNumbers(path: seq<Component>): (numbers: seq<nat>)
    requires ValidPath(path)
    ensures |numbers| == |path| && forall i :: 0 <= i < |path| ==> numbers[i] == ChildNumber(path[i])
  {
    seq(|path|, i requires 0 <= i < |path| => ChildNumber(path[i]))
  }

  /** `key` holds the scalar and the chain code BIP-32 gives. */
  ghost predicate IsKey(key: Result<ExtendedKey>, spec: Option<(nat, Bytes32)>) {
    match (key, spec)
    case (Ok(k), Some((n, c))) => k.sk == Digits(256, n, 32) && k.cc == c
    case (Err(_), None) => true
    case _ => false
  }

  lemma LastStep(p: Primitives, seed: Bytes, path: seq<Component>)
    requires path != []
    ensures var n := |path| - 1;
      FromSeed(p, seed, path)
      == match FromSeed(p, seed, path[..n])
         case Ok(k) => Derive(p, k, path[n])
         case Err(e) => Err(e)
  {
    var n := |path| - 1;
    assert path == path[..n] + [path[n]];
    PathComposition(p, Master(p, seed), path[..n], [path[n]]);
    match FromSeed(p, seed, path[..n])
    case Ok(k) => SingleStep(p, k, path[n]);
    case Err(_) =>
  }

  lemma SingleStep(p: Primitives, key: ExtendedKey, c: Component)
    ensures DerivePath(p, key, [c]) == Derive(p, key, c)
  {
    assert [c][1..] == [];
  }

  lemma StepFollows(p: Primitives, key: ExtendedKey, c: Component, k: nat)
    requires 0 < k < SECP256K1_N && key.sk == Digits(256, k, 32) && 0 <= c.0 <= 0x7FFF_FFFF
    ensures IsKey(Derive(p, key, c), CKDpriv(p, k, key.cc, ChildNumber(c)))
  {
    OrderFits();
    ValueOfDigits(256, k, 32);
    DeriveIsCKDpriv(p, key, c);
  }

  lemma MasterFollows(p: Primitives, seed: Bytes)
    ensures ValidScalar(Master(p, seed).sk) ==> IsKey(Ok(Master(p, seed)), Bip32(p, seed, []))
    ensures !ValidScalar(Master(p, seed).sk) ==> Bip32(p, seed, []).None?
  {
    MasterKey(p, seed);
    DigitsOfValue(256, Master(p, seed).sk);
  }

  /** Deriving from a seed follows BIP-32 on every path, failures included; the only exception is
      the bare path `m` of a seed whose master key the standard calls invalid. */
  lemma {:induction false} FollowsBip32(p: Primitives, seed: Bytes, path: seq<Component>)
    requires ValidPath(path)
    ensures IsKey(FromSeed(p, seed, path), Bip32(p, seed, ChildNumbers(path)))
       <==> path != [] || ValidScalar(Master(p, seed).sk)
    decreases |path|
  {
    MasterFollows(p, seed);
    if path == [] {
      assert ChildNumbers(path) == [];
    } else {
      var n := |path| - 1;
      var prefix := path[..n];
      LastStep(p, seed, path);
      FollowsBip32(p, seed, prefix);
      assert ChildNumbers(path)[..n] == ChildNumbers(prefix);
      if prefix == [] && !ValidScalar(Master(p, seed).sk) {
        DeriveOtherwiseFails(p, Master(p, seed), path[n]);
        assert ChildNumbers(prefix) == [];
      } else if Bip32(p, seed, ChildNumbers(prefix)).Some? {
        StepFollows(p, FromSeed(p, seed, prefix).value, path[n], Bip32(p, seed, ChildNumbers(prefix)).value.0);
      }
    }
  }
}
