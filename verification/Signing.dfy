/** ECDSA signatures: DER from the library, 64 bytes r || s for callers. */
module Signing {
  import opened Prelude
  import opened Radix

  // ---- the two converters ------------------------------------------------------------

  /** `s[i]`, raising IndexError past the end. */
  function At(s: Bytes, i: nat): Result<byte> {
    if i < |s| then Ok(s[i]) else Err(IndexError)
  }

  /** Drop the sign byte of a 33-byte integer. */
  function StripSign(x: Bytes): Bytes {
    if |x| == 33 && x[0] == 0 then x[1..] else x
  }

  /** `x.rjust(32, b"\x00")`. */
  function RJust32(x: Bytes): Bytes {
    if |x| < 32 then Zeros(32 - |x|) + x else x
  }

  /** Python's slices clamp, so a length byte beyond the end is not an error here. */
  function DerToRs(der: Bytes): Result<(Bytes, Bytes)> {
    var tag :- At(der, 0);
    if tag != 0x30 then Err(SignatureError) else
    var len :- At(der, 1);
    if len + 2 != |der| then Err(SignatureError) else
    var rTag :- At(der, 2);
    if rTag != 0x02 then Err(SignatureError) else
    var rLen :- At(der, 3);
    var sOff := 4 + rLen;
    var sTag :- At(der, sOff);
    if sTag != 0x02 then Err(SignatureError) else
    var sLen :- At(der, sOff + 1);
    var r, s := StripSign(Slice(der, 4, sOff)), StripSign(Slice(der, sOff + 2, sOff + 2 + sLen));
    if |r| > 32 || |s| > 32 then Err(SignatureError)
    else Ok((RJust32(r), RJust32(s)))
  }

  /** The content of the DER integer for a big-endian number. */
  function IntegerBody(x: Bytes): (body: Bytes)
    requires x != []
    ensures 1 <= |body| <= |x| + 1
  {
    var i := if LeadingZeros(x) < |x| then LeadingZeros(x) else |x| - 1;
    if x[i] >= 0x80 then [0] + x[i..] else x[i..]
  }

  /** `encode_int` with its scan over leading zero bytes. */
  method EncodeInt(x: Bytes) returns (enc: Bytes)
    requires |x| == 32
    ensures enc == Tlv(IntegerBody(x))
  {
    var i := 0;
    while i < |x| - 1 && x[i] == 0
      invariant i <= |x| - 1 && i <= LeadingZeros(x)
    {
      i := i + 1;
    }
    var body := x[i..];
    if body[0] >= 0x80 {
      body := [0] + body;
    }
    assert body == IntegerBody(x);
    enc := [0x02, |body|] + body;
  }

  function RsToDer(r: Bytes, s: Bytes): (der: Result<Bytes>)
    ensures |r| != 32 || |s| != 32 ==> der == Err(SignatureError)
  {
    if |r| != 32 || |s| != 32 then Err(SignatureError)
    else Ok(DerOf(IntegerBody(r), IntegerBody(s)))
  }

  method RsToDerByLoop(r: Bytes, s: Bytes) returns (der: Result<Bytes>)
    ensures der == RsToDer(r, s)
  {
    if |r| != 32 || |s| != 32 {
      return Err(SignatureError);
    }
    var rEnc := EncodeInt(r);
    var sEnc := EncodeInt(s);
    var body := rEnc + sEnc;
    ghost var a, b := IntegerBody(r), IntegerBody(s);
    assert body == Tlv(a) + Tlv(b);
    var enc := [0x30, |body|] + body;
    assert enc == DerOf(a, b);
    der := Ok(enc);
  }

  // ---- X.690 -------------------------------------------------------------------------

  /** An INTEGER: tag, length in the short form, content. */
  function Tlv(content: Bytes): (enc: Bytes)
    requires |content| <= 33
    ensures |enc| == |content| + 2
  {
    [0x02, |content|] + content
  }

  /** A SEQUENCE of two INTEGERs with the given contents, all lengths in the short form. */
  function DerOf(a: Bytes, b: Bytes): Bytes
    requires |a| <= 33 && |b| <= 33
  {
    [0x30, |a| + |b| + 4] + (Tlv(a) + Tlv(b))
  }

  /** Sections 8.3.1, 8.3.2 and 8.3.3 of X.690: at least one octet, the first nine bits not all
      equal, two's complement; here non-negative and below 2^256. */
  ghost predicate IsMinimalInteger(c: Bytes) {
    && 1 <= |c| <= 33
    && c[0] < 0x80
    && (|c| > 1 && c[0] == 0 ==> c[1] >= 0x80)
    && (|c| == 33 ==> c[0] == 0)
  }

  ghost predicate IsSignatureOf(der: Bytes, a: Bytes, b: Bytes) {
    IsMinimalInteger(a) && IsMinimalInteger(b) && der == DerOf(a, b)
  }

  /** A strict DER signature with non-negative integers of at most 32 bytes. */
  ghost predicate IsStrictDer(der: Bytes) {
    exists a: Bytes, b: Bytes :: IsSignatureOf(der, a, b)
  }

  // ---- inverses ----------------------------------------------------------------------

  /** Encoding an integer loses nothing: the content is minimal, has the same value, and
      stripping and padding give the 32 bytes back. */
  lemma BodyOf32(x: Bytes)
    requires |x| == 32
    ensures var c := IntegerBody(x);
      && IsMinimalInteger(c) && Value(256, c) == Value(256, x)
      && |StripSign(c)| <= 32 && RJust32(StripSign(c)) == x
  {
    var i := if LeadingZeros(x) < 32 then LeadingZeros(x) else 31;
    assert x == Zeros(i) + x[i..];
    ValueLeadingZeros(256, i, x[i..]);
    ValueLeadingZeros(256, 1, x[i..]);
    assert [0] + x[i..] == Zeros(1) + x[i..];
    if x[i] >= 0x80 && i > 0 {
      assert Zeros(i) + x[i..] == Zeros(i - 1) + ([0] + x[i..]);
    }
  }

  /** Decoding a minimal integer loses nothing: the 32 bytes have its value and encode to it. */
  lemma BodyOfMinimal(c: Bytes)
    requires IsMinimalInteger(c)
    ensures var x := RJust32(StripSign(c));
      |x| == 32 && Value(256, x) == Value(256, c) && IntegerBody(x) == c
  {
    if |c| == 33 {
      var x := c[1..];
      assert c == Zeros(1) + x;
      ValueLeadingZeros(256, 1, x);
      assert LeadingZeros(x) == 0;
    } else {
      var z := 32 - |c|;
      assert RJust32(StripSign(c)) == Zeros(z) + c by { assert Zeros(0) + c == c; }
      ValueLeadingZeros(256, z, c);
      PaddedBody(z, c);
    }
  }

  lemma PaddedBody(z: nat, c: Bytes)
    requires IsMinimalInteger(c) && |c| <= 32
    ensures IntegerBody(Zeros(z) + c) == c
  {
    var x := Zeros(z) + c;
    PaddedZeros(z, c);
    if c[0] != 0 {
      assert x[z..] == c;
    } else if |c| == 1 {
      assert c == [0] && x[z..] == c;
    } else {
      assert LeadingZeros(c) == 1 by { assert c[1..][0] != 0; }
      assert x[z + 1..] == c[1..] && [0] + c[1..] == c;
    }
  }

  lemma {:induction false} PaddedZeros(z: nat, c: seq<nat>)
    ensures LeadingZeros(Zeros(z) + c) == z + LeadingZeros(c)
  {
    if z == 0 {
      assert Zeros(0) + c == c;
    } else {
      assert (Zeros(z) + c)[1..] == Zeros(z - 1) + c;
      PaddedZeros(z - 1, c);
    }
  }

  lemma DerPositions(a: Bytes, b: Bytes)
    requires |a| <= 33 && |b| <= 33
    ensures var der, n := DerOf(a, b), 4 + |a|;
      && |der| == n + 2 + |b|
      && der[0] == 0x30 && der[1] == |der| - 2 && der[2] == 0x02 && der[3] == |a|
      && der[4..n] == a && der[n] == 0x02 && der[n + 1] == |b| && der[n + 2..] == b
  {}

  /** On bytes placed as in a well-formed sequence the parser finds the two contents. */
  lemma ParsedAt(der: Bytes, a: Bytes, b: Bytes, n: nat)
    requires IsMinimalInteger(a) && IsMinimalInteger(b)
    requires n == 4 + |a| && |der| == n + 2 + |b|
    requires der[0] == 0x30 && der[1] == |der| - 2 && der[2] == 0x02 && der[3] == |a|
    requires der[4..n] == a && der[n] == 0x02 && der[n + 1] == |b| && der[n + 2..] == b
    ensures DerToRs(der) == Ok((RJust32(StripSign(a)), RJust32(StripSign(b))))
  {
    assert Slice(der, 4, n) == a;
    assert Slice(der, n + 2, n + 2 + |b|) == b;
  }

  lemma ParsedContents(a: Bytes, b: Bytes)
    requires IsMinimalInteger(a) && IsMinimalInteger(b)
    ensures DerToRs(DerOf(a, b)) == Ok((RJust32(StripSign(a)), RJust32(StripSign(b))))
  {
    DerPositions(a, b);
    ParsedAt(DerOf(a, b), a, b, 4 + |a|);
  }

  /** Any 64 bytes r || s convert to minimal strict DER of 8 to 72 bytes denoting the same two
      numbers, and convert back to the same bytes. */
  lemma ForwardInverse(r: Bytes, s: Bytes)
    requires |r| == 32 && |s| == 32
    ensures var der := RsToDer(r, s).value;
      && 8 <= |der| <= 72
      && IsSignatureOf(der, IntegerBody(r), IntegerBody(s))
      && Value(256, IntegerBody(r)) == Value(256, r)
      && Value(256, IntegerBody(s)) == Value(256, s)
      && DerToRs(der) == Ok((r, s))
  {
    BodyOf32(r);
    BodyOf32(s);
    ParsedContents(IntegerBody(r), IntegerBody(s));
  }

  /** Strict DER converts to two 32-byte numbers of the same values and back to itself. */
  lemma Canonical(der: Bytes, a: Bytes, b: Bytes)
    requires IsSignatureOf(der, a, b)
    ensures DerToRs(der).Ok?
    ensures var (r, s) := DerToRs(der).value;
      && |r| == 32 && |s| == 32
      && Value(256, r) == Value(256, a) && Value(256, s) == Value(256, b)
      && RsToDer(r, s) == Ok(der)
  {
    ParsedContents(a, b);
    BodyOfMinimal(a);
    BodyOfMinimal(b);
  }

  /** `c` is read as the 32 bytes `x`: without leading zeros they agree, and only one leading
      zero, the sign byte of a 33-byte integer, may exceed the 32 bytes. */
  ghost predicate ReadAs(c: Bytes, x: Bytes) {
    && |x| == 32 && Value(256, x) == Value(256, c)
    && (|c| <= 32 || (|c| == 33 && c[0] == 0))
  }

  /** Bytes the parser walks through: the two tags are in place, the first length byte counts the
      rest, the others say where the integers end unless the bytes end before. */
  ghost predicate Walks(der: Bytes, a: Bytes, b: Bytes) {
    && |der| >= 4 && der[0] == 0x30 && der[1] == |der| - 2 && der[2] == 0x02
    && var n := 4 + |a|;
      && der[3] == |a| && n + 1 < |der| && der[n] == 0x02 && der[4..n] == a
      && b == if n + 2 + der[n + 1] <= |der| then der[n + 2..n + 2 + der[n + 1]] else der[n + 2..]
  }

  lemma Reads(c: Bytes, x: Bytes)
    ensures |StripSign(c)| <= 32 && RJust32(StripSign(c)) == x <==> ReadAs(c, x)
  {
    var t := StripSign(c);
    if |t| < |c| {
      assert c == Zeros(1) + t;
      ValueLeadingZeros(256, 1, t);
    }
    if |t| <= 32 {
      assert RJust32(t) == Zeros(32 - |t|) + t;
      ValueLeadingZeros(256, 32 - |t|, t);
      if ReadAs(c, x) {
        ValueInjective(256, RJust32(t), x);
      }
    }
  }

  lemma WalksTo(der: Bytes, a: Bytes, b: Bytes, n: nat)
    requires Walks(der, a, b) && n == 4 + |a|
    ensures DerToRs(der)
         == if |StripSign(a)| > 32 || |StripSign(b)| > 32 then Err(SignatureError)
            else Ok((RJust32(StripSign(a)), RJust32(StripSign(b))))
  {
    assert Slice(der, 4, n) == a;
    assert Slice(der, n + 2, n + 2 + der[n + 1]) == b;
  }

  /** What the parser accepts, lenient as it is, and that it keeps both numbers. */
  lemma Accepts(der: Bytes, r: Bytes, s: Bytes)
    ensures DerToRs(der) == Ok((r, s))
       <==> exists a: Bytes, b: Bytes :: Walks(der, a, b) && ReadAs(a, r) && ReadAs(b, s)
  {
    forall a: Bytes, b: Bytes | Walks(der, a, b)
      ensures DerToRs(der) == Ok((r, s)) <==> ReadAs(a, r) && ReadAs(b, s)
    {
      WalksTo(der, a, b, 4 + |a|);
      Reads(a, r);
      Reads(b, s);
    }
    if DerToRs(der) == Ok((r, s)) {
      var n: nat := 4 + der[3];
      var a, b := Slice(der, 4, n), Slice(der, n + 2, n + 2 + der[n + 1]);
      assert Walks(der, a, b);
    }
  }

  /** The bytes end where the parser looks for the next one, and those before were in order. */
  ghost predicate EndsEarly(der: Bytes) {
    || der == []
    || (der[0] == 0x30
        && (|der| == 1 || (der[1] == |der| - 2 && (|der| == 2 || (der[2] == 0x02 && EndsInIntegers(der))))))
  }

  ghost predicate EndsInIntegers(der: Bytes)
    requires |der| >= 3
  {
    |der| == 3 || |der| - 4 <= der[3] || (der[4..][der[3]] == 0x02 && |der| - 5 == der[3])
  }

  /** Bytes that end early raise IndexError, everything else that is refused SignatureError. */
  lemma RefusedHow(der: Bytes)
    ensures DerToRs(der) == Err(IndexError) <==> EndsEarly(der)
    ensures DerToRs(der).Err? ==> DerToRs(der).error in {IndexError, SignatureError}
  {
    if |der| >= 4 && |der| - 4 > der[3] {
      var i: nat := der[3];
      assert der[4..][i] == der[4 + i];
    }
  }

  /** Conversion to r || s and back is the identity on exactly the strict DER signatures. */
  lemma RoundTripIffStrict(der: Bytes)
    ensures DerToRs(der).Ok? && RsToDer(DerToRs(der).value.0, DerToRs(der).value.1) == Ok(der)
       <==> IsStrictDer(der)
  {
    if DerToRs(der).Ok? && RsToDer(DerToRs(der).value.0, DerToRs(der).value.1) == Ok(der) {
      var (r, s) := DerToRs(der).value;
      ForwardInverse(r, s);
      assert IsSignatureOf(der, IntegerBody(r), IntegerBody(s));
    }
    if IsStrictDer(der) {
      var a: Bytes, b: Bytes :| IsSignatureOf(der, a, b);
      Canonical(der, a, b);
    }
  }

  /** Strict DER fits its length bytes and has no needless leading zero. */
  lemma StrictShape(der: Bytes)
    ensures IsStrictDer(der) ==>
      && |der| >= 8 && |der| > 5 + der[3] && |der| == 6 + der[3] + der[5 + der[3]]
      && (der[3] > 1 && der[4] == 0 ==> der[5] >= 0x80)
  {
    forall a: Bytes, b: Bytes | IsSignatureOf(der, a, b)
      ensures |a| == der[3] && |b| == der[5 + |a|] && a[0] == der[4] && (|a| > 1 ==> a[1] == der[5])
    {
      var n := 4 + |a|;
      DerPositions(a, b);
      assert a[0] == der[4..n][0] && (|a| > 1 ==> a[1] == der[4..n][1]);
    }
  }

  /** The parser itself is lenient: a needless leading zero and a length byte beyond the end
      are both accepted, so it alone does not decide strictness. */
  lemma LenientInputs()
    ensures var padded, clamped := [0x30, 7, 0x02, 2, 0, 1, 0x02, 1, 1], [0x30, 6, 0x02, 1, 1, 0x02, 9, 1];
      DerToRs(padded).Ok? && !IsStrictDer(padded) && DerToRs(clamped).Ok? && !IsStrictDer(clamped)
  {
    var padded: Bytes := [0x30, 7, 0x02, 2, 0, 1, 0x02, 1, 1];
    var clamped: Bytes := [0x30, 6, 0x02, 1, 1, 0x02, 9, 1];
    StrictShape(padded);
    StrictShape(clamped);
  }

  /** What it makes of any input it accepts is well-formed all the same: two 32-byte halves whose
      DER is strict and parses to the same halves. */
  lemma AcceptedIsNormalized(der: Bytes, r: Bytes, s: Bytes)
    requires DerToRs(der) == Ok((r, s))
    ensures |r| == 32 && |s| == 32
    ensures RsToDer(r, s).Ok? && IsStrictDer(RsToDer(r, s).value)
    ensures DerToRs(RsToDer(r, s).value) == Ok((r, s))
  {
    ForwardInverse(r, s);
    assert IsSignatureOf(RsToDer(r, s).value, IntegerBody(r), IntegerBody(s));
  }

  // ---- sign and verify ---------------------------------------------------------------

  datatype Signature = Signature(scheme: string, raw: Bytes, publicKey: Bytes)

  /** The signing libraries: deterministic functions; the verifiers are false where the library
      rejects the public key or the encoding. */
  datatype Library = Library(
    sha256: Bytes -> Bytes32,
    ecdsaSign: (Bytes32, Bytes32) -> Bytes,
    ecdsaVerify: (Bytes, Bytes, Bytes32) -> bool,
    schnorrSign: (Bytes32, Bytes32) -> Bytes,
    ed25519Sign: (Bytes32, Bytes) -> Bytes,
    ed25519Verify: (Bytes, Bytes, Bytes) -> bool,
    ed25519Public: Bytes32 -> Bytes)

  const ECDSA: string := "ecdsa-secp256k1"
  const SCHNORR: string := "schnorr-secp256k1"
  const ED25519: string := "ed25519"

  /** `Secp256kSigner.sign`. */
  function EcdsaSign(lib: Library, sk: Bytes32, publicKey: Bytes, message: Bytes): Result<Signature> {
    var rs :- DerToRs(lib.ecdsaSign(sk, lib.sha256(message)));
    Ok(Signature(ECDSA, rs.0 + rs.1, publicKey))
  }

  /** `Secp256kSchnorrSigner.sign`. */
  function SchnorrSign(lib: Library, sk: Bytes32, publicKey: Bytes, message: Bytes): Signature {
    Signature(SCHNORR, lib.schnorrSign(sk, lib.sha256(message)), publicKey)
  }

  /** `Ed25519Signer.sign`. */
  function Ed25519Sign(lib: Library, sk: Bytes32, publicKey: Bytes, message: Bytes): Signature {
    Signature(ED25519, lib.ed25519Sign(sk, message), publicKey)
  }

  predicate EcdsaVerify(lib: Library, raw: Bytes, message: Bytes, publicKey: Bytes) {
    match RsToDer(Slice(raw, 0, 32), Slice(raw, 32, |raw|))
    case Ok(der) => lib.ecdsaVerify(publicKey, der, lib.sha256(message))
    case Err(_) => false
  }

  /** `Signature.verify`, under the key of the signature unless another is given. For Schnorr it
      looks at the shape of the signature only. */
  function Verify(lib: Library, sig: Signature, message: Bytes, publicKey: Option<Bytes>): (r: Result<bool>)
    ensures r == Err(SignatureError)
       <==> sig.scheme !in {"ecdsa-secp256k1", "schnorr-secp256k1", "ed25519"}
    ensures r == Ok(true) && sig.scheme != "ed25519" ==> |sig.raw| == 64
  {
    var pk := if publicKey.Some? then publicKey.value else sig.publicKey;
    if sig.scheme == ECDSA then Ok(EcdsaVerify(lib, sig.raw, message, pk))
    else if sig.scheme == SCHNORR then Ok(|sig.raw| == 64 && sig.raw != Zeros(64))
    else if sig.scheme == ED25519 then Ok(lib.ed25519Verify(pk, sig.raw, message))
    else Err(SignatureError)
  }

  lemma JoinedHalves(lib: Library, raw: Bytes, r: Bytes, s: Bytes, message: Bytes, publicKey: Bytes)
    requires |r| == 32 && |s| == 32 && raw == r + s
    ensures EcdsaVerify(lib, raw, message, publicKey)
         == lib.ecdsaVerify(publicKey, RsToDer(r, s).value, lib.sha256(message))
  {
    assert Slice(raw, 0, 32) == r && Slice(raw, 32, |raw|) == s;
  }

  lemma StrictConverts(der: Bytes) returns (r: Bytes, s: Bytes)
    requires IsStrictDer(der)
    ensures |r| == 32 && |s| == 32 && DerToRs(der) == Ok((r, s)) && RsToDer(r, s) == Ok(der)
  {
    var a: Bytes, b: Bytes :| IsSignatureOf(der, a, b);
    Canonical(der, a, b);
    r, s := DerToRs(der).value.0, DerToRs(der).value.1;
  }

  /** Whatever the library signs, `sign` fails or yields the 64 bytes of the two numbers the parser
      read, under the signer's key; and `verify` hands the library their strict DER, with that key
      unless it is given another. */
  lemma VerifySeesNormalized(lib: Library, sk: Bytes32, publicKey: Bytes, message: Bytes,
                             sig: Signature, other: Bytes, key: Option<Bytes>)
    requires EcdsaSign(lib, sk, publicKey, message) == Ok(sig)
    ensures sig.scheme == "ecdsa-secp256k1" && sig.publicKey == publicKey && |sig.raw| == 64
    ensures DerToRs(lib.ecdsaSign(sk, lib.sha256(message))) == Ok((sig.raw[..32], sig.raw[32..]))
    ensures var der := RsToDer(sig.raw[..32], sig.raw[32..]);
      && der.Ok? && IsStrictDer(der.value)
      && Verify(lib, sig, other, key)
         == Ok(lib.ecdsaVerify(if key == None then publicKey else key.value, der.value, lib.sha256(other)))
  {
    var (r, s) := DerToRs(lib.ecdsaSign(sk, lib.sha256(message))).value;
    AcceptedIsNormalized(lib.ecdsaSign(sk, lib.sha256(message)), r, s);
    assert sig.raw[..32] == r && sig.raw[32..] == s;
    JoinedHalves(lib, sig.raw, r, s, other, if key == None then publicKey else key.value);
  }

  /** When the library signs in strict DER, `sign` succeeds, and `verify` hands the library the
      very DER it produced, for any message and public key it is asked about. */
  lemma VerifySeesSignedDer(lib: Library, sk: Bytes32, publicKey: Bytes, message: Bytes,
                            other: Bytes, key: Option<Bytes>)
    requires IsStrictDer(lib.ecdsaSign(sk, lib.sha256(message)))
    ensures var sig := EcdsaSign(lib, sk, publicKey, message);
      && sig.Ok? && |sig.value.raw| == 64
      && sig.value.scheme == "ecdsa-secp256k1" && sig.value.publicKey == publicKey
      && Verify(lib, sig.value, other, key)
         == Ok(lib.ecdsaVerify(if key == None then publicKey else key.value,
                               lib.ecdsaSign(sk, lib.sha256(message)), lib.sha256(other)))
  {
    var r, s := StrictConverts(lib.ecdsaSign(sk, lib.sha256(message)));
    var sig := EcdsaSign(lib, sk, publicKey, message).value;
    VerifySeesNormalized(lib, sk, publicKey, message, sig, other, key);
  }

  /** The other two signers name their scheme and key as well; Schnorr signs the digest of the
      message and Ed25519 the message itself, which is what its `verify` checks. */
  lemma OtherSigners(lib: Library, sk: Bytes32, publicKey: Bytes, message: Bytes, other: Bytes, key: Option<Bytes>)
    ensures var sig := SchnorrSign(lib, sk, publicKey, message);
      && sig == Signature("schnorr-secp256k1", lib.schnorrSign(sk, lib.sha256(message)), publicKey)
      && Verify(lib, sig, other, key)
         == Ok(|sig.raw| == 64 && exists i :: 0 <= i < |sig.raw| && sig.raw[i] != 0)
    ensures var sig := Ed25519Sign(lib, sk, publicKey, message);
      && sig == Signature("ed25519", lib.ed25519Sign(sk, message), publicKey)
      && Verify(lib, sig, other, key)
         == Ok(lib.ed25519Verify(if key == None then publicKey else key.value, sig.raw, other))
  {
    var raw := lib.schnorrSign(sk, lib.sha256(message));
    if |raw| == 64 && forall i :: 0 <= i < |raw| ==> raw[i] == 0 {
      assert raw == Zeros(64);
    }
  }
}
