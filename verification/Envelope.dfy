/** The KST1 keystore envelope: packing, unpacking, and whole runs of both. */
module Envelope {
  import opened Prelude
  import opened Radix
  import opened Struct

  const MAGIC: Bytes := [0x4B, 0x53, 0x54, 0x31]
  const VERSION: byte := 1
  const HEADER_LEN: nat := 66
  const GCM_TAG_LEN: nat := 16

  type Bytes12 = s: Bytes | |s| == 12 witness Zeros(12)

  /** The Argon2id settings the hash sees. */
  datatype Cost = Cost(timeCost: int, memoryCost: int, parallelism: int, hashLen: int, version: int)

  datatype Params = Params(cost: Cost, saltLen: nat)

  /** Argon2id (None where the library raises) and AES-256-GCM (None on a tag mismatch). */
  datatype Ciphers = Ciphers(
    argon2: (Bytes, Bytes, Cost) -> Option<Bytes>,
    encrypt: (Bytes32, Bytes12, Bytes, Bytes) -> Bytes,
    decrypt: (Bytes32, Bytes12, Bytes, Bytes) -> Option<Bytes>)

  /** The libraries' promises: output lengths, and decryption undoes encryption. */
  ghost predicate ValidCiphers(c: Ciphers) {
    && (forall secret, salt, cost {:trigger c.argon2(secret, salt, cost)} ::
          c.argon2(secret, salt, cost).Some? ==> |c.argon2(secret, salt, cost).value| == cost.hashLen)
    && (forall key, nonce, text, aad {:trigger c.encrypt(key, nonce, text, aad)} ::
          && |c.encrypt(key, nonce, text, aad)| == |text| + GCM_TAG_LEN
          && c.decrypt(key, nonce, c.encrypt(key, nonce, text, aad), aad) == Some(text))
  }

  /** Everything a call of `pack` is given, its random salt and nonce and the clock included. */
  datatype PackArgs = PackArgs(
    seed: Bytes, password: Bytes, params: Params, kdfId: int, hasPassphrase: bool,
    createdAt: int, salt: Bytes, nonce: Bytes12)

  datatype Unpacked = Unpacked(seed: Bytes, hasPassphrase: bool, createdAt: int)

  /** One use of the cipher. */
  datatype Sealed = Sealed(key: Bytes32, nonce: Bytes12, aad: Bytes, ciphertext: Bytes)

  // ---- operations --------------------------------------------------------------------

  function PackCost(p: Cost): (r: Result<Bytes>)
    ensures r.Ok? ==> |r.value| == 32
  {
    var t :- PackU32(p.timeCost);
    var m :- PackU32(p.memoryCost);
    var par :- PackU32(p.parallelism);
    var hl :- PackU32(p.hashLen);
    var v :- PackU32(p.version);
    Ok(t + m + par + hl + v + Zeros(12))
  }

  function UnpackCost(b: Bytes): Result<Cost> {
    if |b| != 32 then Err(KeystoreDecryptionError)
    else Ok(Cost(UnpackU32(b[0..4]), UnpackU32(b[4..8]), UnpackU32(b[8..12]),
                 UnpackU32(b[12..16]), UnpackU32(b[16..20])))
  }

  /** `derive_key`: the salt length is checked, and an empty key is no SecretBytes. */
  function DeriveKey(c: Ciphers, password: Bytes, params: Params, salt: Bytes): Result<Bytes> {
    if |salt| != params.saltLen then Err(ValueError)
    else match c.argon2(password, salt, params.cost)
      case None => Err(HashingError)
      case Some(raw) => if raw == [] then Err(ValueError) else Ok(raw)
  }

  /** AES-256-GCM takes 32-byte keys. */
  function AsKey(key: Bytes): Result<Bytes32> {
    if |key| == 32 then Ok(key) else Err(ValueError)
  }

  function Plaintext(seed: Bytes, createdAt: int, hasPassphrase: bool): Result<Bytes>
    requires |seed| <= 255
  {
    var ts :- PackI64(createdAt);
    Ok([|seed|] + seed + ts + [if hasPassphrase then 1 else 0] + Zeros(6))
  }

  /** `pack` up to and including the encryption. */
  function Seal(c: Ciphers, a: PackArgs): Result<Sealed> {
    if a.kdfId != 1 then Err(ValueError)
    else if |a.seed| > 255 then Err(ValueError)
    else if a.params.cost.hashLen != 32 then Err(ValueError)
    else
      var derived :- DeriveKey(c, a.password, a.params, a.salt);
      var text :- Plaintext(a.seed, a.createdAt, a.hasPassphrase);
      var key :- AsKey(derived);
      var aad := [VERSION, a.kdfId];
      Ok(Sealed(key, a.nonce, aad, c.encrypt(key, a.nonce, text, aad)))
  }

  function Pack(c: Ciphers, a: PackArgs): Result<Bytes> {
    var sealed :- Seal(c, a);
    var cost :- PackCost(a.params.cost);
    Ok(MAGIC + [VERSION, a.kdfId] + cost + a.salt + a.nonce + sealed.ciphertext)
  }

  /** `unpack` up to the decryption. */
  function Open(c: Ciphers, blob: Bytes, password: Bytes): Result<Sealed> {
    if |blob| < HEADER_LEN + GCM_TAG_LEN then Err(KeystoreDecryptionError)
    else if blob[0..4] != MAGIC then Err(KeystoreVersionError)
    else if blob[4] != VERSION then Err(KeystoreVersionError)
    else
      var cost :- UnpackCost(blob[6..38]);
      var derived :- DeriveKey(c, password, Params(cost, 16), blob[38..54]);
      var key :- AsKey(derived);
      Ok(Sealed(key, blob[54..66], [blob[4], blob[5]], blob[66..]))
  }

  function UnpackPlaintext(text: Bytes): Result<Unpacked> {
    if |text| < 1 + 8 + 1 + 6 then Err(KeystoreDecryptionError)
    else
      var n: nat := text[0];
      if |text| < 1 + n + 8 + 1 + 6 then Err(KeystoreDecryptionError)
      else if n == 0 then Err(ValueError)
      else Ok(Unpacked(text[1..1 + n], text[1 + n + 8] % 2 == 1, UnpackI64(text[1 + n..1 + n + 8])))
  }

  /** The decryption `unpack` asks for. */
  function Decrypted(c: Ciphers, s: Sealed): Option<Bytes> {
    c.decrypt(s.key, s.nonce, s.ciphertext, s.aad)
  }

  /** A blob that is too short fails as undecryptable, one of another format or version as such,
      and only kdf_id 1 is ever accepted, whatever the cipher says. */
  function Unpack(c: Ciphers, blob: Bytes, password: Bytes): (r: Result<Unpacked>)
    ensures |blob| < 82 ==> r == Err(KeystoreDecryptionError)
    ensures |blob| >= 82 && (blob[..4] != Ascii("KST1") || blob[4] != 1) ==> r == Err(KeystoreVersionError)
    ensures r.Ok? ==> |blob| >= 82 && blob[..4] == Ascii("KST1") && blob[4] == 1 && blob[5] == 1
    ensures r.Ok? ==> 1 <= |r.value.seed| <= 255
  {
    assert MAGIC == Ascii("KST1");
    var sealed :- Open(c, blob, password);
    match Decrypted(c, sealed)
    case None => Err(KeystoreDecryptionError)
    case Some(text) =>
      if sealed.aad[1] != 1 then Err(KeystoreVersionError) else UnpackPlaintext(text)
  }

  // ---- the record formats ------------------------------------------------------------

  predicate IsU32(n: int) {
    0 <= n <= 0xFFFF_FFFF
  }

  predicate CostFits(p: Cost) {
    IsU32(p.timeCost) && IsU32(p.memoryCost) && IsU32(p.parallelism) && IsU32(p.hashLen) && IsU32(p.version)
  }

  lemma CostRoundTrip(p: Cost)
    ensures PackCost(p).Ok? <==> CostFits(p)
    ensures PackCost(p).Ok? ==> UnpackCost(PackCost(p).value) == Ok(p)
  {
    if CostFits(p) {
      U32RoundTrip(p.timeCost);
      U32RoundTrip(p.memoryCost);
      U32RoundTrip(p.parallelism);
      U32RoundTrip(p.hashLen);
      U32RoundTrip(p.version);
      var b := PackCost(p).value;
      assert b[0..4] == PackU32(p.timeCost).value && b[4..8] == PackU32(p.memoryCost).value;
      assert b[8..12] == PackU32(p.parallelism).value && b[12..16] == PackU32(p.hashLen).value;
      assert b[16..20] == PackU32(p.version).value;
    }
  }

  /** The documented inner record, at its offsets. */
  ghost predicate PlaintextLayout(text: Bytes, seed: Bytes, createdAt: int, hasPassphrase: bool) {
    var n := |seed|;
    && |text| == n + 16
    && text[0] == n && text[1..n + 1] == seed
    && Value(256, text[n + 1..n + 9]) == createdAt % 0x1_0000_0000_0000_0000
    && text[n + 9] == (if hasPassphrase then 1 else 0)
    && text[n + 10..] == [0, 0, 0, 0, 0, 0]
  }

  lemma PlaintextSections(seed: Bytes, createdAt: int, hasPassphrase: bool)
    requires |seed| <= 255 && Plaintext(seed, createdAt, hasPassphrase).Ok?
    ensures PlaintextLayout(Plaintext(seed, createdAt, hasPassphrase).value, seed, createdAt, hasPassphrase)
  {
    var text, n := Plaintext(seed, createdAt, hasPassphrase).value, |seed|;
    I64RoundTrip(createdAt);
    assert text[n + 1..n + 9] == PackI64(createdAt).value;
  }

  /** The inner record decodes to what it was made from; an empty seed is refused. */
  lemma PlaintextRoundTrip(seed: Bytes, createdAt: int, hasPassphrase: bool)
    requires |seed| <= 255 && Plaintext(seed, createdAt, hasPassphrase).Ok?
    ensures var text := Plaintext(seed, createdAt, hasPassphrase).value;
      UnpackPlaintext(text)
      == if seed == [] then Err(ValueError) else Ok(Unpacked(seed, hasPassphrase, createdAt))
  {
    var text, n := Plaintext(seed, createdAt, hasPassphrase).value, |seed|;
    I64RoundTrip(createdAt);
    assert text[1..1 + n] == seed;
    assert text[1 + n..1 + n + 8] == PackI64(createdAt).value;
  }

  /** When `pack` returns a blob. */
  predicate Packable(c: Ciphers, a: PackArgs) {
    && a.kdfId == 1 && |a.seed| <= 255 && a.params.cost.hashLen == 32
    && |a.salt| == a.params.saltLen && c.argon2(a.password, a.salt, a.params.cost).Some?
    && -0x8000_0000_0000_0000 <= a.createdAt < 0x8000_0000_0000_0000 && CostFits(a.params.cost)
  }

  lemma PackSucceeds(c: Ciphers, a: PackArgs)
    requires ValidCiphers(c)
    ensures Pack(c, a).Ok? <==> Packable(c, a)
  {}

  /** The arguments are checked first, then Argon2 runs, then the integers are packed. */
  lemma PackFails(c: Ciphers, a: PackArgs)
    requires ValidCiphers(c) && Pack(c, a).Err?
    ensures Pack(c, a).error
         == if a.kdfId != 1 || |a.seed| > 255 || a.params.cost.hashLen != 32 || |a.salt| != a.params.saltLen
            then ValueError
            else if c.argon2(a.password, a.salt, a.params.cost).None? then HashingError
            else StructError
  {}

  /** A text starts with an inner record of a nonempty seed; what follows the flags is free. */
  ghost predicate StartsRecord(text: Bytes, u: Unpacked) {
    var n := |u.seed|;
    && 1 <= n && |text| >= n + 16
    && text[0] == n && text[1..n + 1] == u.seed
    && -0x8000_0000_0000_0000 <= u.createdAt < 0x8000_0000_0000_0000
    && Value(256, text[n + 1..n + 9]) == u.createdAt % 0x1_0000_0000_0000_0000
    && (u.hasPassphrase <==> text[n + 9] % 2 == 1)
  }

  /** What any decrypted text is read as; only the length byte zero gives a ValueError. */
  lemma PlaintextMeaning(text: Bytes, u: Unpacked)
    ensures UnpackPlaintext(text) == Ok(u) <==> StartsRecord(text, u)
    ensures UnpackPlaintext(text).Err? ==>
      UnpackPlaintext(text).error
      == if |text| >= 16 && text[0] == 0 then ValueError else KeystoreDecryptionError
  {
    if |text| >= 16 && text[0] != 0 && |text| - 16 >= text[0] {
      var n: nat := text[0];
      I64Reading(text[1 + n..1 + n + 8], u.createdAt);
    }
  }

  /** The one signed number of 64 bits congruent to the bytes. */
  lemma I64Reading(b: Bytes, t: int)
    requires |b| == 8
    ensures UnpackI64(b) == t
       <==> -0x8000_0000_0000_0000 <= t < 0x8000_0000_0000_0000 && Value(256, b) == t % 0x1_0000_0000_0000_0000
  {
    WidthPowers();
    ValueBound(256, b);
  }

  /** The documented header, at its offsets; integers are unsigned big-endian. The offsets behind
      the salt are those of the salt's length, 54 and 66 for the standard 16 bytes. */
  ghost predicate Layout(a: PackArgs, blob: Bytes) {
    var n := 38 + |a.salt|;
    && |blob| >= n + 12
    && blob[..4] == Ascii("KST1") && blob[4] == 1 && blob[5] == 1
    && Value(256, blob[6..10]) == a.params.cost.timeCost
    && Value(256, blob[10..14]) == a.params.cost.memoryCost
    && Value(256, blob[14..18]) == a.params.cost.parallelism
    && Value(256, blob[18..22]) == a.params.cost.hashLen
    && Value(256, blob[22..26]) == a.params.cost.version
    && blob[26..38] == [0, 0, 0, 0, 0, 0, 0, 0, 0, 0, 0, 0]
    && blob[38..n] == a.salt && blob[n..n + 12] == a.nonce
  }

  lemma PackedSize(c: Ciphers, a: PackArgs)
    requires ValidCiphers(c) && Pack(c, a).Ok?
    ensures |a.salt| == a.params.saltLen && |Pack(c, a).value| == 82 + |a.salt| + |a.seed|
    ensures |Seal(c, a).value.ciphertext| == |a.seed| + 32
  {}

  lemma PackedSections(c: Ciphers, a: PackArgs, n: nat)
    requires Pack(c, a).Ok? && n == 38 + |a.salt|
    ensures var blob := Pack(c, a).value;
      && |blob| >= n + 12
      && blob[..4] == Ascii("KST1") && blob[4] == 1 && blob[5] == 1
      && PackCost(a.params.cost) == Ok(blob[6..38])
      && blob[38..n] == a.salt && blob[n..n + 12] == a.nonce
      && blob[n + 12..] == Seal(c, a).value.ciphertext
  {
    assert MAGIC == Ascii("KST1");
    var blob, cost, sealed := Pack(c, a).value, PackCost(a.params.cost).value, Seal(c, a).value;
    Sections(MAGIC + [VERSION, a.kdfId], cost, a.salt, a.nonce, sealed.ciphertext);
    assert blob == MAGIC + [VERSION, a.kdfId] + cost + a.salt + a.nonce + sealed.ciphertext;
  }

  lemma Sections(head: Bytes, cost: Bytes, salt: Bytes, nonce: Bytes, rest: Bytes)
    requires |head| == 6 && |cost| == 32 && |nonce| == 12
    ensures var blob, n := head + cost + salt + nonce + rest, 38 + |salt|;
      && blob[..6] == head && blob[6..38] == cost && blob[38..n] == salt
      && blob[n..n + 12] == nonce && blob[n + 12..] == rest
  {}

  /** A packed blob has the documented header, and holds the encryption of the documented inner
      record under the key Argon2 makes of the password and the salt; it is 82 bytes longer than
      salt and seed. */
  lemma PackedLayout(c: Ciphers, a: PackArgs) returns (key: Bytes32, text: Bytes)
    requires ValidCiphers(c) && Pack(c, a).Ok?
    ensures var blob := Pack(c, a).value;
      && |blob| == 82 + |a.salt| + |a.seed| && Layout(a, blob)
      && c.argon2(a.password, a.salt, a.params.cost) == Some(key)
      && PlaintextLayout(text, a.seed, a.createdAt, a.hasPassphrase)
      && blob[50 + |a.salt|..] == c.encrypt(key, a.nonce, text, [1, 1])
  {
    PackedSections(c, a, 38 + |a.salt|);
    PackedSize(c, a);
    CostSection(a.params.cost, Pack(c, a).value);
    PlaintextSections(a.seed, a.createdAt, a.hasPassphrase);
    key, text := Seal(c, a).value.key, Plaintext(a.seed, a.createdAt, a.hasPassphrase).value;
  }

  lemma CostSection(p: Cost, blob: Bytes)
    requires |blob| >= 38 && PackCost(p) == Ok(blob[6..38])
    ensures Value(256, blob[6..10]) == p.timeCost && Value(256, blob[10..14]) == p.memoryCost
    ensures Value(256, blob[14..18]) == p.parallelism && Value(256, blob[18..22]) == p.hashLen
    ensures Value(256, blob[22..26]) == p.version && blob[26..38] == [0, 0, 0, 0, 0, 0, 0, 0, 0, 0, 0, 0]
  {
    CostRoundTrip(p);
    CostReading(blob);
    SliceOfSlice(blob, 6, 38, 20, 32);
    assert blob[6..38][20..32] == Zeros(12);
  }

  lemma CostReading(blob: Bytes)
    requires |blob| >= 38
    ensures UnpackCost(blob[6..38])
         == Ok(Cost(Value(256, blob[6..10]), Value(256, blob[10..14]), Value(256, blob[14..18]),
                    Value(256, blob[18..22]), Value(256, blob[22..26])))
  {
    SliceOfSlice(blob, 6, 38, 0, 4);
    SliceOfSlice(blob, 6, 38, 4, 8);
    SliceOfSlice(blob, 6, 38, 8, 12);
    SliceOfSlice(blob, 6, 38, 12, 16);
    SliceOfSlice(blob, 6, 38, 16, 20);
  }

  lemma SliceOfSlice(s: Bytes, lo: nat, hi: nat, i: nat, j: nat)
    requires lo <= hi <= |s| && i <= j <= hi - lo
    ensures s[lo..hi][i..j] == s[lo + i..lo + j]
  {
    forall k | 0 <= k < j - i
      ensures s[lo..hi][i..j][k] == s[lo + i..lo + j][k]
    {
      assert s[lo..hi][i..j][k] == s[lo..hi][i + k] == s[lo + i + k];
    }
  }

  // ---- round trip --------------------------------------------------------------------

  /** Opening a packed blob with the same password asks for the very ciphertext `pack` made. */
  lemma ReopensSealed(c: Ciphers, a: PackArgs)
    requires ValidCiphers(c) && Pack(c, a).Ok? && a.params.saltLen == 16
    ensures Open(c, Pack(c, a).value, a.password) == Seal(c, a)
  {
    PackedSections(c, a, 54);
    PackedSize(c, a);
    CostRoundTrip(a.params.cost);
  }

  /** The Argon2 settings a blob names. */
  function CostAt(blob: Bytes): Cost
    requires |blob| >= 82
  {
    Cost(Value(256, blob[6..10]), Value(256, blob[10..14]), Value(256, blob[14..18]),
         Value(256, blob[18..22]), Value(256, blob[22..26]))
  }

  /** How `unpack` treats a blob of its format: the password is hashed with the salt and settings
      the blob names, the hash decrypts the rest of the blob under its nonce and both version
      bytes, and the text is read as an inner record. */
  lemma UnpackOutcome(c: Ciphers, blob: Bytes, password: Bytes)
    requires |blob| >= 82 && blob[..4] == Ascii("KST1") && blob[4] == 1
    ensures Unpack(c, blob, password)
         == match c.argon2(password, blob[38..54], CostAt(blob))
            case None => Err(HashingError)
            case Some(hash) =>
              if |hash| != 32 then Err(ValueError)
              else match c.decrypt(hash, blob[54..66], blob[66..], [1, blob[5]])
                case None => Err(KeystoreDecryptionError)
                case Some(text) => if blob[5] != 1 then Err(KeystoreVersionError) else UnpackPlaintext(text)
  {
    CostReading(blob);
    assert blob[0..4] == blob[..4];
  }

  /** What `pack` stored, `unpack` returns. */
  lemma RoundTrip(c: Ciphers, a: PackArgs)
    requires ValidCiphers(c) && Pack(c, a).Ok? && a.seed != [] && a.params.saltLen == 16
    ensures Unpack(c, Pack(c, a).value, a.password)
         == Ok(Unpacked(a.seed, a.hasPassphrase, a.createdAt))
  {
    ReopensSealed(c, a);
    PlaintextRoundTrip(a.seed, a.createdAt, a.hasPassphrase);
  }

  // ---- whole runs under an ideal cipher ----------------------------------------------

  datatype Call = PackCall(args: PackArgs) | UnpackCall(blob: Bytes, password: Bytes)

  /** Call `j` of the run encrypted, and `sealed` is what it made. */
  ghost predicate SealedAt(c: Ciphers, run: seq<Call>, j: nat, sealed: Sealed) {
    j < |run| && run[j].PackCall? && Seal(c, run[j].args) == Ok(sealed)
  }

  /** The ideal-AEAD assumption: in this run, decryption succeeds only on what an earlier
      `pack` call encrypted. */
  ghost predicate IdealRun(c: Ciphers, run: seq<Call>) {
    forall i | 0 <= i < |run| && run[i].UnpackCall? ::
      var asked := Open(c, run[i].blob, run[i].password);
      asked.Ok? && Decrypted(c, asked.value).Some? ==>
        exists j: nat :: j < i && SealedAt(c, run, j, asked.value)
  }

  /** What `pack` encrypted, `unpack` decodes to the arguments. */
  lemma SealedDecodes(c: Ciphers, a: PackArgs)
    requires ValidCiphers(c) && Seal(c, a).Ok?
    ensures var sealed := Seal(c, a).value;
      && sealed.aad == [1, 1] && sealed.nonce == a.nonce
      && Decrypted(c, sealed).Some?
      && UnpackPlaintext(Decrypted(c, sealed).value)
         == if a.seed == [] then Err(ValueError) else Ok(Unpacked(a.seed, a.hasPassphrase, a.createdAt))
  {
    PlaintextRoundTrip(a.seed, a.createdAt, a.hasPassphrase);
  }

  /** The blob carries what a `pack` call encrypted: its nonce and ciphertext lie in the blob, and
      the password with the blob's salt and settings has the hash `pack` made of its own. */
  ghost predicate Carries(c: Ciphers, blob: Bytes, password: Bytes, a: PackArgs) {
    && |blob| >= 82 && blob[..4] == Ascii("KST1") && blob[4] == 1 && blob[5] == 1
    && Seal(c, a).Ok?
    && c.argon2(password, blob[38..54], CostAt(blob)) == c.argon2(a.password, a.salt, a.params.cost)
    && blob[54..66] == a.nonce && blob[66..] == Seal(c, a).value.ciphertext
  }

  lemma OpensTo(c: Ciphers, blob: Bytes, password: Bytes, a: PackArgs)
    requires Seal(c, a).Ok?
    ensures Open(c, blob, password) == Seal(c, a) <==> Carries(c, blob, password, a)
  {
    if |blob| >= 82 {
      CostReading(blob);
      assert blob[0..4] == blob[..4];
      assert MAGIC == Ascii("KST1");
    }
  }

  /** Over any interleaving of `pack` and `unpack` on arbitrary blobs and passwords, whatever
      `unpack` returns was given to an earlier `pack`, whose nonce and ciphertext the blob carries
      and whose password has the same hash. */
  lemma Authenticity(c: Ciphers, run: seq<Call>, i: nat) returns (j: nat)
    requires ValidCiphers(c) && IdealRun(c, run)
    requires i < |run| && run[i].UnpackCall? && Unpack(c, run[i].blob, run[i].password).Ok?
    ensures j < i && run[j].PackCall?
    ensures var a := run[j].args;
      && Carries(c, run[i].blob, run[i].password, a)
      && Unpack(c, run[i].blob, run[i].password) == Ok(Unpacked(a.seed, a.hasPassphrase, a.createdAt))
  {
    var asked := Open(c, run[i].blob, run[i].password).value;
    j :| j < i && SealedAt(c, run, j, asked);
    SealedDecodes(c, run[j].args);
    OpensTo(c, run[i].blob, run[i].password, run[j].args);
  }

  /** And nothing else decides: in such a run `unpack` succeeds exactly on what an earlier `pack`
      of a nonempty seed encrypted. */
  lemma AcceptsExactlySealed(c: Ciphers, run: seq<Call>, i: nat)
    requires ValidCiphers(c) && IdealRun(c, run)
    requires i < |run| && run[i].UnpackCall?
    ensures Unpack(c, run[i].blob, run[i].password).Ok? <==>
      exists j: nat ::
        && j < i && run[j].PackCall? && run[j].args.seed != []
        && Carries(c, run[i].blob, run[i].password, run[j].args)
  {
    if Unpack(c, run[i].blob, run[i].password).Ok? {
      var j := Authenticity(c, run, i);
    }
    forall j: nat | j < i && run[j].PackCall? && run[j].args.seed != []
      && Carries(c, run[i].blob, run[i].password, run[j].args)
      ensures Unpack(c, run[i].blob, run[i].password).Ok?
    {
      OpensTo(c, run[i].blob, run[i].password, run[j].args);
      SealedDecodes(c, run[j].args);
    }
  }

  /** When one `pack` is all that was encrypted, a blob that does not carry it is not decrypted. */
  lemma NotCarried(c: Ciphers, a: PackArgs, blob: Bytes, password: Bytes)
    requires IdealRun(c, [PackCall(a), UnpackCall(blob, password)])
    requires !Carries(c, blob, password, a) && Open(c, blob, password).Ok?
    ensures Decrypted(c, Open(c, blob, password).value).None?
  {
    var run := [PackCall(a), UnpackCall(blob, password)];
    assert run[1] == UnpackCall(blob, password);
    if Decrypted(c, Open(c, blob, password).value).Some? {
      var j: nat :| j < 1 && SealedAt(c, run, j, Open(c, blob, password).value);
      OpensTo(c, blob, password, a);
    }
  }

  lemma PackedCost(c: Ciphers, a: PackArgs)
    requires ValidCiphers(c) && Pack(c, a).Ok? && a.params.saltLen == 16
    ensures var blob := Pack(c, a).value;
      && |blob| >= 82 && blob[..4] == Ascii("KST1") && blob[4] == 1
      && blob[38..54] == a.salt && CostAt(blob) == a.params.cost
  {
    PackedSections(c, a, 54);
    PackedSize(c, a);
    CostSection(a.params.cost, Pack(c, a).value);
  }

  lemma OpensFormat(c: Ciphers, blob: Bytes, password: Bytes)
    requires |blob| >= 82 && blob[..4] == Ascii("KST1") && blob[4] == 1
    ensures var hash := c.argon2(password, blob[38..54], CostAt(blob));
      && (hash.None? ==> Open(c, blob, password) == Err(HashingError))
      && (hash.Some? && |hash.value| == 32 ==> Open(c, blob, password).Ok?)
  {
    CostReading(blob);
    assert blob[0..4] == MAGIC by { assert MAGIC == Ascii("KST1"); }
  }

  /** Which hash opening a packed blob asks for. */
  lemma OpensWith(c: Ciphers, a: PackArgs, password: Bytes)
    requires ValidCiphers(c) && Pack(c, a).Ok? && a.params.saltLen == 16
    ensures var blob, hash := Pack(c, a).value, c.argon2(password, a.salt, a.params.cost);
      && |blob| >= 82 && blob[38..54] == a.salt && CostAt(blob) == a.params.cost
      && (hash.None? ==> Open(c, blob, password) == Err(HashingError))
      && (hash.Some? ==> Open(c, blob, password).Ok?)
  {
    PackedCost(c, a);
    OpensFormat(c, Pack(c, a).value, password);
  }

  /** Only the hash of the password counts. */
  lemma SameHash(c: Ciphers, a: PackArgs, other: Bytes)
    requires ValidCiphers(c) && Pack(c, a).Ok? && a.params.saltLen == 16
    requires c.argon2(other, a.salt, a.params.cost) == c.argon2(a.password, a.salt, a.params.cost)
    ensures Unpack(c, Pack(c, a).value, other) == Unpack(c, Pack(c, a).value, a.password)
  {
    PackedCost(c, a);
    UnpackOutcome(c, Pack(c, a).value, other);
    UnpackOutcome(c, Pack(c, a).value, a.password);
  }

  /** The password decides: under an ideal cipher a blob does not unpack under a password with
      another hash, and the failure is a KeystoreDecryptionError. */
  lemma WrongPassword(c: Ciphers, a: PackArgs, other: Bytes)
    requires ValidCiphers(c) && Pack(c, a).Ok? && a.params.saltLen == 16
    requires IdealRun(c, [PackCall(a), UnpackCall(Pack(c, a).value, other)])
    requires c.argon2(other, a.salt, a.params.cost) != c.argon2(a.password, a.salt, a.params.cost)
    ensures Unpack(c, Pack(c, a).value, other)
         == Err(if c.argon2(other, a.salt, a.params.cost).None? then HashingError else KeystoreDecryptionError)
  {
    OpensWith(c, a, other);
    if Open(c, Pack(c, a).value, other).Ok? {
      NotCarried(c, a, Pack(c, a).value, other);
    }
  }

  /** Under an ideal cipher a blob with a salt of another length does not unpack: the fields
      behind the salt are misplaced. */
  lemma OtherSaltsFail(c: Ciphers, a: PackArgs)
    requires ValidCiphers(c) && Pack(c, a).Ok? && a.params.saltLen != 16
    requires IdealRun(c, [PackCall(a), UnpackCall(Pack(c, a).value, a.password)])
    ensures Unpack(c, Pack(c, a).value, a.password).Err?
  {
    PackedSize(c, a);
    if Open(c, Pack(c, a).value, a.password).Ok? {
      NotCarried(c, a, Pack(c, a).value, a.password);
    }
  }

  /** So what was packed is returned if and only if the salt has the header's 16 bytes. */
  lemma RoundTripIff16(c: Ciphers, a: PackArgs)
    requires ValidCiphers(c) && Pack(c, a).Ok? && a.seed != []
    requires IdealRun(c, [PackCall(a), UnpackCall(Pack(c, a).value, a.password)])
    ensures Unpack(c, Pack(c, a).value, a.password)
         == Ok(Unpacked(a.seed, a.hasPassphrase, a.createdAt))
       <==> a.params.saltLen == 16
  {
    if a.params.saltLen == 16 {
      RoundTrip(c, a);
    } else {
      OtherSaltsFail(c, a);
    }
  }

  /** The reserved bytes of the header are neither read nor authenticated. */
  lemma ReservedIgnored(c: Ciphers, blob: Bytes, other: Bytes, password: Bytes)
    requires |blob| == |other|
    requires forall i :: 0 <= i < |blob| && !(26 <= i < 38) ==> blob[i] == other[i]
    ensures Unpack(c, blob, password) == Unpack(c, other, password)
  {
    if |blob| >= HEADER_LEN {
      CostReading(blob);
      CostReading(other);
      assert blob[0..4] == other[0..4];
      assert blob[6..10] == other[6..10] && blob[10..14] == other[10..14] && blob[14..18] == other[14..18];
      assert blob[18..22] == other[18..22] && blob[22..26] == other[22..26];
      assert blob[38..54] == other[38..54] && blob[54..66] == other[54..66] && blob[66..] == other[66..];
    }
  }
}
