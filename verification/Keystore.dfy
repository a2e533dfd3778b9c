/** Keystores, wallets, and what a client can do with them. */
module Keystores {
  import opened Prelude
  import opened Radix
  import opened Text
  import opened Secrets
  import M = Mnemonics
  import MP = MnemonicProofs
  import D = Derivation
  import S = Signing
  import E = Envelope

  /** Everything the keystore takes from libraries. */
  datatype Env = Env(lexicon: M.Lexicon, primitives: D.Primitives, signing: S.Library, ciphers: E.Ciphers)

  datatype Keystore = Keystore(blob: Bytes, params: E.Params, hasPassphrase: bool, createdAt: int)

  datatype Account = Account(path: seq<D.Component>, scheme: string, sk: Bytes32, publicKey: Bytes)

  // ---- accounts ----------------------------------------------------------------------

  /** The signer of a scheme and its public key; the secp256k1 signers need a valid scalar. */
  function MakeAccount(env: Env, path: seq<D.Component>, sk: Bytes32, scheme: string): Result<Account> {
    if scheme == S.ECDSA then
      var point :- D.PublicKey(env.primitives, sk);
      Ok(Account(path, scheme, sk, point))
    else if scheme == S.SCHNORR then
      var point :- D.PublicKey(env.primitives, sk);
      Ok(Account(path, scheme, sk, point[1..]))
    else if scheme == S.ED25519 then
      Ok(Account(path, scheme, sk, env.signing.ed25519Public(sk)))
    else Err(ValueError)
  }

  function SignAs(env: Env, a: Account, message: Bytes): Result<S.Signature> {
    if a.scheme == S.ECDSA then S.EcdsaSign(env.signing, a.sk, a.publicKey, message)
    else if a.scheme == S.SCHNORR then Ok(S.SchnorrSign(env.signing, a.sk, a.publicKey, message))
    else Ok(S.Ed25519Sign(env.signing, a.sk, a.publicKey, message))
  }

  // ---- wallets as values -------------------------------------------------------------

  datatype WalletState = WalletState(closed: bool, seed: Bytes)

  function DerivedAccount(env: Env, w: WalletState, path: seq<D.Component>, scheme: string): Result<Account> {
    if w.closed then Err(RuntimeError)
    else
      var xprv :- D.FromSeed(env.primitives, w.seed, path);
      MakeAccount(env, path, xprv.sk, scheme)
  }

  function SignedMessage(env: Env, w: WalletState, path: seq<D.Component>, message: Bytes, scheme: string)
    : Result<S.Signature>
  {
    var account :- DerivedAccount(env, w, path, scheme);
    SignAs(env, account, message)
  }

  /** What a client may do with the `w`-th of its wallets. */
  datatype Op =
    | Derive(w: nat, path: seq<D.Component>, scheme: string)
    | Sign(w: nat, path: seq<D.Component>, message: Bytes, scheme: string)
    | Close(w: nat)

  datatype Reply = Derived(account: Result<Account>) | Signed(signature: Result<S.Signature>) | Closed

  function Answer(env: Env, w: WalletState, op: Op): Reply {
    match op
    case Derive(_, path, scheme) => Derived(DerivedAccount(env, w, path, scheme))
    case Sign(_, path, message, scheme) => Signed(SignedMessage(env, w, path, message, scheme))
    case Close(_) => Closed
  }

  function Step(w: WalletState, op: Op): WalletState {
    if op.Close? then WalletState(true, Zeros(|w.seed|)) else w
  }

  ghost predicate ValidOps(ops: seq<Op>, n: nat) {
    forall i :: 0 <= i < |ops| ==> ops[i].w < n
  }

  /** The wallets after a run. */
  ghost function After(ws: seq<WalletState>, ops: seq<Op>): (r: seq<WalletState>)
    requires ValidOps(ops, |ws|)
    ensures |r| == |ws|
    decreases |ops|
  {
    if ops == [] then ws
    else
      var n := |ops| - 1;
      var before := After(ws, ops[..n]);
      before[ops[n].w := Step(before[ops[n].w], ops[n])]
  }

  /** The replies of a run. */
  ghost function Replies(env: Env, ws: seq<WalletState>, ops: seq<Op>): (r: seq<Reply>)
    requires ValidOps(ops, |ws|)
    ensures |r| == |ops|
    decreases |ops|
  {
    if ops == [] then []
    else
      var n := |ops| - 1;
      Replies(env, ws, ops[..n]) + [Answer(env, After(ws, ops[..n])[ops[n].w], ops[n])]
  }

  ghost predicate ClosedIn(ops: seq<Op>, w: nat) {
    exists i :: 0 <= i < |ops| && ops[i] == Close(w)
  }

  lemma OneMore(env: Env, ws: seq<WalletState>, ops: seq<Op>, k: nat)
    requires ValidOps(ops, |ws|) && k < |ops|
    ensures var before, op := After(ws, ops[..k]), ops[k];
      && After(ws, ops[..k + 1]) == before[op.w := Step(before[op.w], op)]
      && Replies(env, ws, ops[..k + 1]) == Replies(env, ws, ops[..k]) + [Answer(env, before[op.w], op)]
  {
    assert ops[..k + 1][..k] == ops[..k];
  }

  /** After any run a wallet that was closed in it is closed, with an all-zero seed of the same
      length; every other wallet is exactly as it was. */
  lemma {:induction false} Lifecycle(ws: seq<WalletState>, ops: seq<Op>, w: nat)
    requires ValidOps(ops, |ws|) && w < |ws|
    ensures After(ws, ops)[w]
         == if ClosedIn(ops, w) then WalletState(true, Zeros(|ws[w].seed|)) else ws[w]
    decreases |ops|
  {
    if ops != [] {
      var n := |ops| - 1;
      Lifecycle(ws, ops[..n], w);
      assert ops == ops[..n] + [ops[n]];
      assert ClosedIn(ops, w) <==> ClosedIn(ops[..n], w) || ops[n] == Close(w);
    }
  }

  /** Each reply of a run: a wallet closed before it refuses, and an open one answers from its
      original seed, whatever else happened in between. */
  lemma {:induction false} ReplyAt(env: Env, ws: seq<WalletState>, ops: seq<Op>, i: nat)
    requires ValidOps(ops, |ws|) && i < |ops|
    ensures var op := ops[i];
      Replies(env, ws, ops)[i]
      == Answer(env, ws[op.w].(closed := ws[op.w].closed || ClosedIn(ops[..i], op.w)), op)
    decreases |ops|
  {
    var n := |ops| - 1;
    if i < n {
      ReplyAt(env, ws, ops[..n], i);
      assert ops[..n][..i] == ops[..i];
    } else {
      Lifecycle(ws, ops[..n], ops[i].w);
    }
  }

  /** Asking an open wallet twice gives the same reply, unless it was closed in between. */
  lemma Repeatable(env: Env, ws: seq<WalletState>, ops: seq<Op>, i: nat, j: nat)
    requires ValidOps(ops, |ws|) && i < j < |ops| && ops[i] == ops[j] && !ops[i].Close?
    ensures !ClosedIn(ops[..j], ops[j].w) ==> Replies(env, ws, ops)[i] == Replies(env, ws, ops)[j]
    ensures ClosedIn(ops[..j], ops[j].w) ==>
      Replies(env, ws, ops)[j] in {Derived(Err(RuntimeError)), Signed(Err(RuntimeError))}
  {
    ReplyAt(env, ws, ops, i);
    ReplyAt(env, ws, ops, j);
    if ClosedIn(ops[..i], ops[i].w) {
      var k :| 0 <= k < i && ops[..i][k] == Close(ops[i].w);
      assert ops[..j][k] == Close(ops[j].w);
    }
  }

  // ---- wallets as objects ------------------------------------------------------------

  class Wallet {
    const mnemonic: Option<M.Mnemonic>
    const seed: SecretBytes
    var closed: bool

    ghost function State(): WalletState
      reads this, seed.buf
    {
      WalletState(closed, seed.Content())
    }

    /** The wallet keeps the very buffer it is given. */
    constructor (mnemonic: Option<M.Mnemonic>, seed: SecretBytes)
      ensures this.mnemonic == mnemonic && this.seed == seed
      ensures State() == WalletState(false, seed.Content())
    {
      this.mnemonic := mnemonic;
      this.seed := seed;
      this.closed := false;
    }

    method DeriveAccount(env: Env, path: seq<D.Component>, scheme: string) returns (r: Result<Account>)
      ensures r == DerivedAccount(env, State(), path, scheme)
    {
      if closed {
        return Err(RuntimeError);
      }
      var bytes := seed.ToBytes();
      var xprv := D.DeriveFromSeed(env.primitives, bytes, path);
      if xprv.Err? {
        return Err(xprv.error);
      }
      r := MakeAccount(env, path, xprv.value.sk, scheme);
    }

    method SignMessage(env: Env, path: seq<D.Component>, message: Bytes, scheme: string)
      returns (r: Result<S.Signature>)
      ensures r == SignedMessage(env, State(), path, message, scheme)
    {
      if closed {
        return Err(RuntimeError);
      }
      var account := DeriveAccount(env, path, scheme);
      if account.Err? {
        return Err(account.error);
      }
      r := SignAs(env, account.value, message);
    }

    method Close()
      modifies this, seed.buf
      ensures State() == WalletState(true, Zeros(|old(seed.Content())|))
    {
      seed.Zeroize();
      closed := true;
    }
  }

  /** Distinct wallets with distinct buffers. */
  ghost predicate Separate(wallets: seq<Wallet>) {
    forall i, j :: 0 <= i < j < |wallets| ==>
      wallets[i] != wallets[j] && wallets[i].seed.buf != wallets[j].seed.buf
  }

  ghost predicate Holds(wallets: seq<Wallet>, ws: seq<WalletState>)
    reads wallets, set w | w in wallets :: w.seed.buf
  {
    |wallets| == |ws| && forall i :: 0 <= i < |ws| ==> wallets[i].State() == ws[i]
  }

  /** One call on one of several separate wallets. */
  method Perform(env: Env, wallets: seq<Wallet>, op: Op, ghost ws: seq<WalletState>)
    returns (reply: Reply)
    requires Separate(wallets) && Holds(wallets, ws) && op.w < |wallets|
    modifies wallets, set w | w in wallets :: w.seed.buf
    ensures Holds(wallets, ws[op.w := Step(ws[op.w], op)])
    ensures reply == Answer(env, ws[op.w], op)
  {
    var wallet := wallets[op.w];
    match op {
      case Derive(_, path, scheme) =>
        var account := wallet.DeriveAccount(env, path, scheme);
        reply := Derived(account);
      case Sign(_, path, message, scheme) =>
        var signature := wallet.SignMessage(env, path, message, scheme);
        reply := Signed(signature);
      case Close(_) =>
        wallet.Close();
        reply := Closed;
    }
  }

  /** A client issuing any sequence of calls to any number of separate wallets sees the replies
      of the value-level run and leaves the wallets in its final states. */
  method Execute(env: Env, wallets: seq<Wallet>, ops: seq<Op>, ghost ws: seq<WalletState>)
    returns (replies: seq<Reply>)
    requires Separate(wallets) && Holds(wallets, ws) && ValidOps(ops, |wallets|)
    modifies wallets, set w | w in wallets :: w.seed.buf
    ensures Holds(wallets, After(ws, ops)) && replies == Replies(env, ws, ops)
  {
    replies := [];
    ghost var now := ws;
    for k := 0 to |ops|
      invariant now == After(ws, ops[..k]) && Holds(wallets, now)
      invariant replies == Replies(env, ws, ops[..k])
    {
      OneMore(env, ws, ops, k);
      var reply := Perform(env, wallets, ops[k], now);
      replies := replies + [reply];
      now := now[ops[k].w := Step(now[ops[k].w], ops[k])];
    }
    assert ops[..|ops|] == ops;
  }

  /** Separateness matters: closing one of two wallets built on one buffer leaves the other
      open, deriving from zeros. */
  method CloseShared(a: Wallet, b: Wallet)
    requires a != b && a.seed == b.seed
    modifies a, a.seed.buf
    ensures b.State() == WalletState(old(b.closed), Zeros(|old(b.State().seed)|))
  {
    a.Close();
  }

  // ---- create and unlock -------------------------------------------------------------

  /** The call of `pack` that `create` makes; `now`, `salt` and `nonce` come from the system. */
  function CreateArgs(seed: Bytes, password: string, params: E.Params, hasPassphrase: bool,
                      now: int, salt: Bytes, nonce: E.Bytes12): E.PackArgs
  {
    E.PackArgs(seed, Utf8(password), params, 1, hasPassphrase, now, salt, nonce)
  }

  function Created(env: Env, m: M.Mnemonic, password: string, params: E.Params, hasPassphrase: bool,
                   now: int, salt: Bytes, nonce: E.Bytes12): Result<Keystore>
  {
    if password == "" then Err(ValueError)
    else
      var seed :- M.Entropy(env.lexicon, m);
      var blob :- E.Pack(env.ciphers, CreateArgs(seed, password, params, hasPassphrase, now, salt, nonce));
      Ok(Keystore(blob, params, hasPassphrase, 0))
  }

  /** `Keystore.create`. */
  method Create(env: Env, m: M.Mnemonic, password: string, params: E.Params, hasPassphrase: bool,
                now: int, salt: Bytes, nonce: E.Bytes12) returns (r: Result<Keystore>)
    ensures r == Created(env, m, password, params, hasPassphrase, now, salt, nonce)
  {
    if password == "" {
      return Err(ValueError);
    }
    var secret := new SecretBytes.Copy(Utf8(password));
    var seed := M.Entropy(env.lexicon, m);
    if seed.Err? {
      return Err(seed.error);
    }
    var bytes := secret.ToBytes();
    var blob := E.Pack(env.ciphers, E.PackArgs(seed.value, bytes, params, 1, hasPassphrase, now, salt, nonce));
    if blob.Err? {
      return Err(blob.error);
    }
    secret.Zeroize();
    r := Ok(Keystore(blob.value, params, hasPassphrase, 0));
  }

  /** The mnemonic an unlocked seed gets: one of a BIP-39 size is encoded, any other has none. */
  function SeedMnemonic(lex: M.Lexicon, seed: Bytes): Option<M.Mnemonic> {
    if !M.IsEntropySize(|seed|) then None
    else match M.FromEntropy(lex, seed)
      case Ok(m) => Some(m)
      case Err(_) => None
  }

  /** What `unlock` finds in a blob: the mnemonic, if any, and the seed. */
  function Unlocked(env: Env, blob: Bytes, password: string): Result<(Option<M.Mnemonic>, Bytes)> {
    if password == "" then Err(ValueError)
    else
      var u :- E.Unpack(env.ciphers, blob, Utf8(password));
      Ok((SeedMnemonic(env.lexicon, u.seed), u.seed))
  }

  /** The loop of `unlock` over the BIP-39 sizes. */
  method Reconstruct(lex: M.Lexicon, seed: Bytes) returns (m: Option<M.Mnemonic>)
    ensures m == SeedMnemonic(lex, seed)
  {
    m := None;
    var sizes := [128, 160, 192, 224, 256];
    for i := 0 to |sizes|
      invariant m == None && forall k :: 0 <= k < i ==> |seed| != sizes[k] / 8
    {
      if |seed| == sizes[i] / 8 {
        var encoded := M.FromEntropy(lex, seed);
        m := if encoded.Ok? then Some(encoded.value) else None;
        break;
      }
    }
    assert sizes[0] == 128 && sizes[1] == 160 && sizes[2] == 192 && sizes[3] == 224 && sizes[4] == 256;
  }

  class KeystoreContext {
    const blob: Bytes

    constructor (blob: Bytes)
      ensures this.blob == blob
    {
      this.blob := blob;
    }

    /** `unlock`: every wallet has a seed buffer of its own. */
    method Unlock(env: Env, password: string) returns (r: Result<Wallet>)
      ensures match Unlocked(env, blob, password)
        case Err(e) => r == Err(e)
        case Ok((m, seed)) =>
          && r.Ok? && fresh(r.value) && fresh(r.value.seed) && fresh(r.value.seed.buf)
          && r.value.mnemonic == m && r.value.State() == WalletState(false, seed)
    {
      var secret := SecretBytes.Make(Utf8(password));
      if secret.Err? {
        return Err(secret.error);
      }
      var bytes := secret.value.ToBytes();
      var unpacked := E.Unpack(env.ciphers, blob, bytes);
      if unpacked.Err? {
        return Err(unpacked.error);
      }
      secret.value.Zeroize();
      var m := Reconstruct(env.lexicon, unpacked.value.seed);
      var seed := new SecretBytes.Copy(unpacked.value.seed);
      var wallet := new Wallet(m, seed);
      r := Ok(wallet);
    }
  }

  /** Unlocking one blob any number of times gives separate wallets, all open on one seed. */
  method UnlockMany(env: Env, context: KeystoreContext, password: string, n: nat)
    returns (wallets: seq<Wallet>)
    requires Unlocked(env, context.blob, password).Ok?
    ensures |wallets| == n && Separate(wallets)
    ensures fresh(set w | w in wallets) && fresh(set w | w in wallets :: w.seed.buf)
    ensures var (m, seed) := Unlocked(env, context.blob, password).value;
      forall i :: 0 <= i < n ==>
        wallets[i].mnemonic == m && wallets[i].State() == WalletState(false, seed)
  {
    wallets := [];
    ghost var (m, seed) := Unlocked(env, context.blob, password).value;
    for k := 0 to n
      invariant |wallets| == k && Separate(wallets)
      invariant forall i :: 0 <= i < k ==> fresh(wallets[i]) && fresh(wallets[i].seed.buf)
      invariant forall i :: 0 <= i < k ==>
        wallets[i].mnemonic == m && wallets[i].State() == WalletState(false, seed)
    {
      var r := context.Unlock(env, password);
      wallets := wallets + [r.value];
    }
  }

  /** A whole session: wallets unlocked from one blob, then any calls on any of them. */
  method Session(env: Env, context: KeystoreContext, password: string, n: nat, ops: seq<Op>)
    returns (wallets: seq<Wallet>, replies: seq<Reply>)
    requires Unlocked(env, context.blob, password).Ok? && ValidOps(ops, n)
    ensures var ws := seq(n, _ => WalletState(false, Unlocked(env, context.blob, password).value.1));
      Holds(wallets, After(ws, ops)) && replies == Replies(env, ws, ops)
    ensures forall w :: w in wallets ==> w.mnemonic == Unlocked(env, context.blob, password).value.0
  {
    wallets := UnlockMany(env, context, password, n);
    ghost var ws := seq(n, _ => WalletState(false, Unlocked(env, context.blob, password).value.1));
    replies := Execute(env, wallets, ops, ws);
  }

  // ---- end to end --------------------------------------------------------------------

  ghost predicate ValidEnv(env: Env) {
    M.ValidLexicon(env.lexicon) && E.ValidCiphers(env.ciphers)
  }

  /** An unlocked wallet has a mnemonic exactly for the BIP-39 seed sizes, and the mnemonic
      alone determines the seed; closing the wallet does not change it. */
  lemma UnlockedMnemonic(env: Env, blob: Bytes, password: string)
    requires ValidEnv(env) && Unlocked(env, blob, password).Ok?
    ensures var (m, seed) := Unlocked(env, blob, password).value;
      && (m.Some? <==> M.IsEntropySize(|seed|))
      && (m.Some? ==> M.FromEntropy(env.lexicon, seed) == Ok(m.value))
      && (m.Some? ==> M.Entropy(env.lexicon, m.value) == Ok(seed))
  {
    SeedMnemonicMeans(env.lexicon, Unlocked(env, blob, password).value.1);
  }

  lemma SeedMnemonicMeans(lex: M.Lexicon, seed: Bytes)
    requires M.ValidLexicon(lex)
    ensures SeedMnemonic(lex, seed).Some? <==> M.IsEntropySize(|seed|)
    ensures M.IsEntropySize(|seed|) ==> M.Entropy(lex, SeedMnemonic(lex, seed).value) == Ok(seed)
  {
    if M.IsEntropySize(|seed|) {
      MP.EntropyRoundTrip(lex, seed);
    }
  }

  /** So it outlives the seed buffer: a wallet unlocked and closed has a zeroed seed, and a
      mnemonic whose entropy is the seed it had. */
  method UnlockAndClose(env: Env, context: KeystoreContext, password: string) returns (wallet: Wallet)
    requires ValidEnv(env) && Unlocked(env, context.blob, password).Ok?
    ensures var seed := Unlocked(env, context.blob, password).value.1;
      && wallet.State() == WalletState(true, Zeros(|seed|))
      && (wallet.mnemonic.Some? <==> M.IsEntropySize(|seed|))
      && (wallet.mnemonic.Some? ==> M.Entropy(env.lexicon, wallet.mnemonic.value) == Ok(seed))
  {
    var r := context.Unlock(env, password);
    wallet := r.value;
    wallet.Close();
    UnlockedMnemonic(env, context.blob, password);
  }

  /** The mnemonic of the entropy of an accepted phrase has the words of the phrase. */
  lemma SameWords(lex: M.Lexicon, phrase: string) returns (ent: Bytes)
    requires M.ValidLexicon(lex) && M.FromPhrase(lex, phrase).Ok?
    ensures M.IsEntropySize(|ent|) && M.Entropy(lex, M.FromPhrase(lex, phrase).value) == Ok(ent)
    ensures M.FromEntropy(lex, ent)
         == Ok(M.Mnemonic(Join(Split(M.FromPhrase(lex, phrase).value.phrase), ' ')))
    ensures Split(M.FromEntropy(lex, ent).value.phrase) == Split(M.FromPhrase(lex, phrase).value.phrase)
  {
    ent := MP.AcceptedIsEncoding(lex, phrase);
    MP.ExactImage(lex, phrase);
    MP.AcceptedEntropy(lex, phrase, ent);
    SplitJoin(Split(lex.nfkd(phrase)));
  }

  /** Creating a keystore from an accepted phrase and unlocking it with the same password gives
      back the original entropy and a mnemonic with the same words; the blob holds the flag and
      the time of its creation. */
  lemma EndToEnd(env: Env, phrase: string, m: M.Mnemonic, password: string, params: E.Params,
                 hasPassphrase: bool, now: int, salt: Bytes, nonce: E.Bytes12, ks: Keystore)
    requires ValidEnv(env) && M.FromPhrase(env.lexicon, phrase) == Ok(m) && params.saltLen == 16
    requires Created(env, m, password, params, hasPassphrase, now, salt, nonce) == Ok(ks)
    ensures Unlocked(env, ks.blob, password).Ok?
    ensures var (m', seed) := Unlocked(env, ks.blob, password).value;
      && M.Entropy(env.lexicon, m) == Ok(seed)
      && m'.Some? && Split(m'.value.phrase) == Split(m.phrase)
      && E.Unpack(env.ciphers, ks.blob, Utf8(password)) == Ok(E.Unpacked(seed, hasPassphrase, now))
  {
    var ent := SameWords(env.lexicon, phrase);
    E.RoundTrip(env.ciphers, CreateArgs(ent, password, params, hasPassphrase, now, salt, nonce));
  }

  /** What a created keystore records, and how creation fails on a phrase it can take. */
  lemma CreatedRecord(env: Env, m: M.Mnemonic, seed: Bytes, password: string, params: E.Params,
                      hasPassphrase: bool, now: int, salt: Bytes, nonce: E.Bytes12)
    requires M.Entropy(env.lexicon, m) == Ok(seed)
    ensures var r, blob := Created(env, m, password, params, hasPassphrase, now, salt, nonce),
        E.Pack(env.ciphers, E.PackArgs(seed, Utf8(password), params, 1, hasPassphrase, now, salt, nonce));
      && (password == "" ==> r == Err(ValueError))
      && (password != "" && blob.Ok? ==> r == Ok(Keystore(blob.value, params, hasPassphrase, 0)))
      && (password != "" && blob.Err? ==> r == Err(blob.error))
  {}

  /** Under an ideal cipher only a password with the same hash opens what was created. */
  lemma WrongPasswordLocks(env: Env, phrase: string, m: M.Mnemonic, password: string, params: E.Params,
                           hasPassphrase: bool, now: int, salt: Bytes, nonce: E.Bytes12, ks: Keystore,
                           other: string)
    requires ValidEnv(env) && M.FromPhrase(env.lexicon, phrase) == Ok(m) && params.saltLen == 16
    requires Created(env, m, password, params, hasPassphrase, now, salt, nonce) == Ok(ks)
    requires var a := CreateArgs(M.Entropy(env.lexicon, m).value, password, params, hasPassphrase, now, salt, nonce);
      E.IdealRun(env.ciphers, [E.PackCall(a), E.UnpackCall(ks.blob, Utf8(other))])
    requires other != "" && env.ciphers.argon2(Utf8(other), salt, params.cost).Some?
    ensures Unlocked(env, ks.blob, other)
         == if env.ciphers.argon2(Utf8(other), salt, params.cost)
               == env.ciphers.argon2(Utf8(password), salt, params.cost)
            then Unlocked(env, ks.blob, password)
            else Err(KeystoreDecryptionError)
  {
    var ent := SameWords(env.lexicon, phrase);
    var a := CreateArgs(ent, password, params, hasPassphrase, now, salt, nonce);
    if env.ciphers.argon2(Utf8(other), salt, params.cost) == env.ciphers.argon2(Utf8(password), salt, params.cost) {
      E.SameHash(env.ciphers, a, Utf8(other));
    } else {
      E.WrongPassword(env.ciphers, a, Utf8(other));
    }
  }

  /** Under an ideal cipher this needs the 16-byte salt the header has room for. */
  lemma OtherSaltsLock(env: Env, phrase: string, m: M.Mnemonic, password: string, params: E.Params,
                       hasPassphrase: bool, now: int, salt: Bytes, nonce: E.Bytes12, ks: Keystore)
    requires ValidEnv(env) && M.FromPhrase(env.lexicon, phrase) == Ok(m) && params.saltLen != 16
    requires Created(env, m, password, params, hasPassphrase, now, salt, nonce) == Ok(ks)
    requires var a := CreateArgs(M.Entropy(env.lexicon, m).value, password, params, hasPassphrase, now, salt, nonce);
      E.IdealRun(env.ciphers, [E.PackCall(a), E.UnpackCall(ks.blob, Utf8(password))])
    ensures Unlocked(env, ks.blob, password).Err?
  {
    var ent := SameWords(env.lexicon, phrase);
    E.OtherSaltsFail(env.ciphers, CreateArgs(ent, password, params, hasPassphrase, now, salt, nonce));
  }

  /** `create` succeeds exactly on a non-empty password and what `pack` accepts. */
  lemma CreateSucceeds(env: Env, m: M.Mnemonic, seed: Bytes, password: string,
                       params: E.Params, hasPassphrase: bool, now: int, salt: Bytes, nonce: E.Bytes12)
    requires ValidEnv(env) && M.Entropy(env.lexicon, m) == Ok(seed)
    ensures Created(env, m, password, params, hasPassphrase, now, salt, nonce).Ok?
       <==> password != ""
            && E.Packable(env.ciphers, CreateArgs(seed, password, params, hasPassphrase, now, salt, nonce))
  {
    E.PackSucceeds(env.ciphers, CreateArgs(seed, password, params, hasPassphrase, now, salt, nonce));
  }

  // ---- accounts and BIP-32 -----------------------------------------------------------

  lemma {:induction false} PathErrors(p: D.Primitives, key: D.ExtendedKey, path: seq<D.Component>)
    requires D.DerivePath(p, key, path).Err?
    ensures D.DerivePath(p, key, path) == Err(ValueError)
    decreases |path|
  {
    DeriveErrors(p, key, path[0]);
    if D.Derive(p, key, path[0]).Ok? {
      PathErrors(p, D.Derive(p, key, path[0]).value, path[1..]);
    }
  }

  lemma DeriveErrors(p: D.Primitives, key: D.ExtendedKey, c: D.Component)
    ensures D.Derive(p, key, c).Err? ==> D.Derive(p, key, c) == Err(ValueError)
  {
    if D.ValidScalar(key.sk) && 0 <= c.0 <= 0x7FFF_FFFF {
      D.DeriveIsCKDpriv(p, key, c);
    } else {
      D.DeriveOtherwiseFails(p, key, c);
    }
  }

  /** The account of a scheme for the private key BIP-32 gives a path of a seed: the compressed
      point, its x coordinate alone, or the Ed25519 key. */
  function Bip32Account(env: Env, seed: Bytes, path: seq<D.Component>, scheme: string): Result<Account>
    requires D.ValidPath(path)
  {
    match D.Bip32(env.primitives, seed, D.ChildNumbers(path))
    case None => Err(ValueError)
    case Some((k, _)) =>
      var sk: Bytes32 := Digits(256, k, 32);
      var publicKey :=
        if scheme == "ecdsa-secp256k1" then env.primitives.point(sk)
        else if scheme == "schnorr-secp256k1" then env.primitives.point(sk)[1..]
        else env.signing.ed25519Public(sk);
      Ok(Account(path, scheme, sk, publicKey))
  }

  predicate IsScheme(scheme: string) {
    scheme == "ecdsa-secp256k1" || scheme == "schnorr-secp256k1" || scheme == "ed25519"
  }

  /** An open wallet's accounts follow BIP-32 on every path; the secp256k1 signers refuse even the
      invalid master key that derivation lets through at `m`, and only Ed25519 takes it. */
  lemma AccountFollowsBip32(env: Env, w: WalletState, path: seq<D.Component>, scheme: string)
    requires !w.closed && D.ValidPath(path) && IsScheme(scheme)
    ensures DerivedAccount(env, w, path, scheme) == Bip32Account(env, w.seed, path, scheme)
       <==> scheme != "ed25519" || path != [] || D.ValidScalar(D.SeedHash(env.primitives, w.seed)[..32])
  {
    var p := env.primitives;
    var r, spec := D.FromSeed(p, w.seed, path), D.Bip32(p, w.seed, D.ChildNumbers(path));
    D.FollowsBip32(p, w.seed, path);
    D.MasterKey(p, w.seed);
    D.MasterFollows(p, w.seed);
    D.ValidExceptMaster(p, w.seed, path);
    if r.Err? {
      PathErrors(p, D.Master(p, w.seed), path);
    } else if D.IsKey(r, spec) {
      OrderedScalar(p, w.seed, path);
    } else {
      assert D.ChildNumbers(path) == [];
    }
  }

  lemma OrderedScalar(p: D.Primitives, seed: Bytes, path: seq<D.Component>)
    requires D.ValidPath(path) && D.Bip32(p, seed, D.ChildNumbers(path)).Some?
    ensures var k := D.Bip32(p, seed, D.ChildNumbers(path)).value.0;
      D.Int(Digits(256, k, 32)) == k
  {
    D.OrderFits();
    ValueOfDigits(256, D.Bip32(p, seed, D.ChildNumbers(path)).value.0, 32);
  }

  lemma {:induction false} InvalidPathFails(p: D.Primitives, key: D.ExtendedKey, path: seq<D.Component>)
    requires !D.ValidPath(path)
    ensures D.DerivePath(p, key, path) == Err(ValueError)
    decreases |path|
  {
    DeriveErrors(p, key, path[0]);
    if 0 <= path[0].0 <= 0x7FFF_FFFF {
      if D.Derive(p, key, path[0]).Ok? {
        InvalidPathFails(p, D.Derive(p, key, path[0]).value, path[1..]);
      }
    } else {
      D.DeriveOtherwiseFails(p, key, path[0]);
    }
  }

  /** A closed wallet refuses everything, an open one index numbers beyond 31 bits and unknown
      schemes. */
  lemma RefusedAccounts(env: Env, w: WalletState, path: seq<D.Component>, scheme: string)
    ensures w.closed ==> DerivedAccount(env, w, path, scheme) == Err(RuntimeError)
    ensures !w.closed && !(D.ValidPath(path) && IsScheme(scheme)) ==>
      DerivedAccount(env, w, path, scheme) == Err(ValueError)
  {
    if !D.ValidPath(path) {
      InvalidPathFails(env.primitives, D.Master(env.primitives, w.seed), path);
    }
    if D.FromSeed(env.primitives, w.seed, path).Err? {
      PathErrors(env.primitives, D.Master(env.primitives, w.seed), path);
    }
  }

  // ---- signing with a wallet ---------------------------------------------------------

  /** What a wallet signs: a signature of its scheme under the account's key, over the digest of
      the message, and over the message itself for Ed25519. */
  lemma SignedWith(env: Env, w: WalletState, path: seq<D.Component>, message: Bytes, scheme: string)
    ensures DerivedAccount(env, w, path, scheme).Err? ==>
      SignedMessage(env, w, path, message, scheme) == Err(DerivedAccount(env, w, path, scheme).error)
    ensures SignedMessage(env, w, path, message, scheme).Ok? ==>
      var account, sig :=
        DerivedAccount(env, w, path, scheme).value, SignedMessage(env, w, path, message, scheme).value;
      && sig.scheme == scheme && sig.publicKey == account.publicKey
      && match scheme
         case "ecdsa-secp256k1" =>
           && |sig.raw| == 64
           && S.DerToRs(env.signing.ecdsaSign(account.sk, env.signing.sha256(message)))
              == Ok((sig.raw[..32], sig.raw[32..]))
         case "schnorr-secp256k1" => sig.raw == env.signing.schnorrSign(account.sk, env.signing.sha256(message))
         case _ => sig.raw == env.signing.ed25519Sign(account.sk, message)
  {
    if SignedMessage(env, w, path, message, scheme).Ok? {
      var a, sig := DerivedAccount(env, w, path, scheme).value, SignedMessage(env, w, path, message, scheme).value;
      if scheme == "ecdsa-secp256k1" {
        S.VerifySeesNormalized(env.signing, a.sk, a.publicKey, message, sig, message, None);
      }
    }
  }

  /** libsecp256k1 signs in strict DER what its verifier accepts under the matching key, Schnorr
      signatures are 64 bytes and not all zero, and Ed25519 accepts what it signed. */
  ghost predicate ValidSigners(env: Env) {
    && (forall sk: Bytes32, hash: Bytes32 {:trigger env.signing.ecdsaSign(sk, hash)} :: D.ValidScalar(sk) ==>
          && S.IsStrictDer(env.signing.ecdsaSign(sk, hash))
          && env.signing.ecdsaVerify(env.primitives.point(sk), env.signing.ecdsaSign(sk, hash), hash))
    && (forall sk: Bytes32, hash: Bytes32 {:trigger env.signing.schnorrSign(sk, hash)} ::
          |env.signing.schnorrSign(sk, hash)| == 64 && env.signing.schnorrSign(sk, hash) != Zeros(64))
    && (forall sk: Bytes32, message: Bytes {:trigger env.signing.ed25519Sign(sk, message)} ::
          && |env.signing.ed25519Sign(sk, message)| == 64
          && env.signing.ed25519Verify(
               env.signing.ed25519Public(sk), env.signing.ed25519Sign(sk, message), message))
  }

  /** Whenever an open wallet derives an account, its signature of any message has 64 bytes, names
      the account's scheme and key, and verifies as it stands. */
  lemma SignedVerifies(env: Env, w: WalletState, path: seq<D.Component>, message: Bytes, scheme: string)
    requires ValidSigners(env) && DerivedAccount(env, w, path, scheme).Ok?
    ensures var sig := SignedMessage(env, w, path, message, scheme);
      && sig.Ok? && |sig.value.raw| == 64 && sig.value.scheme == scheme
      && sig.value.publicKey == DerivedAccount(env, w, path, scheme).value.publicKey
      && S.Verify(env.signing, sig.value, message, None) == Ok(true)
  {
    AccountVerifies(env, DerivedAccount(env, w, path, scheme).value, message);
  }

  /** The public key belongs to the private key, which the secp256k1 signers have checked. */
  ghost predicate IsAccount(env: Env, a: Account) {
    match a.scheme
    case "ecdsa-secp256k1" => D.ValidScalar(a.sk) && a.publicKey == env.primitives.point(a.sk)
    case "schnorr-secp256k1" => D.ValidScalar(a.sk) && a.publicKey == env.primitives.point(a.sk)[1..]
    case "ed25519" => a.publicKey == env.signing.ed25519Public(a.sk)
    case _ => false
  }

  lemma AccountVerifies(env: Env, a: Account, message: Bytes)
    requires ValidSigners(env) && IsAccount(env, a)
    ensures var sig := SignAs(env, a, message);
      && sig.Ok? && |sig.value.raw| == 64 && sig.value.scheme == a.scheme
      && sig.value.publicKey == a.publicKey && S.Verify(env.signing, sig.value, message, None) == Ok(true)
  {
    if a.scheme == "ecdsa-secp256k1" {
      S.VerifySeesSignedDer(env.signing, a.sk, a.publicKey, message, message, None);
    }
  }

  /** Where BIP-32 gives a private key, the ECDSA signature is the library's under that key, names
      its public key, and verifies as it stands. */
  lemma SignedUnderBip32(env: Env, w: WalletState, path: seq<D.Component>, message: Bytes, k: nat, cc: Bytes32)
    requires ValidSigners(env) && !w.closed && D.ValidPath(path)
    requires D.Bip32(env.primitives, w.seed, D.ChildNumbers(path)) == Some((k, cc))
    ensures var sig := SignedMessage(env, w, path, message, "ecdsa-secp256k1");
      && sig.Ok? && |sig.value.raw| == 64
      && sig.value.publicKey == env.primitives.point(Digits(256, k, 32))
      && S.RsToDer(sig.value.raw[..32], sig.value.raw[32..])
         == Ok(env.signing.ecdsaSign(Digits(256, k, 32), env.signing.sha256(message)))
      && S.Verify(env.signing, sig.value, message, None) == Ok(true)
  {
    AccountFollowsBip32(env, w, path, "ecdsa-secp256k1");
    OrderedScalar(env.primitives, w.seed, path);
    var a := DerivedAccount(env, w, path, "ecdsa-secp256k1").value;
    SignedVerifies(env, w, path, message, "ecdsa-secp256k1");
    SignedWith(env, w, path, message, "ecdsa-secp256k1");
    var r, s := S.StrictConverts(env.signing.ecdsaSign(a.sk, env.signing.sha256(message)));
  }
}
