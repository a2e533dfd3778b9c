/** BIP-39: entropy to word phrase, phrase validation, and entropy recovery. */
module Mnemonics {
  import opened Prelude
  import opened Radix
  import opened Text

  /** What the codec takes from outside: the word list, SHA-256 and Unicode NFKD. */
  datatype Lexicon = Lexicon(words: seq<string>, sha256: Bytes -> Bytes32, nfkd: string -> string)

  datatype Mnemonic = Mnemonic(phrase: string)

  predicate IsLowerWord(w: string) {
    w != "" && forall i :: 0 <= i < |w| ==> 'a' <= w[i] <= 'z'
  }

  /** The English list has 2048 distinct lower-case words, and NFKD leaves ASCII text alone. */
  ghost predicate ValidLexicon(lex: Lexicon) {
    && |lex.words| == 2048
    && (forall i, j :: 0 <= i < j < 2048 ==> lex.words[i] != lex.words[j])
    && (forall i :: 0 <= i < 2048 ==> IsLowerWord(lex.words[i]))
    && (forall s: string :: IsAscii(s) ==> lex.nfkd(s) == s)
  }

  /** The five sizes, in bytes, of BIP-39 entropy. */
  predicate IsEntropySize(n: nat) {
    n == 16 || n == 20 || n == 24 || n == 28 || n == 32
  }

  predicate IsWordCount(n: nat) {
    n == 12 || n == 15 || n == 18 || n == 21 || n == 24
  }

  // ---- bit strings -------------------------------------------------------------------

  /** `bin(n)[2:].zfill(width)`; also `f"{n:0{width}b}"`. */
  function BinFill(n: nat, width: nat): (bits: seq<nat>) {
    Pad(if n == 0 then [0] else Minimal(2, n), width)
  }

  function DigestBits(d: Bytes32): seq<nat> {
    BinFill(Value(256, d), 256)
  }

  /** `"".join(f"{i:011b}" for i in indices)`. */
  function Flatten(indices: seq<nat>): seq<nat> {
    if indices == [] then [] else BinFill(indices[0], 11) + Flatten(indices[1..])
  }

  /** `int(bits[i:i + 11], 2)` for `i` in steps of 11; the last chunk may be short. */
  function Chunks(bits: seq<nat>): seq<nat>
    decreases |bits|
  {
    if bits == [] then []
    else [Value(2, Slice(bits, 0, 11))] + Chunks(if |bits| < 11 then [] else bits[11..])
  }

  // ---- the codec over word indices ---------------------------------------------------

  function EntropyIndices(sha256: Bytes -> Bytes32, ent: Bytes): seq<nat> {
    var bits := BinFill(Value(256, ent), |ent| * 8);
    var checksumBits := |ent| * 8 / 32;
    Chunks(bits + Slice(DigestBits(sha256(ent)), 0, checksumBits))
  }

  function ChecksumBits(words: nat): nat {
    words * 11 / 33
  }

  /** `bits[:-k]`, which is empty when `k` is zero. */
  function EntropyPart(indices: seq<nat>): seq<nat> {
    var bits, k := Flatten(indices), ChecksumBits(|indices|);
    if 0 < k <= |bits| then bits[..|bits| - k] else []
  }

  /** `bits[-k:]`, which is all of `bits` when `k` is zero. */
  function ChecksumPart(indices: seq<nat>): seq<nat> {
    var bits, k := Flatten(indices), ChecksumBits(|indices|);
    if 0 < k <= |bits| then bits[|bits| - k..] else bits
  }

  /** `int(ent_bits, 2).to_bytes(len(ent_bits) // 8, "big")`. */
  function IndicesEntropy(indices: seq<nat>): Result<Bytes> {
    var bits := EntropyPart(indices);
    if bits == [] then Err(ValueError)
    else if Value(2, bits) >= Pow(256, |bits| / 8) then Err(OverflowError)
    else Ok(Digits(256, Value(2, bits), |bits| / 8))
  }

  // ---- the public operations ---------------------------------------------------------

  /** `{w: i for i, w in enumerate(words)}`: a later duplicate wins. */
  function WordToIndex(words: seq<string>): map<string, nat> {
    if words == [] then map[]
    else WordToIndex(words[..|words| - 1])[words[|words| - 1] := |words| - 1]
  }

  function Lookup(table: map<string, nat>, words: seq<string>): (indices: Option<seq<nat>>)
    ensures indices.Some? ==> |indices.value| == |words|
  {
    if forall i :: 0 <= i < |words| ==> words[i] in table
    then Some(seq(|words|, i requires 0 <= i < |words| => table[words[i]]))
    else None
  }

  /** `_ENGLISH_WORDLIST[i]` for each index. */
  function WordsAt(lex: Lexicon, indices: seq<nat>): (words: Result<seq<string>>)
    ensures words.Ok? ==> |words.value| == |indices|
  {
    if forall i :: 0 <= i < |indices| ==> indices[i] < |lex.words|
    then Ok(seq(|indices|, i requires 0 <= i < |indices| => lex.words[indices[i]]))
    else Err(IndexError)
  }

  function FromEntropy(lex: Lexicon, ent: Bytes): Result<Mnemonic> {
    var words :- WordsAt(lex, EntropyIndices(lex.sha256, ent));
    Ok(Mnemonic(Join(words, ' ')))
  }

  /** The entropy of a word list whose checksum is right: the FIRST bits of the digest. */
  function CheckedEntropy(sha256: Bytes -> Bytes32, indices: seq<nat>): Result<Bytes> {
    var ent :- IndicesEntropy(indices);
    if Slice(DigestBits(sha256(ent)), 0, ChecksumBits(|indices|)) != ChecksumPart(indices)
    then Err(InvalidMnemonicError)
    else Ok(ent)
  }

  function FromPhrase(lex: Lexicon, phrase: string): Result<Mnemonic> {
    var normalized := lex.nfkd(phrase);
    var words := Split(normalized);
    if !IsWordCount(|words|) then Err(InvalidMnemonicError)
    else match Lookup(WordToIndex(lex.words), words)
      case None => Err(InvalidMnemonicError)
      case Some(indices) =>
        var _ :- CheckedEntropy(lex.sha256, indices);
        Ok(Mnemonic(normalized))
  }

  function Entropy(lex: Lexicon, m: Mnemonic): Result<Bytes> {
    match Lookup(WordToIndex(lex.words), Split(m.phrase))
    case None => Err(KeyError)
    case Some(indices) =>
      var ent :- IndicesEntropy(indices);
      if ent == [] then Err(ValueError) else Ok(ent)
  }

  // ---- bit-string lemmas -------------------------------------------------------------

  ghost predicate AreIndices(indices: seq<nat>) {
    IsNumeral(2048, indices)
  }

  lemma Powers()
    ensures Pow(2, 8) == 256 && Pow(2, 11) == 2048
  {
    assert Pow(2, 4) == 16;
    PowAdd(2, 4, 4);
    assert Pow(2, 3) == 8;
    PowAdd(2, 8, 3);
  }

  lemma BytePower(n: nat)
    ensures Pow(256, n) == Pow(2, 8 * n)
  {
    Powers();
    PowMul(2, 8, n);
  }

  lemma BinFillIsDigits(n: nat, width: nat)
    requires width > 0 && n < Pow(2, width)
    ensures BinFill(n, width) == Digits(2, n, width)
  {
    PadMinimal(2, n, width);
    if n == 0 {
      assert Zeros(width - 1) + [0] == Zeros(width) + [];
    }
  }

  lemma BinFillValue(n: nat, width: nat)
    requires width > 0 && n < Pow(2, width)
    ensures |BinFill(n, width)| == width && IsNumeral(2, BinFill(n, width))
    ensures Value(2, BinFill(n, width)) == n
  {
    BinFillIsDigits(n, width);
    ValueOfDigits(2, n, width);
  }

  /** Bytes written as bits, eight to a byte. */
  lemma BytesAsBits(s: Bytes, bits: nat)
    requires s != [] && bits == 8 * |s|
    ensures |BinFill(Value(256, s), bits)| == bits && IsNumeral(2, BinFill(Value(256, s), bits))
    ensures Value(2, BinFill(Value(256, s), bits)) == Value(256, s)
  {
    ValueBound(256, s);
    BytePower(|s|);
    BinFillValue(Value(256, s), bits);
  }

  /** Bits read as bytes. */
  lemma BitsAsBytes(bits: seq<nat>, n: nat)
    requires IsNumeral(2, bits) && |bits| == 8 * n
    ensures Value(2, bits) < Pow(256, n)
    ensures Value(256, Digits(256, Value(2, bits), n)) == Value(2, bits)
  {
    ValueBound(2, bits);
    BytePower(n);
    ValueOfDigits(256, Value(2, bits), n);
  }

  lemma IndexBits(i: nat)
    requires i < 2048
    ensures |BinFill(i, 11)| == 11 && IsNumeral(2, BinFill(i, 11))
    ensures Value(2, BinFill(i, 11)) == i
  {
    Powers();
    BinFillValue(i, 11);
  }

  lemma {:induction false} FlattenIsNumeral(indices: seq<nat>)
    requires AreIndices(indices)
    ensures |Flatten(indices)| == 11 * |indices| && IsNumeral(2, Flatten(indices))
  {
    if indices != [] {
      IndexBits(indices[0]);
      FlattenIsNumeral(indices[1..]);
    }
  }

  lemma {:induction false} FlattenConcat(xs: seq<nat>, ys: seq<nat>)
    ensures Flatten(xs + ys) == Flatten(xs) + Flatten(ys)
  {
    if xs == [] {
      assert xs + ys == ys;
    } else {
      assert (xs + ys)[1..] == xs[1..] + ys;
      FlattenConcat(xs[1..], ys);
    }
  }

  lemma FlattenSnoc(indices: seq<nat>, last: nat)
    ensures Flatten(indices + [last]) == Flatten(indices) + BinFill(last, 11)
  {
    FlattenConcat(indices, [last]);
    assert [last][1..] == [];
    assert BinFill(last, 11) + Flatten([]) == BinFill(last, 11);
  }

  lemma {:induction false} ChunksFlatten(indices: seq<nat>)
    requires AreIndices(indices)
    ensures Chunks(Flatten(indices)) == indices
  {
    if indices != [] {
      var head, tail := BinFill(indices[0], 11), Flatten(indices[1..]);
      IndexBits(indices[0]);
      ChunksFlatten(indices[1..]);
      assert (head + tail)[..11] == head && (head + tail)[11..] == tail;
    }
  }

  /** A short last chunk is still one index. */
  lemma {:induction false} ChunksShape(bits: seq<nat>, n: nat)
    requires IsNumeral(2, bits) && 11 * n < |bits| + 11 <= 11 * (n + 1)
    ensures |Chunks(bits)| == n && AreIndices(Chunks(bits))
    decreases n
  {
    if n > 0 {
      var head := Slice(bits, 0, 11);
      Powers();
      ValueBound(2, head);
      PowMonotone(2, |head|, 11);
      ChunksShape(if |bits| < 11 then [] else bits[11..], n - 1);
    }
  }

  /** A full first chunk expands to its own bits. */
  lemma FirstChunk(bits: seq<nat>)
    requires IsNumeral(2, bits) && |bits| >= 11
    ensures Chunks(bits) == [Value(2, bits[..11])] + Chunks(bits[11..])
    ensures Value(2, bits[..11]) < 2048
    ensures Flatten(Chunks(bits)) == bits[..11] + Flatten(Chunks(bits[11..]))
  {
    var head := bits[..11];
    Powers();
    ValueBound(2, head);
    IndexBits(Value(2, head));
    ValueInjective(2, BinFill(Value(2, head), 11), head);
    assert Chunks(bits)[1..] == Chunks(bits[11..]);
  }

  lemma {:induction false} FlattenChunks(bits: seq<nat>, n: nat)
    requires IsNumeral(2, bits) && |bits| == 11 * n
    ensures AreIndices(Chunks(bits)) && Flatten(Chunks(bits)) == bits && |Chunks(bits)| == n
    decreases n
  {
    if n > 0 {
      FirstChunk(bits);
      FlattenChunks(bits[11..], n - 1);
      assert bits[..11] + bits[11..] == bits;
    }
  }

  /** Whatever becomes of a short last chunk, the full chunks before it expand to their bits. */
  lemma {:induction false} FullChunks(bits: seq<nat>, m: nat)
    requires IsNumeral(2, bits) && 11 * m <= |bits|
    ensures bits[..11 * m] <= Flatten(Chunks(bits))
    decreases m
  {
    if m > 0 {
      FirstChunk(bits);
      FullChunks(bits[11..], m - 1);
      Splice(bits, 11, 11 * m);
    }
  }

  lemma Splice(s: seq<nat>, i: nat, j: nat)
    requires i <= j <= |s|
    ensures s[..j] == s[..i] + s[i..][..j - i]
  {}

  /** Grouping bits by eleven does not change the number they denote. */
  lemma {:induction false} ValueOfFlatten(indices: seq<nat>)
    requires AreIndices(indices)
    ensures Value(2, Flatten(indices)) == Value(2048, indices)
  {
    if indices != [] {
      var n := |indices| - 1;
      assert indices == indices[..n] + [indices[n]];
      FlattenSnoc(indices[..n], indices[n]);
      ValueConcat(2, Flatten(indices[..n]), BinFill(indices[n], 11));
      IndexBits(indices[n]);
      Powers();
      ValueOfFlatten(indices[..n]);
    }
  }

  /** The checksum of `ent` when the mnemonic reserves `k` bits for it. */
  function Checksum(sha256: Bytes -> Bytes32, ent: Bytes, k: nat): seq<nat> {
    Slice(DigestBits(sha256(ent)), 0, k)
  }

  lemma ChecksumIsNumeral(sha256: Bytes -> Bytes32, ent: Bytes, k: nat)
    ensures |Checksum(sha256, ent, k)| == (if k <= 256 then k else 256)
    ensures IsNumeral(2, Checksum(sha256, ent, k))
  {
    BytesAsBits(sha256(ent), 256);
  }

  // ---- index-level results -----------------------------------------------------------

  /** The bits encoded for `ent`, before they are cut into words. */
  function EncodedBits(sha256: Bytes -> Bytes32, ent: Bytes): seq<nat> {
    BinFill(Value(256, ent), 8 * |ent|) + Checksum(sha256, ent, |ent| / 4)
  }

  /** How many words `n` bytes of entropy give: one for each eleven bits, rounded up, where the
      checksum cannot be longer than the digest. */
  function WordsFor(n: nat): nat {
    (8 * n + (if n / 4 <= 256 then n / 4 else 256) + 10) / 11
  }

  lemma EncodedShape(sha256: Bytes -> Bytes32, ent: Bytes)
    requires ent != []
    ensures var bits := EncodedBits(sha256, ent);
      && IsNumeral(2, bits) && EntropyIndices(sha256, ent) == Chunks(bits)
      && |bits| == 8 * |ent| + (if |ent| / 4 <= 256 then |ent| / 4 else 256)
    ensures AreIndices(EntropyIndices(sha256, ent))
    ensures |EntropyIndices(sha256, ent)| == WordsFor(|ent|)
  {
    BytesAsBits(ent, 8 * |ent|);
    ChecksumIsNumeral(sha256, ent, |ent| / 4);
    assert |ent| * 8 == 8 * |ent| && 8 * |ent| / 32 == |ent| / 4;
    ChunksShape(EncodedBits(sha256, ent), WordsFor(|ent|));
  }

  /** The bits of a mnemonic are the bits of the entropy, then the checksum. */
  lemma IndicesLayout(sha256: Bytes -> Bytes32, ent: Bytes, k: nat)
    requires |ent| == 4 * k && 1 <= k <= 256
    ensures var indices := EntropyIndices(sha256, ent);
      && |indices| == 3 * k && AreIndices(indices)
      && Flatten(indices) == BinFill(Value(256, ent), 32 * k) + Checksum(sha256, ent, k)
  {
    var bits := BinFill(Value(256, ent), 32 * k) + Checksum(sha256, ent, k);
    BytesAsBits(ent, 32 * k);
    ChecksumIsNumeral(sha256, ent, k);
    EncodedShape(sha256, ent);
    assert EncodedBits(sha256, ent) == bits;
    FlattenChunks(bits, 3 * k);
  }

  /** Up to 1064 bytes the entropy bits still lie in the full words, though above 1024 the
      digest has no more checksum bits to give and the last word is short. */
  lemma IndicesPrefix(sha256: Bytes -> Bytes32, ent: Bytes, k: nat)
    requires |ent| == 4 * k && 1 <= k <= 266
    ensures var indices := EntropyIndices(sha256, ent);
      && |indices| == 3 * k && AreIndices(indices)
      && BinFill(Value(256, ent), 32 * k) <= Flatten(indices)
  {
    BytesAsBits(ent, 32 * k);
    if k <= 256 {
      IndicesLayout(sha256, ent, k);
    } else {
      EncodedShape(sha256, ent);
      assert WordsFor(4 * k) == 3 * k;
      FullChunks(EncodedBits(sha256, ent), 3 * k - 1);
      PrefixOfPrefix(BinFill(Value(256, ent), 32 * k), EncodedBits(sha256, ent), 11 * (3 * k - 1));
    }
  }

  lemma PrefixOfPrefix(a: seq<nat>, b: seq<nat>, n: nat)
    requires a <= b && |a| <= n <= |b|
    ensures a <= b[..n]
  {}

  /** Every index list of 3k words has an entropy of 4k bytes, whose bits are its first 32k. */
  lemma EntropyLayout(indices: seq<nat>, k: nat)
    requires AreIndices(indices) && |indices| == 3 * k && k >= 1
    ensures var r, part := IndicesEntropy(indices), EntropyPart(indices);
      && r == Ok(Digits(256, Value(2, part), 4 * k)) && Value(256, r.value) == Value(2, part)
      && |part| == 32 * k && IsNumeral(2, part)
      && |ChecksumPart(indices)| == k && IsNumeral(2, ChecksumPart(indices))
      && Flatten(indices) == part + ChecksumPart(indices)
  {
    PartsLayout(indices, k);
    BitsAsBytes(EntropyPart(indices), 4 * k);
  }

  lemma PartsLayout(indices: seq<nat>, k: nat)
    requires AreIndices(indices) && |indices| == 3 * k && k >= 1
    ensures |EntropyPart(indices)| == 32 * k && IsNumeral(2, EntropyPart(indices))
    ensures |ChecksumPart(indices)| == k && IsNumeral(2, ChecksumPart(indices))
    ensures Flatten(indices) == EntropyPart(indices) + ChecksumPart(indices)
  {
    var bits := Flatten(indices);
    FlattenIsNumeral(indices);
    assert ChecksumBits(|indices|) == k && |bits| - k == 32 * k;
    assert EntropyPart(indices) == bits[..32 * k] && ChecksumPart(indices) == bits[32 * k..];
    CutNumeral(bits, 32 * k);
  }

  lemma CutNumeral(bits: seq<nat>, n: nat)
    requires IsNumeral(2, bits) && n <= |bits|
    ensures IsNumeral(2, bits[..n]) && IsNumeral(2, bits[n..]) && bits == bits[..n] + bits[n..]
  {}

  /** Recovering the entropy inverts encoding it. */
  lemma EntropyOfIndices(sha256: Bytes -> Bytes32, ent: Bytes, k: nat)
    requires |ent| == 4 * k && 1 <= k <= 266
    ensures IndicesEntropy(EntropyIndices(sha256, ent)) == Ok(ent)
  {
    var indices := EntropyIndices(sha256, ent);
    IndicesPrefix(sha256, ent, k);
    EntropyLayout(indices, k);
    BytesAsBits(ent, 32 * k);
    assert EntropyPart(indices) == Flatten(indices)[..32 * k] == BinFill(Value(256, ent), 32 * k);
    ValueInjective(256, IndicesEntropy(indices).value, ent);
  }

  lemma EntropyBits(indices: seq<nat>, k: nat)
    requires AreIndices(indices) && |indices| == 3 * k && k >= 1
    ensures IndicesEntropy(indices).Ok? && |IndicesEntropy(indices).value| == 4 * k
    ensures EntropyPart(indices) == BinFill(Value(256, IndicesEntropy(indices).value), 32 * k)
  {
    EntropyLayout(indices, k);
    var ent := IndicesEntropy(indices).value;
    BytesAsBits(ent, 32 * k);
    ValueInjective(2, EntropyPart(indices), BinFill(Value(256, ent), 32 * k));
  }

  lemma SameBits(xs: seq<nat>, ys: seq<nat>)
    requires AreIndices(xs) && AreIndices(ys) && Flatten(xs) == Flatten(ys)
    ensures xs == ys
  {
    ChunksFlatten(xs);
    ChunksFlatten(ys);
  }

  /** The checksum test passes exactly on the encodings of the recovered entropy. */
  lemma CheckedMeansEncoded(sha256: Bytes -> Bytes32, indices: seq<nat>, k: nat)
    requires AreIndices(indices) && |indices| == 3 * k && 1 <= k <= 256
    ensures IndicesEntropy(indices).Ok? && |IndicesEntropy(indices).value| == 4 * k
    ensures CheckedEntropy(sha256, indices)
         == if indices == EntropyIndices(sha256, IndicesEntropy(indices).value)
            then IndicesEntropy(indices) else Err(InvalidMnemonicError)
  {
    EntropyLayout(indices, k);
    EntropyBits(indices, k);
    var ent := IndicesEntropy(indices).value;
    IndicesLayout(sha256, ent, k);
    ChecksumIsNumeral(sha256, ent, k);
    assert ChecksumBits(3 * k) == k;
    if Checksum(sha256, ent, k) == ChecksumPart(indices) {
      SameBits(indices, EntropyIndices(sha256, ent));
    } else {
      OtherTail(EntropyPart(indices), ChecksumPart(indices), Checksum(sha256, ent, k));
    }
  }

  lemma OtherTail(a: seq<nat>, b: seq<nat>, c: seq<nat>)
    requires b != c
    ensures a + b != a + c
  {
    assert b == (a + b)[|a|..] && c == (a + c)[|a|..];
  }

  lemma ChecksumValue(sha256: Bytes -> Bytes32, ent: Bytes, k: nat)
    requires 1 <= k <= 256
    ensures Value(2, Checksum(sha256, ent, k)) == Value(256, sha256(ent)) / Pow(2, 256 - k)
  {
    BytesAsBits(sha256(ent), 256);
    PrefixValue(2, DigestBits(sha256(ent)), k);
  }

  /** The whole mnemonic as one number in base 2048: the entropy shifted left by k bits,
      plus the top k bits of the digest. */
  lemma MnemonicAsNumber(sha256: Bytes -> Bytes32, ent: Bytes, k: nat)
    requires |ent| == 4 * k && 1 <= k <= 256
    ensures |EntropyIndices(sha256, ent)| == 3 * k
    ensures Value(2048, EntropyIndices(sha256, ent))
         == Value(256, ent) * Pow(2, k) + Value(256, sha256(ent)) / Pow(2, 256 - k)
  {
    IndicesLayout(sha256, ent, k);
    ValueOfFlatten(EntropyIndices(sha256, ent));
    ChecksumIsNumeral(sha256, ent, k);
    ChecksumValue(sha256, ent, k);
    ValueConcat(2, BinFill(Value(256, ent), 32 * k), Checksum(sha256, ent, k));
    BytesAsBits(ent, 32 * k);
  }
}
