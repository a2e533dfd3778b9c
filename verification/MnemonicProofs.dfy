/** What the phrase-level operations promise: round trip, exact image, checksum density. */
module MnemonicProofs {
  import opened Prelude
  import opened Radix
  import opened Text
  import opened Mnemonics

  /** `words` is the word list `FromEntropy` produces for `ent`. */
  ghost predicate Encodes(lex: Lexicon, ent: Bytes, words: seq<string>) {
    WordsAt(lex, EntropyIndices(lex.sha256, ent)) == Ok(words)
  }

  lemma {:induction false} TableEntries(words: seq<string>)
    requires forall i, j :: 0 <= i < j < |words| ==> words[i] != words[j]
    ensures forall i :: 0 <= i < |words| ==>
      words[i] in WordToIndex(words) && WordToIndex(words)[words[i]] == i
    ensures forall w :: w in WordToIndex(words) ==>
      WordToIndex(words)[w] < |words| && words[WordToIndex(words)[w]] == w
  {
    if words != [] {
      TableEntries(words[..|words| - 1]);
    }
  }

  /** Looking words up and listing words by index are inverse. */
  lemma LookupInverse(lex: Lexicon, indices: seq<nat>, words: seq<string>)
    requires ValidLexicon(lex)
    ensures Lookup(WordToIndex(lex.words), words) == Some(indices)
       <==> WordsAt(lex, indices) == Ok(words)
    ensures Lookup(WordToIndex(lex.words), words) == Some(indices)
        ==> AreIndices(indices) && |indices| == |words|
  {
    TableEntries(lex.words);
    var table := WordToIndex(lex.words);
    if Lookup(table, words) == Some(indices) {
      assert forall i :: 0 <= i < |words| ==> indices[i] == table[words[i]];
      assert WordsAt(lex, indices).Ok? && WordsAt(lex, indices).value == words;
    }
    if WordsAt(lex, indices) == Ok(words) {
      assert forall i :: 0 <= i < |words| ==> words[i] == lex.words[indices[i]];
      assert Lookup(table, words).Some? && Lookup(table, words).value == indices;
    }
  }

  /** Listed words, joined by spaces, are ASCII and split back into themselves. */
  lemma JoinedWords(lex: Lexicon, words: seq<string>)
    requires ValidLexicon(lex) && forall i :: 0 <= i < |words| ==> words[i] in lex.words
    ensures Split(Join(words, ' ')) == words
    ensures lex.nfkd(Join(words, ' ')) == Join(words, ' ')
  {
    forall i | 0 <= i < |words|
      ensures IsToken(words[i]) && IsAscii(words[i])
    {
      assert IsLowerWord(words[i]);
    }
    SplitJoin(words);
    JoinAscii(words);
  }

  /** The phrase of a list of indices splits and looks up to the same indices. */
  lemma ListedPhrase(lex: Lexicon, indices: seq<nat>)
    requires ValidLexicon(lex) && AreIndices(indices)
    ensures WordsAt(lex, indices).Ok?
    ensures var words := WordsAt(lex, indices).value;
      && |words| == |indices| && Split(Join(words, ' ')) == words
      && lex.nfkd(Join(words, ' ')) == Join(words, ' ')
      && Lookup(WordToIndex(lex.words), words) == Some(indices)
    ensures IndicesEntropy(indices) != Ok([]) ==>
      Entropy(lex, Mnemonic(Join(WordsAt(lex, indices).value, ' '))) == IndicesEntropy(indices)
  {
    var words := WordsAt(lex, indices).value;
    JoinedWords(lex, words);
    LookupInverse(lex, indices, words);
  }

  lemma EncodedPhrase(lex: Lexicon, ent: Bytes, k: nat)
    requires ValidLexicon(lex) && |ent| == 4 * k && 1 <= k <= 266
    ensures FromEntropy(lex, ent).Ok?
    ensures var m, words := FromEntropy(lex, ent).value, Split(FromEntropy(lex, ent).value.phrase);
      && |words| == 3 * k && Encodes(lex, ent, words) && lex.nfkd(m.phrase) == m.phrase
      && Lookup(WordToIndex(lex.words), words) == Some(EntropyIndices(lex.sha256, ent))
  {
    IndicesPrefix(lex.sha256, ent, k);
    ListedPhrase(lex, EntropyIndices(lex.sha256, ent));
  }

  /** `FromPhrase` on a phrase whose words have the indices `indices`. */
  lemma PhraseByIndices(lex: Lexicon, phrase: string, indices: seq<nat>, k: nat)
    requires 4 <= k <= 8 && |indices| == 3 * k
    requires Lookup(WordToIndex(lex.words), Split(lex.nfkd(phrase))) == Some(indices)
    ensures FromPhrase(lex, phrase)
         == match CheckedEntropy(lex.sha256, indices)
            case Ok(_) => Ok(Mnemonic(lex.nfkd(phrase)))
            case Err(e) => Err(e)
  {
    assert |Split(lex.nfkd(phrase))| == 3 * k;
  }

  /** Entropy to phrase and back: `entropy` returns the original bytes, and for the BIP-39
      sizes the phrase passes validation unchanged. */
  lemma EntropyRoundTrip(lex: Lexicon, ent: Bytes)
    requires ValidLexicon(lex) && |ent| % 4 == 0 && 0 < |ent| <= 1064
    ensures FromEntropy(lex, ent).Ok?
    ensures Entropy(lex, FromEntropy(lex, ent).value) == Ok(ent)
    ensures IsEntropySize(|ent|) ==>
      FromPhrase(lex, FromEntropy(lex, ent).value.phrase) == FromEntropy(lex, ent)
  {
    EncodedPhrase(lex, ent, |ent| / 4);
    EntropyOfIndices(lex.sha256, ent, |ent| / 4);
    if IsEntropySize(|ent|) {
      EncodingAccepted(lex, FromEntropy(lex, ent).value.phrase, ent);
    }
  }

  /** Encodings of entropy of a BIP-39 size are accepted. */
  lemma EncodingAccepted(lex: Lexicon, phrase: string, ent: Bytes)
    requires ValidLexicon(lex)
    requires IsEntropySize(|ent|) && Encodes(lex, ent, Split(lex.nfkd(phrase)))
    ensures FromPhrase(lex, phrase) == Ok(Mnemonic(lex.nfkd(phrase)))
  {
    var indices, k := EntropyIndices(lex.sha256, ent), |ent| / 4;
    LookupInverse(lex, indices, Split(lex.nfkd(phrase)));
    IndicesLayout(lex.sha256, ent, k);
    PhraseByIndices(lex, phrase, indices, k);
    EntropyOfIndices(lex.sha256, ent, k);
    CheckedMeansEncoded(lex.sha256, indices, k);
  }

  /** Accepted phrases are encodings; rejected ones raise `InvalidMnemonicError`. */
  lemma AcceptedIsEncoding(lex: Lexicon, phrase: string) returns (ent: Bytes)
    requires ValidLexicon(lex)
    ensures FromPhrase(lex, phrase).Ok? ==>
      IsEntropySize(|ent|) && Encodes(lex, ent, Split(lex.nfkd(phrase)))
    ensures FromPhrase(lex, phrase).Err? ==>
      FromPhrase(lex, phrase).error == InvalidMnemonicError
  {
    var words := Split(lex.nfkd(phrase));
    var found := Lookup(WordToIndex(lex.words), words);
    ent := [];
    if IsWordCount(|words|) && found.Some? {
      var indices, k := found.value, |words| / 3;
      LookupInverse(lex, indices, words);
      PhraseByIndices(lex, phrase, indices, k);
      CheckedMeansEncoded(lex.sha256, indices, k);
      ent := IndicesEntropy(indices).value;
    }
  }

  /** `FromPhrase` accepts exactly the encodings of entropy of a BIP-39 size, keeps the
      normalized text, and fails in no other way than `InvalidMnemonicError`. */
  lemma ExactImage(lex: Lexicon, phrase: string)
    requires ValidLexicon(lex)
    ensures FromPhrase(lex, phrase).Ok? <==>
      exists ent: Bytes :: IsEntropySize(|ent|) && Encodes(lex, ent, Split(lex.nfkd(phrase)))
    ensures FromPhrase(lex, phrase).Ok? ==>
      FromPhrase(lex, phrase).value.phrase == lex.nfkd(phrase)
    ensures FromPhrase(lex, phrase).Err? ==>
      FromPhrase(lex, phrase).error == InvalidMnemonicError
  {
    var e := AcceptedIsEncoding(lex, phrase);
    forall ent: Bytes | IsEntropySize(|ent|) && Encodes(lex, ent, Split(lex.nfkd(phrase)))
      ensures FromPhrase(lex, phrase) == Ok(Mnemonic(lex.nfkd(phrase)))
    {
      EncodingAccepted(lex, phrase, ent);
    }
  }

  /** The entropy of an accepted phrase is the one and only entropy that encodes to it. */
  lemma AcceptedEntropy(lex: Lexicon, phrase: string, ent: Bytes)
    requires ValidLexicon(lex) && FromPhrase(lex, phrase).Ok?
    ensures IsEntropySize(|ent|) && Encodes(lex, ent, Split(lex.nfkd(phrase)))
       <==> Entropy(lex, FromPhrase(lex, phrase).value) == Ok(ent)
  {
    var words := Split(lex.nfkd(phrase));
    var e := AcceptedIsEncoding(lex, phrase);
    EncodingAccepted(lex, phrase, e);
    EncodingRecovered(lex, e, words);
    if IsEntropySize(|ent|) && Encodes(lex, ent, words) {
      EncodingRecovered(lex, ent, words);
    }
  }

  lemma EncodingRecovered(lex: Lexicon, ent: Bytes, words: seq<string>)
    requires ValidLexicon(lex) && IsEntropySize(|ent|) && Encodes(lex, ent, words)
    ensures forall m: Mnemonic :: Split(m.phrase) == words ==> Entropy(lex, m) == Ok(ent)
  {
    var indices := EntropyIndices(lex.sha256, ent);
    LookupInverse(lex, indices, words);
    EntropyOfIndices(lex.sha256, ent, |ent| / 4);
    forall m: Mnemonic | Split(m.phrase) == words
      ensures Entropy(lex, m) == Ok(ent)
    {
      EntropyByIndices(lex, m, indices);
    }
  }

  lemma EntropyByIndices(lex: Lexicon, m: Mnemonic, indices: seq<nat>)
    requires Lookup(WordToIndex(lex.words), Split(m.phrase)) == Some(indices)
    ensures IndicesEntropy(indices) != Ok([]) ==> Entropy(lex, m) == IndicesEntropy(indices)
  {}

  lemma SpacedWords(lex: Lexicon, indices: seq<nat>)
    requires ValidLexicon(lex) && AreIndices(indices) && indices != []
    ensures WordsAt(lex, indices).Ok?
    ensures var words := SplitOn(Join(WordsAt(lex, indices).value, ' '), ' ');
      |words| == |indices| && forall i :: 0 <= i < |words| ==> words[i] == lex.words[indices[i]]
  {
    var words := WordsAt(lex, indices).value;
    forall i | 0 <= i < |words|
      ensures ' ' !in words[i]
    {
      assert IsLowerWord(words[i]);
    }
    SplitOnJoin(words, ' ');
  }

  /** What `from_entropy` writes, in numbers: words of the list, one space between any two, whose
      indices read in base 2048 are the entropy shifted left by k bits plus the top k digest bits. */
  lemma EncodedAsNumber(lex: Lexicon, ent: Bytes, k: nat) returns (indices: seq<nat>)
    requires ValidLexicon(lex) && |ent| == 4 * k && 1 <= k <= 256
    ensures |indices| == 3 * k && forall i :: 0 <= i < 3 * k ==> indices[i] < 2048
    ensures Value(2048, indices)
         == Value(256, ent) * Pow(2, k) + Value(256, lex.sha256(ent)) / Pow(2, 256 - k)
    ensures FromEntropy(lex, ent).Ok?
    ensures var words := SplitOn(FromEntropy(lex, ent).value.phrase, ' ');
      |words| == 3 * k && forall i :: 0 <= i < 3 * k ==> words[i] == lex.words[indices[i]]
  {
    indices := EntropyIndices(lex.sha256, ent);
    IndicesLayout(lex.sha256, ent, k);
    MnemonicAsNumber(lex.sha256, ent, k);
    SpacedWords(lex, indices);
  }

  // ---- what decides acceptance -------------------------------------------------------

  /** A phrase is accepted exactly if the words that stand in its normalized text, whitespace of
      any length between them, encode some entropy of a BIP-39 size. */
  lemma AcceptedText(lex: Lexicon, phrase: string)
    requires ValidLexicon(lex)
    ensures FromPhrase(lex, phrase).Ok? <==>
      exists ent: Bytes, words: seq<string> ::
        IsEntropySize(|ent|) && Encodes(lex, ent, words) && Spaced(lex.nfkd(phrase), words)
  {
    ExactImage(lex, phrase);
    SplitMeaning(lex.nfkd(phrase), Split(lex.nfkd(phrase)));
    forall ent: Bytes, words: seq<string> |
      IsEntropySize(|ent|) && Encodes(lex, ent, words) && Spaced(lex.nfkd(phrase), words)
      ensures FromPhrase(lex, phrase).Ok?
    {
      SplitMeaning(lex.nfkd(phrase), words);
    }
  }

  lemma AcceptedAreListed(lex: Lexicon, phrase: string)
    requires ValidLexicon(lex) && FromPhrase(lex, phrase).Ok?
    ensures forall w :: w in Split(lex.nfkd(phrase)) ==> w in lex.words
  {
    var ent := AcceptedIsEncoding(lex, phrase);
    var indices, words := EntropyIndices(lex.sha256, ent), Split(lex.nfkd(phrase));
    assert forall i :: 0 <= i < |words| ==> words[i] == lex.words[indices[i]];
  }

  /** Only the words count: a phrase is accepted exactly if all its words are listed and the same
      words with one space between any two are accepted, as they stand. */
  lemma SingleSpaced(lex: Lexicon, phrase: string)
    requires ValidLexicon(lex)
    ensures var words := Split(lex.nfkd(phrase));
      var one := Join(words, ' ');
      && (FromPhrase(lex, phrase).Ok? <==> (forall w :: w in words ==> w in lex.words) && FromPhrase(lex, one).Ok?)
      && (FromPhrase(lex, phrase).Ok? ==> FromPhrase(lex, one) == Ok(Mnemonic(one)))
  {
    var words := Split(lex.nfkd(phrase));
    if FromPhrase(lex, phrase).Ok? {
      AcceptedAreListed(lex, phrase);
    }
    if forall w :: w in words ==> w in lex.words {
      JoinedWords(lex, words);
    }
  }

  /** On an ASCII phrase the listing of the words needs no mention. */
  lemma SingleSpacedAscii(lex: Lexicon, phrase: string)
    requires ValidLexicon(lex) && IsAscii(phrase)
    ensures FromPhrase(lex, phrase).Ok? <==> FromPhrase(lex, Join(Split(phrase), ' ')).Ok?
  {
    SplitAscii(phrase);
    JoinAscii(Split(phrase));
    SplitJoin(Split(phrase));
  }

  /** Asking for the entropy of a phrase raises KeyError exactly if a word is not in the list. */
  lemma UnlistedWord(lex: Lexicon, m: Mnemonic)
    requires ValidLexicon(lex)
    ensures Entropy(lex, m) == Err(KeyError) <==> exists w :: w in Split(m.phrase) && w !in lex.words
  {
    var words := Split(m.phrase);
    TableEntries(lex.words);
    if Entropy(lex, m) == Err(KeyError) {
      var i :| 0 <= i < |words| && words[i] !in WordToIndex(lex.words);
      assert words[i] in words && words[i] !in lex.words;
    }
  }

  // ---- checksum density --------------------------------------------------------------

  /** The images of an injective sequence number as many as its entries. */
  lemma {:induction false} DistinctCount<T>(s: seq<T>)
    requires forall i, j :: 0 <= i < j < |s| ==> s[i] != s[j]
    ensures |set x | x in s| == |s|
  {
    if s != [] {
      var n := |s| - 1;
      DistinctCount(s[..n]);
      assert (set x | x in s) == (set x | x in s[..n]) + {s[n]};
    }
  }

  /** The first 11 - k bits of a word index; in a last word they belong to the entropy. */
  function TopBits(last: nat, k: nat): seq<nat> {
    Slice(BinFill(last, 11), 0, if k <= 11 then 11 - k else 0)
  }

  /** The one word index that completes `prefix` for a choice of the remaining entropy bits. */
  function Completion(sha256: Bytes -> Bytes32, prefix: seq<nat>, top: seq<nat>, k: nat): nat {
    var ent := Digits(256, Value(2, Flatten(prefix) + top), 4 * k);
    Value(2, top + Checksum(sha256, ent, k))
  }

  lemma LastWordLayout(prefix: seq<nat>, last: nat, k: nat)
    requires AreIndices(prefix) && |prefix| == 3 * k - 1 && last < 2048 && 4 <= k <= 8
    ensures AreIndices(prefix + [last]) && |TopBits(last, k)| == 11 - k
    ensures BinFill(last, 11) == TopBits(last, k) + ChecksumPart(prefix + [last])
    ensures IndicesEntropy(prefix + [last])
         == Ok(Digits(256, Value(2, Flatten(prefix) + TopBits(last, k)), 4 * k))
  {
    FlattenSnoc(prefix, last);
    LastWordBits(prefix + [last], Flatten(prefix), last, k);
    EntropyLayout(prefix + [last], k);
  }

  lemma LastWordBits(indices: seq<nat>, before: seq<nat>, last: nat, k: nat)
    requires AreIndices(indices) && |indices| == 3 * k && last < 2048 && 4 <= k <= 8
    requires Flatten(indices) == before + BinFill(last, 11)
    ensures |TopBits(last, k)| == 11 - k
    ensures BinFill(last, 11) == TopBits(last, k) + ChecksumPart(indices)
    ensures EntropyPart(indices) == before + TopBits(last, k)
  {
    TopBitsAre(last, k);
    PartsLayout(indices, k);
    SplitTail(before, BinFill(last, 11), EntropyPart(indices), ChecksumPart(indices));
  }

  lemma TopBitsAre(last: nat, k: nat)
    requires last < 2048 && 4 <= k <= 8
    ensures |BinFill(last, 11)| == 11 && TopBits(last, k) == BinFill(last, 11)[..11 - k]
  {
    IndexBits(last);
  }

  lemma SplitTail(a: seq<nat>, b: seq<nat>, c: seq<nat>, d: seq<nat>)
    requires a + b == c + d && |d| <= |b|
    ensures c == a + b[..|b| - |d|] && d == b[|b| - |d|..] && b == b[..|b| - |d|] + d
  {
    assert c == (c + d)[..|c|] && d == (c + d)[|c|..];
    assert a + b == (a + b[..|b| - |d|]) + b[|b| - |d|..];
  }

  /** A last word passes the checksum exactly when it is the completion for its own top bits. */
  lemma LastWordPasses(sha256: Bytes -> Bytes32, prefix: seq<nat>, last: nat, k: nat)
    requires AreIndices(prefix) && |prefix| == 3 * k - 1 && last < 2048 && 4 <= k <= 8
    ensures CheckedEntropy(sha256, prefix + [last]).Ok?
       <==> last == Completion(sha256, prefix, TopBits(last, k), k)
  {
    LastWordLayout(prefix, last, k);
    var top, low := TopBits(last, k), ChecksumPart(prefix + [last]);
    var ent := IndicesEntropy(prefix + [last]).value;
    var cs := Checksum(sha256, ent, k);
    assert ChecksumBits(3 * k) == k;
    ChecksumIsNumeral(sha256, ent, k);
    IndexBits(last);
    assert IsNumeral(2, top + low);
    if last == Value(2, top + cs) {
      ValueInjective(2, top + low, top + cs);
      assert (top + low)[11 - k..] == low && (top + cs)[11 - k..] == cs;
    }
  }

  lemma CompletionBits(sha256: Bytes -> Bytes32, prefix: seq<nat>, top: seq<nat>, k: nat)
    requires 4 <= k <= 8 && |top| == 11 - k && IsNumeral(2, top)
    ensures Completion(sha256, prefix, top, k) < 2048
    ensures TopBits(Completion(sha256, prefix, top, k), k) == top
  {
    var ent := Digits(256, Value(2, Flatten(prefix) + top), 4 * k);
    var bits := top + Checksum(sha256, ent, k);
    ChecksumIsNumeral(sha256, ent, k);
    ValueBound(2, bits);
    Powers();
    IndexBits(Value(2, bits));
    ValueInjective(2, BinFill(Value(2, bits), 11), bits);
  }

  lemma CompletionPasses(sha256: Bytes -> Bytes32, prefix: seq<nat>, t: nat, k: nat)
    requires AreIndices(prefix) && |prefix| == 3 * k - 1 && 4 <= k <= 8 && t < Pow(2, 11 - k)
    ensures var last := Completion(sha256, prefix, Digits(2, t, 11 - k), k);
      && last < 2048 && Value(2, TopBits(last, k)) == t
      && CheckedEntropy(sha256, prefix + [last]).Ok?
  {
    CompletionBits(sha256, prefix, Digits(2, t, 11 - k), k);
    ValueOfDigits(2, t, 11 - k);
    LastWordPasses(sha256, prefix, Completion(sha256, prefix, Digits(2, t, 11 - k), k), k);
  }

  lemma PassingIsCompletion(sha256: Bytes -> Bytes32, prefix: seq<nat>, last: nat, k: nat)
    requires AreIndices(prefix) && |prefix| == 3 * k - 1 && 4 <= k <= 8 && last < 2048
    requires CheckedEntropy(sha256, prefix + [last]).Ok?
    ensures var t := Value(2, TopBits(last, k));
      t < Pow(2, 11 - k) && last == Completion(sha256, prefix, Digits(2, t, 11 - k), k)
  {
    LastWordPasses(sha256, prefix, last, k);
    IndexBits(last);
    ValueBound(2, TopBits(last, k));
    DigitsOfValue(2, TopBits(last, k));
  }

  /** The completions of `prefix`, one for each value of the remaining entropy bits. */
  function Completions(sha256: Bytes -> Bytes32, prefix: seq<nat>, k: nat, n: nat): (c: seq<nat>)
    requires k <= 11
    ensures |c| == n
    ensures forall t :: 0 <= t < n ==> c[t] == Completion(sha256, prefix, Digits(2, t, 11 - k), k)
  {
    if n == 0 then [] else
      Completions(sha256, prefix, k, n - 1) + [Completion(sha256, prefix, Digits(2, n - 1, 11 - k), k)]
  }

  lemma ListedPass(sha256: Bytes -> Bytes32, prefix: seq<nat>, k: nat, n: nat, passing: seq<nat>)
    requires AreIndices(prefix) && |prefix| == 3 * k - 1 && 4 <= k <= 8
    requires n == Pow(2, 11 - k) && passing == Completions(sha256, prefix, k, n)
    ensures forall t :: 0 <= t < n ==>
      && passing[t] < 2048 && Value(2, TopBits(passing[t], k)) == t
      && CheckedEntropy(sha256, prefix + [passing[t]]).Ok?
  {
    forall t: nat | t < n
      ensures passing[t] < 2048 && Value(2, TopBits(passing[t], k)) == t
      ensures CheckedEntropy(sha256, prefix + [passing[t]]).Ok?
    {
      CompletionPasses(sha256, prefix, t, k);
    }
  }

  /** Over indices: the passing last words, listed without repetition, number 2^(11 - k). */
  lemma PassingIndices(sha256: Bytes -> Bytes32, prefix: seq<nat>, k: nat, n: nat, passing: seq<nat>)
    requires AreIndices(prefix) && |prefix| == 3 * k - 1 && 4 <= k <= 8
    requires n == Pow(2, 11 - k) && passing == Completions(sha256, prefix, k, n)
    ensures AreIndices(passing)
    ensures forall i, j :: 0 <= i < j < n ==> passing[i] != passing[j]
    ensures forall last: nat :: last < 2048 ==>
      (last in passing <==> CheckedEntropy(sha256, prefix + [last]).Ok?)
  {
    ListedPass(sha256, prefix, k, n, passing);
    forall last: nat | last < 2048 && CheckedEntropy(sha256, prefix + [last]).Ok?
      ensures last in passing
    {
      PassingIsCompletion(sha256, prefix, last, k);
      assert passing[Value(2, TopBits(last, k))] == last;
    }
  }

  lemma LastWordAccepted(lex: Lexicon, words: seq<string>, prefix: seq<nat>, last: nat, k: nat)
    requires ValidLexicon(lex) && 4 <= k <= 8 && |prefix| == 3 * k - 1 && AreIndices(prefix)
    requires WordsAt(lex, prefix) == Ok(words) && last < 2048
    ensures FromPhrase(lex, Join(words + [lex.words[last]], ' ')).Ok?
       <==> CheckedEntropy(lex.sha256, prefix + [last]).Ok?
  {
    var all := words + [lex.words[last]];
    assert words == WordsAt(lex, prefix).value;
    assert WordsAt(lex, prefix + [last]).Ok? && WordsAt(lex, prefix + [last]).value == all;
    JoinedWords(lex, all);
    LookupInverse(lex, prefix + [last], all);
    PhraseByIndices(lex, Join(all, ' '), prefix + [last], k);
  }

  /** Distinct positions of a list without repetition select equally many entries. */
  lemma SelectedCount(list: seq<string>, positions: seq<nat>, selected: set<string>)
    requires forall i, j :: 0 <= i < j < |list| ==> list[i] != list[j]
    requires forall i, j :: 0 <= i < j < |positions| ==> positions[i] != positions[j]
    requires forall i :: 0 <= i < |positions| ==> positions[i] < |list|
    requires forall w :: w in selected ==> w in list
    requires forall i: nat :: i < |list| ==> (list[i] in selected <==> i in positions)
    ensures |selected| == |positions|
  {
    var entries := seq(|positions|, t requires 0 <= t < |positions| => list[positions[t]]);
    DistinctCount(entries);
    forall w | w in selected
      ensures w in entries
    {
      var i: nat :| i < |list| && list[i] == w;
      var t :| 0 <= t < |positions| && positions[t] == i;
      assert entries[t] == w;
    }
    assert selected == set w | w in entries;
  }

  lemma ListedIndices(lex: Lexicon, words: seq<string>) returns (indices: seq<nat>)
    requires ValidLexicon(lex) && forall i :: 0 <= i < |words| ==> words[i] in lex.words
    ensures AreIndices(indices) && |indices| == |words| && WordsAt(lex, indices) == Ok(words)
  {
    TableEntries(lex.words);
    indices := Lookup(WordToIndex(lex.words), words).value;
    LookupInverse(lex, indices, words);
  }

  /** The list words that complete `words` to an accepted phrase. */
  function CompletingWords(lex: Lexicon, words: seq<string>): set<string> {
    set w | w in lex.words && FromPhrase(lex, Join(words + [w], ' ')).Ok?
  }

  lemma CompletingAre(lex: Lexicon, words: seq<string>, prefix: seq<nat>, k: nat)
    requires ValidLexicon(lex) && 4 <= k <= 8 && |prefix| == 3 * k - 1 && AreIndices(prefix)
    requires WordsAt(lex, prefix) == Ok(words)
    ensures forall last: nat :: last < 2048 ==>
      (lex.words[last] in CompletingWords(lex, words)
       <==> CheckedEntropy(lex.sha256, prefix + [last]).Ok?)
  {
    forall last: nat | last < 2048
      ensures lex.words[last] in CompletingWords(lex, words)
         <==> CheckedEntropy(lex.sha256, prefix + [last]).Ok?
    {
      LastWordAccepted(lex, words, prefix, last, k);
    }
  }

  /** Whatever the hash function, and whatever the first 3k - 1 words are, exactly
      2^(11 - k) of the 2048 list words complete them to an accepted phrase. */
  lemma ChecksumDensity(lex: Lexicon, words: seq<string>, k: nat)
    requires ValidLexicon(lex) && 4 <= k <= 8 && |words| == 3 * k - 1
    requires forall i :: 0 <= i < |words| ==> words[i] in lex.words
    ensures |CompletingWords(lex, words)| == Pow(2, 11 - k)
  {
    var prefix := ListedIndices(lex, words);
    var n := Pow(2, 11 - k);
    var passing := Completions(lex.sha256, prefix, k, n);
    PassingIndices(lex.sha256, prefix, k, n, passing);
    CompletingAre(lex, words, prefix, k);
    SelectedCount(lex.words, passing, CompletingWords(lex, words));
  }
}
