/** Which sizes of entropy survive the way to a phrase and back. */
module MnemonicSizes {
  import opened Prelude
  import opened Radix
  import opened Mnemonics
  import opened MnemonicProofs

  ghost predicate Survives(lex: Lexicon, ent: Bytes) {
    FromEntropy(lex, ent).Ok? && Entropy(lex, FromEntropy(lex, ent).value) == Ok(ent)
  }

  /** The bytes `w` words recover to: three words carry four, and one or two words left over
      carry one or two, with three or six bits to spare. */
  function BytesOf(w: nat): nat {
    w / 3 * 4 + w % 3
  }

  lemma PartShape(indices: seq<nat>)
    requires AreIndices(indices) && |indices| >= 3
    ensures var part, w := EntropyPart(indices), |indices|;
      && |part| == 8 * BytesOf(w) + 3 * (w % 3) && |part| / 8 == BytesOf(w)
      && IsNumeral(2, part) && part == Flatten(indices)[..|part|] && |part| > 0
  {
    FlattenIsNumeral(indices);
    var w := |indices|;
    assert ChecksumBits(w) == w / 3;
    assert w == w / 3 * 3 + w % 3;
  }

  /** With spare bits, a leading one makes the number too large for its bytes. */
  lemma LeadingOneOverflows(bits: seq<nat>, n: nat)
    requires IsNumeral(2, bits) && |bits| > 8 * n && bits[0] == 1
    ensures Value(2, bits) >= Pow(256, n)
  {
    ValueAtLeast(2, bits);
    BytePower(n);
    PowMonotone(2, 8 * n, |bits| - 1);
  }

  /** What recovery makes of any list of indices, by the number of words. */
  lemma IndicesRecovery(indices: seq<nat>)
    requires AreIndices(indices) && indices != []
    ensures var r, w := IndicesEntropy(indices), |indices|;
      && (w < 3 ==> r == Err(ValueError))
      && (w >= 3 && w % 3 == 0 ==> r.Ok?)
      && (w >= 3 && w % 3 != 0 && Flatten(indices) != [] && Flatten(indices)[0] == 1
          ==> r == Err(OverflowError))
      && (r.Ok? ==> |r.value| == BytesOf(w))
      && (w >= 3 && r.Err? ==> r.error == OverflowError)
  {
    var part, w := EntropyPart(indices), |indices|;
    if w >= 3 {
      PartShape(indices);
      if w % 3 == 0 {
        BitsAsBytes(part, BytesOf(w));
      } else if Flatten(indices)[0] == 1 {
        LeadingOneOverflows(part, BytesOf(w));
      }
    }
  }

  /** The first bit of the first byte is the first bit of the phrase. */
  lemma FirstBit(sha256: Bytes -> Bytes32, ent: Bytes)
    requires |ent| >= 2 && ent[0] >= 128
    ensures var flat := Flatten(EntropyIndices(sha256, ent)); flat != [] && flat[0] == 1
  {
    var n, bits := 8 * |ent|, BinFill(Value(256, ent), 8 * |ent|);
    BytesAsBits(ent, n);
    FirstBitOfBytes(ent, n, bits);
    EncodedShape(sha256, ent);
    FullChunks(EncodedBits(sha256, ent), 1);
    assert EncodedBits(sha256, ent)[..11][0] == bits[0];
  }

  lemma FirstBitOfBytes(ent: Bytes, n: nat, bits: seq<nat>)
    requires ent != [] && ent[0] >= 128 && n == 8 * |ent|
    requires |bits| == n && IsNumeral(2, bits) && Value(2, bits) == Value(256, ent)
    ensures bits[0] == 1
  {
    var m := |ent| - 1;
    ValueAtLeast(256, ent);
    MulMono(128, ent[0], Pow(256, m), Pow(256, m));
    BytePower(m);
    assert Pow(2, 7) == 128;
    PowAdd(2, 7, 8 * m);
    if bits[0] == 0 {
      assert bits == Zeros(1) + bits[1..];
      ValueLeadingZeros(2, 1, bits[1..]);
      ValueBound(2, bits[1..]);
    }
  }

  /** What becomes of entropy of any size, by the number of its words: fewer than three words are
      a ValueError; a multiple of three comes back as four bytes for each three; any other number
      overflows if the first bit is set, and otherwise comes back as `BytesOf` says or overflows. */
  lemma Recovery(lex: Lexicon, ent: Bytes)
    requires ValidLexicon(lex) && ent != []
    ensures FromEntropy(lex, ent).Ok?
    ensures var r, w := Entropy(lex, FromEntropy(lex, ent).value), WordsFor(|ent|);
      && (w < 3 ==> r == Err(ValueError))
      && (w >= 3 && w % 3 == 0 ==> r.Ok?)
      && (w >= 3 && w % 3 != 0 && ent[0] >= 128 ==> r == Err(OverflowError))
      && (r.Ok? ==> |r.value| == BytesOf(w))
      && (w >= 3 && r.Err? ==> r.error == OverflowError)
  {
    var indices := EntropyIndices(lex.sha256, ent);
    EncodedShape(lex.sha256, ent);
    IndicesRecovery(indices);
    ListedPhrase(lex, indices);
    if WordsFor(|ent|) >= 3 && ent[0] >= 128 {
      FirstBit(lex.sha256, ent);
    }
  }

  /** The size comes back as it was, in whole groups of words, for exactly the multiples of four
      up to 1064. */
  lemma GroupedSizes(n: nat)
    requires n > 0
    ensures WordsFor(n) % 3 == 0 && BytesOf(WordsFor(n)) == n <==> n % 4 == 0 && n <= 1064
  {
    var w := WordsFor(n);
    if w % 3 == 0 && BytesOf(w) == n {
      assert w == w / 3 * 3 && n == w / 3 * 4;
    }
    if n % 4 == 0 && n <= 1064 {
      assert w == 3 * (n / 4);
    }
  }

  /** Entropy of a size survives, whatever the bytes are, exactly if the size is a multiple of
      four and at most 1064. */
  lemma SurvivingSizes(lex: Lexicon, n: nat)
    requires ValidLexicon(lex) && n > 0
    ensures (forall ent: Bytes | |ent| == n :: Survives(lex, ent)) <==> n % 4 == 0 && n <= 1064
  {
    GroupedSizes(n);
    if n % 4 == 0 && n <= 1064 {
      forall ent: Bytes | |ent| == n
        ensures Survives(lex, ent)
      {
        EntropyRoundTrip(lex, ent);
      }
    } else {
      var ones: Bytes := seq(n, _ => 0xFF);
      Recovery(lex, ones);
      assert !Survives(lex, ones);
    }
  }
}
