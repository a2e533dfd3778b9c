/** The `str` methods the library uses: `split()`, `split(sep)`, `sep.join`, `strip`, `encode`. */
module Text {
  import opened Prelude

  /** The code points for which Python's `str.isspace` holds. */
  predicate IsSpace(c: char) {
    || '\U{9}' <= c <= '\U{D}' || '\U{1C}' <= c <= '\U{20}' || c == '\U{85}' || c == '\U{A0}'
    || c == '\U{1680}' || '\U{2000}' <= c <= '\U{200A}' || c == '\U{2028}' || c == '\U{2029}'
    || c == '\U{202F}' || c == '\U{205F}' || c == '\U{3000}'
  }

  /** The same characters, one by one. */
  lemma SpaceCodes(c: char)
    ensures IsSpace(c) <==> c as int in {
      9, 10, 11, 12, 13, 28, 29, 30, 31, 32, 133, 160, 5760, 8192, 8193, 8194, 8195, 8196, 8197, 8198,
      8199, 8200, 8201, 8202, 8232, 8233, 8239, 8287, 12288}
  {}

  predicate AllSpace(s: string) {
    forall i :: 0 <= i < |s| ==> IsSpace(s[i])
  }

  predicate IsAscii(s: string) {
    forall i :: 0 <= i < |s| ==> s[i] <= '\U{7F}'
  }

  /** Non-empty and free of whitespace: what `split()` returns. */
  predicate IsToken(w: string) {
    w != "" && forall i :: 0 <= i < |w| ==> !IsSpace(w[i])
  }

  /** How many characters at the start of `s` fail `stop`. */
  function RunLength(s: string, stop: char -> bool): (n: nat)
    ensures n <= |s|
    ensures forall i :: 0 <= i < n ==> !stop(s[i])
    ensures n < |s| ==> stop(s[n])
  {
    if s == "" || stop(s[0]) then 0 else 1 + RunLength(s[1..], stop)
  }

  lemma {:induction false} RunLengthIs(s: string, stop: char -> bool, n: nat)
    requires n <= |s|
    requires forall i :: 0 <= i < n ==> !stop(s[i])
    requires n < |s| ==> stop(s[n])
    ensures RunLength(s, stop) == n
  {
    if n > 0 {
      RunLengthIs(s[1..], stop, n - 1);
    }
  }

  /** `s.split()`: the maximal runs of non-whitespace. */
  function Split(s: string): (words: seq<string>)
    ensures forall i :: 0 <= i < |words| ==> IsToken(words[i])
    decreases |s|
  {
    if s == "" then []
    else if IsSpace(s[0]) then Split(s[1..])
    else
      var n := RunLength(s, IsSpace);
      [s[..n]] + Split(s[n..])
  }

  /** `sep.join(parts)` for a one-character separator. */
  function Join(parts: seq<string>, sep: char): string {
    if parts == [] then ""
    else if |parts| == 1 then parts[0]
    else parts[0] + [sep] + Join(parts[1..], sep)
  }

  /** The test for one character. */
  function Is(sep: char): char -> bool {
    c => c == sep
  }

  /** `s.split(sep)` for a one-character separator: never empty, keeps empty parts. */
  function SplitOn(s: string, sep: char): (parts: seq<string>)
    ensures |parts| > 0
    ensures forall i :: 0 <= i < |parts| ==> sep !in parts[i]
    decreases |s|
  {
    var n := RunLength(s, Is(sep));
    if n == |s| then [s] else [s[..n]] + SplitOn(s[n + 1..], sep)
  }

  /** `s` is `words` in order, with whitespace between any two and possibly around them. */
  ghost predicate Spaced(s: string, words: seq<string>)
    decreases |words|
  {
    if words == [] then AllSpace(s)
    else exists i: nat, j: nat :: FirstWord(s, words[0], i, j) && Spaced(s[j..], words[1..])
  }

  /** The first word of `s` stands at `i` and ends at `j`. */
  ghost predicate FirstWord(s: string, w: string, i: nat, j: nat) {
    && i < j <= |s| && s[i..j] == w && IsToken(w)
    && AllSpace(s[..i]) && (j < |s| ==> IsSpace(s[j]))
  }

  lemma {:induction false} SplitSkips(space: string, s: string)
    requires AllSpace(space)
    ensures Split(space + s) == Split(s)
    decreases |space|
  {
    if space == "" {
      assert space + s == s;
    } else {
      assert (space + s)[1..] == space[1..] + s;
      SplitSkips(space[1..], s);
    }
  }

  lemma SplitCuts(w: string, s: string)
    requires IsToken(w) && (s != "" ==> IsSpace(s[0]))
    ensures Split(w + s) == [w] + Split(s)
  {
    RunLengthIs(w + s, IsSpace, |w|);
    assert (w + s)[..|w|] == w && (w + s)[|w|..] == s;
  }

  lemma SplitFirst(s: string, w: string, i: nat, j: nat)
    requires FirstWord(s, w, i, j)
    ensures Split(s) == [w] + Split(s[j..])
  {
    SplitCuts(w, s[j..]);
    assert s[i..] == w + s[j..];
    SplitSkips(s[..i], s[i..]);
    assert s == s[..i] + s[i..];
  }

  lemma {:induction false} SplitSpaced(s: string, words: seq<string>)
    requires Spaced(s, words)
    ensures Split(s) == words
    decreases |words|
  {
    if words == [] {
      SplitSkips(s, "");
      assert s + "" == s;
    } else {
      var i: nat, j: nat :| FirstWord(s, words[0], i, j) && Spaced(s[j..], words[1..]);
      SplitFirst(s, words[0], i, j);
      SplitSpaced(s[j..], words[1..]);
    }
  }

  lemma MoreSpace(s: string, words: seq<string>)
    requires s != "" && IsSpace(s[0]) && Spaced(s[1..], words)
    ensures Spaced(s, words)
  {
    if words != [] {
      var i: nat, j: nat :| FirstWord(s[1..], words[0], i, j) && Spaced(s[1..][j..], words[1..]);
      FirstWordAfter(s, words[0], i, j);
      TailOfTail(s, j);
    }
  }

  lemma TailOfTail(s: string, j: nat)
    requires s != "" && j < |s|
    ensures s[1..][j..] == s[j + 1..]
  {}

  lemma FirstWordAfter(s: string, w: string, i: nat, j: nat)
    requires s != "" && IsSpace(s[0]) && FirstWord(s[1..], w, i, j)
    ensures FirstWord(s, w, i + 1, j + 1)
  {
    forall k | 0 <= k < j - i
      ensures s[i + 1..j + 1][k] == s[1..][i..j][k]
    {
      assert s[i + 1..j + 1][k] == s[i + 1 + k] == s[1..][i + k];
    }
    assert s[i + 1..j + 1] == w;
    assert s[..i + 1] == [s[0]] + s[1..][..i];
  }

  lemma {:induction false} SplitIsSpaced(s: string)
    ensures Spaced(s, Split(s))
    decreases |s|
  {
    if s != "" {
      if IsSpace(s[0]) {
        SplitIsSpaced(s[1..]);
        MoreSpace(s, Split(s));
      } else {
        var n := RunLength(s, IsSpace);
        SplitIsSpaced(s[n..]);
        assert Split(s)[1..] == Split(s[n..]);
        assert FirstWord(s, Split(s)[0], 0, n);
      }
    }
  }

  /** `split` finds exactly the words that stand in `s`, between whitespace of any length. */
  lemma SplitMeaning(s: string, words: seq<string>)
    ensures Split(s) == words <==> Spaced(s, words)
  {
    SplitIsSpaced(s);
    if Spaced(s, words) {
      SplitSpaced(s, words);
    }
  }

  lemma {:induction false} SplitJoin(words: seq<string>)
    requires forall i :: 0 <= i < |words| ==> IsToken(words[i])
    ensures Split(Join(words, ' ')) == words
  {
    if words == [] {
    } else if |words| == 1 {
      SplitCuts(words[0], "");
      assert words[0] + "" == words[0];
    } else {
      var w, rest := words[0], Join(words[1..], ' ');
      SplitCuts(w, [' '] + rest);
      SplitSkips([' '], rest);
      assert w + ([' '] + rest) == w + [' '] + rest;
      SplitJoin(words[1..]);
      assert [w] + words[1..] == words;
    }
  }

  lemma {:induction false} SplitOnJoin(parts: seq<string>, sep: char)
    requires |parts| > 0
    requires forall i :: 0 <= i < |parts| ==> sep !in parts[i]
    ensures SplitOn(Join(parts, sep), sep) == parts
  {
    var p := parts[0];
    if |parts| == 1 {
      RunLengthIs(p, Is(sep), |p|);
    } else {
      var rest := Join(parts[1..], sep);
      var s := p + [sep] + rest;
      RunLengthIs(s, Is(sep), |p|);
      assert s[..|p|] == p;
      assert s[|p| + 1..] == rest;
      SplitOnJoin(parts[1..], sep);
      assert [p] + parts[1..] == parts;
    }
  }

  lemma JoinCons(part: string, rest: seq<string>, sep: char)
    requires rest != []
    ensures Join([part] + rest, sep) == part + [sep] + Join(rest, sep)
  {
    assert ([part] + rest)[1..] == rest;
  }

  lemma CutAt(s: string, n: nat)
    requires n < |s|
    ensures s == s[..n] + [s[n]] + s[n + 1..]
  {}

  lemma {:induction false} JoinSplitOn(s: string, sep: char)
    ensures Join(SplitOn(s, sep), sep) == s
    decreases |s|
  {
    var n := RunLength(s, Is(sep));
    if n < |s| {
      var rest := SplitOn(s[n + 1..], sep);
      assert SplitOn(s, sep) == [s[..n]] + rest;
      JoinSplitOn(s[n + 1..], sep);
      JoinCons(s[..n], rest, sep);
      CutAt(s, n);
    }
  }

  /** `s.strip()`. */
  function Strip(s: string): (t: string)
    ensures t != "" ==> !IsSpace(t[0]) && !IsSpace(t[|t| - 1])
    decreases |s|
  {
    if s == "" then ""
    else if IsSpace(s[0]) then Strip(s[1..])
    else if IsSpace(s[|s| - 1]) then Strip(s[..|s| - 1])
    else s
  }

  /** Surrounding whitespace is what `strip` removes. */
  lemma {:induction false} StripPadding(before: string, t: string, after: string)
    requires AllSpace(before) && AllSpace(after)
    requires t != "" && !IsSpace(t[0]) && !IsSpace(t[|t| - 1])
    ensures Strip(before + t + after) == t
    decreases |before| + |after|
  {
    var s := before + t + after;
    if before != "" {
      assert s[1..] == before[1..] + t + after;
      StripPadding(before[1..], t, after);
    } else if after != "" {
      assert s[..|s| - 1] == before + t + after[..|after| - 1];
      StripPadding(before, t, after[..|after| - 1]);
    } else {
      assert s == t;
    }
  }

  lemma {:induction false} StripSpace(s: string)
    requires AllSpace(s)
    ensures Strip(s) == ""
  {
    if s != "" {
      StripSpace(s[1..]);
    }
  }

  lemma {:induction false} TrailingSpace(s: string) returns (j: nat)
    ensures j <= |s| && AllSpace(s[j..]) && (j > 0 ==> !IsSpace(s[j - 1]))
  {
    j := |s|;
    if s != "" && IsSpace(s[|s| - 1]) {
      j := TrailingSpace(s[..|s| - 1]);
      assert s[j..] == s[..|s| - 1][j..] + [s[|s| - 1]];
    }
  }

  lemma {:induction false} LeadingSpace(s: string) returns (i: nat)
    ensures i <= |s| && AllSpace(s[..i]) && (i < |s| ==> !IsSpace(s[i]))
  {
    i := 0;
    if s != "" && IsSpace(s[0]) {
      i := LeadingSpace(s[1..]);
      i := i + 1;
      assert s[..i] == [s[0]] + s[1..][..i - 1];
    }
  }

  /** `strip` removes nothing but whitespace, at both ends; what is left of it has none there. */
  lemma StripCuts(s: string) returns (before: string, after: string)
    ensures s == before + Strip(s) + after && AllSpace(before) && AllSpace(after)
    ensures Strip(s) == "" <==> AllSpace(s)
  {
    var i := LeadingSpace(s);
    if i == |s| {
      assert s[..i] == s;
      StripSpace(s);
      before, after := s, "";
    } else {
      var j := TrailingSpace(s[i..]);
      assert s[i..][0] == s[i] && j > 0;
      before, after := s[..i], s[i..][j..];
      StripPadding(before, s[i..][..j], after);
      assert s == before + s[i..][..j] + after;
    }
  }

  /** A join ends as its last part does. */
  lemma {:induction false} JoinEnd(parts: seq<string>, sep: char)
    requires parts != [] && parts[|parts| - 1] != ""
    ensures var j, last := Join(parts, sep), parts[|parts| - 1];
      j != "" && j[|j| - 1] == last[|last| - 1]
  {
    if |parts| > 1 {
      JoinEnd(parts[1..], sep);
    }
  }

  lemma {:induction false} SplitAscii(s: string)
    requires IsAscii(s)
    ensures forall i :: 0 <= i < |Split(s)| ==> IsAscii(Split(s)[i])
    decreases |s|
  {
    if s != "" {
      SplitAscii(if IsSpace(s[0]) then s[1..] else s[RunLength(s, IsSpace)..]);
    }
  }

  lemma {:induction false} JoinAscii(words: seq<string>)
    requires forall i :: 0 <= i < |words| ==> IsAscii(words[i])
    ensures IsAscii(Join(words, ' '))
  {
    if |words| > 1 {
      JoinAscii(words[1..]);
    }
  }

  // ---- UTF-8 -------------------------------------------------------------------------

  /** The bytes of one code point. */
  function EncodeChar(ch: char): (b: Bytes)
    ensures 1 <= |b| <= 4
  {
    var c := ch as int;
    if c < 0x80 then [c]
    else if c < 0x800 then [0xC0 + c / 64, 0x80 + c % 64]
    else if c < 0x1_0000 then [0xE0 + c / 4096, 0x80 + c / 64 % 64, 0x80 + c % 64]
    else [0xF0 + c / 262144, 0x80 + c / 4096 % 64, 0x80 + c / 64 % 64, 0x80 + c % 64]
  }

  /** `s.encode("utf-8")`. */
  function Utf8(s: string): (b: Bytes)
    ensures b == [] <==> s == ""
  {
    if s == "" then [] else EncodeChar(s[0]) + Utf8(s[1..])
  }

  /** How many bytes start with this one, by section 3 of RFC 3629. */
  function Utf8Length(first: byte): (n: nat)
    ensures 1 <= n <= 4
  {
    if first < 0x80 then 1 else if first < 0xE0 then 2 else if first < 0xF0 then 3 else 4
  }

  /** The number in the bits of the bytes that section 3 of RFC 3629 gives to the code point. */
  function CodePoint(b: Bytes): int
    requires b != [] && |b| == Utf8Length(b[0])
  {
    match |b|
    case 1 => b[0] as int
    case 2 => (b[0] as int - 0xC0) * 0x40 + Tail(b[1])
    case 3 => (b[0] as int - 0xE0) * 0x1000 + Tail(b[1]) * 0x40 + Tail(b[2])
    case 4 => (b[0] as int - 0xF0) * 0x4_0000 + Tail(b[1]) * 0x1000 + Tail(b[2]) * 0x40 + Tail(b[3])
  }

  /** The six bits of a byte that is not the first. */
  function Tail(b: byte): int {
    b as int - 0x80
  }

  /** A reference decoder. */
  function DecodeUtf8(b: Bytes): Option<seq<int>>
    decreases |b|
  {
    if b == [] then Some([])
    else
      var n := Utf8Length(b[0]);
      if |b| < n then None
      else match DecodeUtf8(b[n..])
        case None => None
        case Some(rest) => Some([CodePoint(b[..n])] + rest)
  }

  lemma CharRoundTrip(ch: char)
    ensures var b := EncodeChar(ch);
      |b| == Utf8Length(b[0]) && CodePoint(b) == ch as int
  {
    SixBits(ch as int);
  }

  lemma SixBits(c: nat)
    ensures c == c / 64 * 64 + c % 64
    ensures c / 64 == c / 4096 * 64 + c / 64 % 64
    ensures c / 4096 == c / 262144 * 64 + c / 4096 % 64
  {}

  lemma {:induction false} Utf8RoundTrip(s: string)
    ensures var codes := DecodeUtf8(Utf8(s));
      && codes.Some? && |codes.value| == |s|
      && forall i :: 0 <= i < |s| ==> codes.value[i] == s[i] as int
  {
    if s != "" {
      CharRoundTrip(s[0]);
      Utf8RoundTrip(s[1..]);
      var head, b := EncodeChar(s[0]), Utf8(s);
      assert b[..|head|] == head && b[|head|..] == Utf8(s[1..]);
    }
  }

  /** Different texts have different encodings. */
  lemma Utf8Injective(s: string, t: string)
    requires Utf8(s) == Utf8(t)
    ensures s == t
  {
    Utf8RoundTrip(s);
    Utf8RoundTrip(t);
  }
}
