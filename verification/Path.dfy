/** The textual form of derivation paths. */
module Path {
  import opened Prelude
  import opened Radix
  import opened Text
  import opened Derivation

  /** What Python knows of characters: which ones `isdigit` accepts, and the value `int` gives
      those that are decimal digits of some script. A superscript digit has no such value.
      `maxDigits` is the interpreter's limit on the digits `int` reads, 4300 unless it is set;
      zero stands for no limit. */
  datatype Unicode = Unicode(isDigit: char -> bool, decimal: char -> Option<nat>, maxDigits: nat)

  ghost predicate ValidUnicode(u: Unicode) {
    && (forall c :: u.decimal(c).Some? ==> u.isDigit(c) && u.decimal(c).value < 10)
    && (forall c :: '0' <= c <= '9' ==> u.decimal(c) == Some(c as int - '0' as int))
    && (forall c :: u.isDigit(c) ==> !IsSpace(c) && c !in {'\'', 'h', '/'})
    && (u.maxDigits == 0 || u.maxDigits >= 640)
  }

  predicate IsMarker(c: char) { c == '\'' || c == 'h' }

  predicate AllDigits(u: Unicode, text: string) {
    forall i :: 0 <= i < |text| ==> u.isDigit(text[i])
  }

  predicate AllDecimal(u: Unicode, text: string) {
    forall i :: 0 <= i < |text| ==> u.decimal(text[i]).Some?
  }

  /** What `int` accepts among texts of digits. */
  predicate Readable(u: Unicode, text: string) {
    AllDecimal(u, text) && (u.maxDigits == 0 || |text| <= u.maxDigits)
  }

  /** The number `int` reads in decimal digits. */
  function Number(u: Unicode, text: string): nat
    requires AllDecimal(u, text)
  {
    Value(10, seq(|text|, i requires 0 <= i < |text| => u.decimal(text[i]).value))
  }

  /** The decimal reading, digit by digit. */
  lemma NumberDigits(u: Unicode, text: string, digits: seq<nat>)
    requires |digits| == |text| && forall i :: 0 <= i < |text| ==> u.decimal(text[i]) == Some(digits[i])
    ensures AllDecimal(u, text) && Number(u, text) == Value(10, digits)
  {
    assert digits == seq(|text|, i requires 0 <= i < |text| => u.decimal(text[i]).value);
  }

  /** `part.rstrip("'h")`. */
  function StripMarkers(part: string): (r: string)
    ensures r <= part
    decreases |part|
  {
    if part != "" && IsMarker(part[|part| - 1]) then StripMarkers(part[..|part| - 1]) else part
  }

  function ParseComponent(u: Unicode, part: string): Result<Component> {
    var hardened := part != "" && IsMarker(part[|part| - 1]);
    var num := StripMarkers(part);
    if num == "" || !AllDigits(u, num) then Err(InvalidDerivationPathError)
    else if !Readable(u, num) then Err(ValueError)
    else if Number(u, num) > MAX_INDEX then Err(InvalidDerivationPathError)
    else Ok((Number(u, num), hardened))
  }

  function ParseComponents(u: Unicode, parts: seq<string>): (r: Result<seq<Component>>)
    ensures r.Ok? ==> |r.value| == |parts|
    decreases |parts|
  {
    if parts == [] then Ok([])
    else
      var init :- ParseComponents(u, parts[..|parts| - 1]);
      var last :- ParseComponent(u, parts[|parts| - 1]);
      Ok(init + [last])
  }

  function ParsePath(u: Unicode, s: string): Result<seq<Component>> {
    var t := Strip(s);
    if t == "" || t == "m" then Ok([])
    else if !("m/" <= t) then Err(InvalidDerivationPathError)
    else ParseComponents(u, SplitOn(t[2..], '/'))
  }

  /** `DerivationPath.parse` with its loop over the components. */
  method Parse(u: Unicode, s: string) returns (r: Result<seq<Component>>)
    ensures r == ParsePath(u, s)
  {
    var t := Strip(s);
    if t == "" || t == "m" {
      return Ok([]);
    }
    if !("m/" <= t) {
      return Err(InvalidDerivationPathError);
    }
    var parts := SplitOn(t[2..], '/');
    var out: seq<Component> := [];
    for i := 0 to |parts|
      invariant ParseComponents(u, parts[..i]) == Ok(out)
    {
      var c := ParseComponent(u, parts[i]);
      assert parts[..i + 1][..i] == parts[..i];
      if c.Err? {
        FirstFailure(u, parts, i + 1);
        return Err(c.error);
      }
      out := out + [c.value];
    }
    assert parts[..|parts|] == parts;
    r := Ok(out);
  }

  /** The first component that fails decides the exception. */
  lemma {:induction false} FirstFailure(u: Unicode, parts: seq<string>, n: nat)
    requires n <= |parts| && ParseComponents(u, parts[..n]).Err?
    ensures ParseComponents(u, parts) == ParseComponents(u, parts[..n])
    decreases |parts|
  {
    if n < |parts| {
      assert parts[..|parts| - 1][..n] == parts[..n];
      FirstFailure(u, parts[..|parts| - 1], n);
    } else {
      assert parts[..n] == parts;
    }
  }

  // ---- the language `parse` accepts --------------------------------------------------

  /** The first `n` characters of `part` are the decimal digits of the index, the rest are
      hardened markers, and the component is hardened when there is at least one. */
  ghost predicate DenotesAt(u: Unicode, part: string, c: Component, n: nat) {
    && 0 < n <= |part| && (u.maxDigits == 0 || n <= u.maxDigits)
    && (forall i :: 0 <= i < n ==> u.decimal(part[i]).Some?)
    && (forall i :: n <= i < |part| ==> part[i] == '\'' || part[i] == 'h')
    && c == (Number(u, part[..n]), n < |part|)
    && c.0 <= 0x7FFF_FFFF
  }

  ghost predicate Denotes(u: Unicode, part: string, c: Component) {
    exists n: nat :: DenotesAt(u, part, c, n)
  }

  ghost predicate HasMeaning(u: Unicode, part: string) {
    exists c: Component :: Denotes(u, part, c)
  }

  /** Digits and markers, but one of the digits is no decimal digit or there are too many. */
  ghost predicate UnreadableAt(u: Unicode, part: string, n: nat) {
    && 0 < n <= |part| && (forall i :: 0 <= i < n ==> u.isDigit(part[i]))
    && ((exists i :: 0 <= i < n && u.decimal(part[i]).None?) || 0 < u.maxDigits < n)
    && forall i :: n <= i < |part| ==> part[i] == '\'' || part[i] == 'h'
  }

  ghost predicate Unreadable(u: Unicode, part: string) {
    exists n: nat :: UnreadableAt(u, part, n)
  }

  lemma {:induction false} StripMarkersIs(part: string)
    ensures var n := |StripMarkers(part)|;
      && n <= |part| && StripMarkers(part) == part[..n]
      && (n > 0 ==> !IsMarker(part[n - 1]))
      && forall i :: n <= i < |part| ==> IsMarker(part[i])
    decreases |part|
  {
    if part != "" && IsMarker(part[|part| - 1]) {
      StripMarkersIs(part[..|part| - 1]);
    }
  }

  /** Digits and markers split in one place only: where `rstrip` cuts. */
  lemma OneCut(u: Unicode, part: string, n: nat)
    requires ValidUnicode(u) && 0 < n <= |part| && AllDigits(u, part[..n])
    requires forall i :: n <= i < |part| ==> IsMarker(part[i])
    ensures StripMarkers(part) == part[..n]
  {
    StripMarkersIs(part);
    var m := |StripMarkers(part)|;
    assert u.isDigit(part[..n][n - 1]);
    assert !(n < m);
  }

  /** A component is accepted as what it denotes; digits `int` cannot read raise
      ValueError, everything else InvalidDerivationPathError. */
  lemma ComponentMeaning(u: Unicode, part: string, c: Component)
    requires ValidUnicode(u)
    ensures ParseComponent(u, part) == Ok(c) <==> Denotes(u, part, c)
    ensures ParseComponent(u, part) == Err(ValueError) <==> Unreadable(u, part)
    ensures ParseComponent(u, part).Err? ==>
      ParseComponent(u, part).error in {ValueError, InvalidDerivationPathError}
  {
    var num := StripMarkers(part);
    StripMarkersIs(part);
    assert forall i :: 0 <= i < |num| ==> num[i] == part[i];
    if ParseComponent(u, part) == Ok(c) {
      assert DenotesAt(u, part, c, |num|);
    }
    if ParseComponent(u, part) == Err(ValueError) {
      assert UnreadableAt(u, part, |num|);
    }
    if Denotes(u, part, c) {
      var n: nat :| DenotesAt(u, part, c, n);
      OneCut(u, part, n);
    }
    if Unreadable(u, part) {
      var n: nat :| UnreadableAt(u, part, n);
      OneCut(u, part, n);
    }
  }

  lemma SnocEquals(init: seq<Component>, last: Component, cs: seq<Component>)
    requires |cs| == |init| + 1
    ensures init + [last] == cs <==> init == cs[..|init|] && last == cs[|init|]
  {
    assert cs == cs[..|init|] + [cs[|init|]];
    if init + [last] == cs {
      assert (init + [last])[..|init|] == init && (init + [last])[|init|] == last;
    }
  }

  lemma {:induction false} ComponentsMeaning(u: Unicode, parts: seq<string>, cs: seq<Component>)
    requires ValidUnicode(u)
    ensures ParseComponents(u, parts) == Ok(cs)
       <==> |cs| == |parts| && forall i :: 0 <= i < |cs| ==> Denotes(u, parts[i], cs[i])
    decreases |parts|
  {
    if parts != [] && |cs| == |parts| {
      var n := |parts| - 1;
      var init, last := ParseComponents(u, parts[..n]), ParseComponent(u, parts[n]);
      ComponentsMeaning(u, parts[..n], cs[..n]);
      ComponentMeaning(u, parts[n], cs[n]);
      if init.Ok? && last.Ok? {
        SnocEquals(init.value, last.value, cs);
      }
    }
  }

  /** The `i`-th part is the first that denotes nothing, and it is unreadable. */
  ghost predicate FirstUnreadable(u: Unicode, parts: seq<string>, i: nat) {
    && i < |parts| && Unreadable(u, parts[i])
    && forall j :: 0 <= j < i ==> HasMeaning(u, parts[j])
  }

  lemma PartMeaning(u: Unicode, part: string)
    requires ValidUnicode(u)
    ensures ParseComponent(u, part).Ok? <==> HasMeaning(u, part)
    ensures ParseComponent(u, part) == Err(ValueError) <==> Unreadable(u, part)
    ensures ParseComponent(u, part).Err? ==>
      ParseComponent(u, part).error in {ValueError, InvalidDerivationPathError}
  {
    ComponentMeaning(u, part, if ParseComponent(u, part).Ok? then ParseComponent(u, part).value else (0, false));
    forall c: Component | Denotes(u, part, c)
      ensures ParseComponent(u, part).Ok?
    {
      ComponentMeaning(u, part, c);
    }
  }

  lemma MeaningIsReadable(u: Unicode, part: string)
    requires ValidUnicode(u) && HasMeaning(u, part)
    ensures !Unreadable(u, part)
  {
    PartMeaning(u, part);
  }

  /** The first unreadable part lies in the prefix, or the prefix has meaning and it is the last. */
  lemma FirstInPrefix(u: Unicode, init: seq<string>, last: string)
    requires ValidUnicode(u)
    ensures (exists i: nat :: FirstUnreadable(u, init + [last], i)) <==>
      || (exists i: nat :: FirstUnreadable(u, init, i))
      || (AllMeaning(u, init) && Unreadable(u, last))
  {
    var n, parts := |init|, init + [last];
    forall i: nat | i < n
      ensures FirstUnreadable(u, parts, i) <==> FirstUnreadable(u, init, i)
    {
      assert parts[i] == init[i];
      assert forall j :: 0 <= j < i ==> parts[j] == init[j];
    }
    assert FirstUnreadable(u, parts, n) <==> AllMeaning(u, init) && Unreadable(u, last) by {
      assert parts[n] == last && forall j :: 0 <= j < n ==> parts[j] == init[j];
    }
  }

  ghost predicate AllMeaning(u: Unicode, parts: seq<string>) {
    forall i :: 0 <= i < |parts| ==> HasMeaning(u, parts[i])
  }

  lemma NoneUnreadable(u: Unicode, parts: seq<string>)
    requires ValidUnicode(u) && AllMeaning(u, parts)
    ensures forall i: nat :: !FirstUnreadable(u, parts, i)
  {
    forall i: nat | i < |parts|
      ensures !FirstUnreadable(u, parts, i)
    {
      MeaningIsReadable(u, parts[i]);
    }
  }

  lemma {:induction false} ComponentsFailure(u: Unicode, parts: seq<string>)
    requires ValidUnicode(u)
    ensures ParseComponents(u, parts).Ok? <==> AllMeaning(u, parts)
    ensures ParseComponents(u, parts) == Err(ValueError) <==> exists i: nat :: FirstUnreadable(u, parts, i)
    ensures ParseComponents(u, parts).Err? ==>
      ParseComponents(u, parts).error in {ValueError, InvalidDerivationPathError}
    decreases |parts|
  {
    if parts != [] {
      var n := |parts| - 1;
      var init, last := parts[..n], parts[n];
      assert parts == init + [last];
      ComponentsFailure(u, init);
      PartMeaning(u, last);
      FirstInPrefix(u, init, last);
      assert AllMeaning(u, parts) <==> AllMeaning(u, init) && HasMeaning(u, last) by {
        assert forall j :: 0 <= j < n ==> parts[j] == init[j];
      }
      if AllMeaning(u, init) {
        NoneUnreadable(u, init);
      }
    }
  }

  lemma DenotingText(u: Unicode, part: string, c: Component)
    requires ValidUnicode(u) && Denotes(u, part, c)
    ensures part != "" && !IsSpace(part[|part| - 1]) && '/' !in part
  {
    var n: nat :| DenotesAt(u, part, c, n);
    forall i | 0 <= i < |part|
      ensures !IsSpace(part[i]) && part[i] != '/'
    {
      if i < n {
        assert u.decimal(part[..n][i]).Some?;
      }
    }
  }

  lemma JoinedComponents(u: Unicode, t: string, parts: seq<string>, cs: seq<Component>)
    requires ValidUnicode(u)
    requires |parts| == |cs| > 0 && t == "m/" + Join(parts, '/')
    requires forall i :: 0 <= i < |cs| ==> Denotes(u, parts[i], cs[i])
    ensures ParseComponents(u, SplitOn(t[2..], '/')) == Ok(cs)
  {
    forall i | 0 <= i < |parts|
      ensures '/' !in parts[i]
    {
      DenotingText(u, parts[i], cs[i]);
    }
    SplitOnJoin(parts, '/');
    assert t[2..] == Join(parts, '/');
    ComponentsMeaning(u, parts, cs);
  }

  lemma SplitComponents(u: Unicode, t: string, cs: seq<Component>)
    requires ValidUnicode(u)
    requires "m/" <= t && ParseComponents(u, SplitOn(t[2..], '/')) == Ok(cs)
    ensures var parts := SplitOn(t[2..], '/');
      && |parts| == |cs| > 0 && t == "m/" + Join(parts, '/')
      && forall i :: 0 <= i < |cs| ==> Denotes(u, parts[i], cs[i])
  {
    ComponentsMeaning(u, SplitOn(t[2..], '/'), cs);
    JoinSplitOn(t[2..], '/');
  }

  /** `t` is `m/` and slash-separated components denoting `cs`. */
  ghost predicate DenotesPath(u: Unicode, t: string, cs: seq<Component>) {
    exists parts: seq<string> ::
      && |parts| == |cs| > 0 && t == "m/" + Join(parts, '/')
      && forall i :: 0 <= i < |cs| ==> Denotes(u, parts[i], cs[i])
  }

  /** `parse` accepts, after trimming, exactly the empty string, `m`, and `m/` followed by
      slash-separated components, and returns what they denote. */
  lemma ParseMeaning(u: Unicode, s: string, cs: seq<Component>)
    requires ValidUnicode(u)
    ensures ParsePath(u, s) == Ok(cs) <==>
      (Strip(s) in {"", "m"} && cs == []) || DenotesPath(u, Strip(s), cs)
  {
    var t := Strip(s);
    if t != "" && t != "m" && "m/" <= t {
      ComponentsMeaning(u, SplitOn(t[2..], '/'), cs);
      if ParsePath(u, s) == Ok(cs) {
        SplitComponents(u, t, cs);
      }
    }
    if DenotesPath(u, t, cs) {
      var parts: seq<string> :| |parts| == |cs| > 0 && t == "m/" + Join(parts, '/')
        && forall i :: 0 <= i < |cs| ==> Denotes(u, parts[i], cs[i]);
      JoinedComponents(u, t, parts, cs);
    }
  }

  /** The first component of `t` that denotes nothing is unreadable. */
  ghost predicate UnreadablePath(u: Unicode, t: string) {
    "m/" <= t && exists i: nat :: FirstUnreadable(u, SplitOn(t[2..], '/'), i)
  }

  /** `parse` raises InvalidDerivationPathError on everything else, except that a ValueError
      escapes exactly when the first component that denotes nothing is unreadable. */
  lemma ParseFailure(u: Unicode, s: string)
    requires ValidUnicode(u)
    ensures ParsePath(u, s).Err? ==> ParsePath(u, s).error in {ValueError, InvalidDerivationPathError}
    ensures ParsePath(u, s) == Err(ValueError) <==> UnreadablePath(u, Strip(s))
  {
    var t := Strip(s);
    if "m/" <= t {
      assert |t| >= 2 && t != "" && t != "m";
      assert ParsePath(u, s) == ParseComponents(u, SplitOn(t[2..], '/'));
      ComponentsFailure(u, SplitOn(t[2..], '/'));
    }
  }

  lemma LonePart(u: Unicode, part: string)
    requires ValidUnicode(u) && part != "" && AllDigits(u, part)
    ensures SplitOn(part, '/') == [part] && Strip("m/" + part) == "m/" + part
  {
    var t := "m/" + part;
    assert forall i :: 0 <= i < |part| ==> part[i] != '/';
    SplitOnJoin([part], '/');
    assert u.isDigit(part[|part| - 1]) && t[|t| - 1] == part[|part| - 1];
    StripPadding("", t, "");
    assert "" + t + "" == t;
  }

  lemma LoneUnreadableAt(u: Unicode, part: string)
    requires part != "" && AllDigits(u, part) && !Readable(u, part)
    ensures FirstUnreadable(u, [part], 0)
  {
    assert part[..|part|] == part;
    assert UnreadableAt(u, part, |part|);
  }

  /** One unreadable component makes the whole path raise ValueError. */
  lemma LoneUnreadable(u: Unicode, part: string)
    requires ValidUnicode(u) && part != "" && AllDigits(u, part) && !Readable(u, part)
    ensures ParsePath(u, "m/" + part) == Err(ValueError)
  {
    LonePart(u, part);
    LoneUnreadableAt(u, part);
    assert ("m/" + part)[2..] == part;
    ParseFailure(u, "m/" + part);
  }

  /** For example a lone superscript two, which `isdigit` accepts and `int` refuses ... */
  lemma SuperscriptRaises(u: Unicode)
    requires ValidUnicode(u) && u.isDigit('\U{B2}') && u.decimal('\U{B2}').None?
    ensures ParsePath(u, "m/" + ['\U{B2}']) == Err(ValueError)
  {
    var part := ['\U{B2}'];
    assert u.decimal(part[0]).None?;
    LoneUnreadable(u, part);
  }

  /** ... or more decimal digits than `int` reads, be they all zeros. */
  lemma LongDigitsRaise(u: Unicode, part: string)
    requires ValidUnicode(u) && AllDecimal(u, part) && 0 < u.maxDigits < |part|
    ensures ParsePath(u, "m/" + part) == Err(ValueError)
  {
    LoneUnreadable(u, part);
  }

  // ---- printing ----------------------------------------------------------------------

  function DigitChar(d: nat): char
    requires d < 10
  {
    (d + '0' as int) as char
  }

  function Decimal(n: nat): (s: string)
    ensures s != "" && forall i :: 0 <= i < |s| ==> '0' <= s[i] <= '9'
  {
    if n == 0 then "0"
    else
      var ds := Minimal(10, n);
      seq(|ds|, i requires 0 <= i < |ds| => DigitChar(ds[i]))
  }

  function PrintComponent(c: Component, marker: char): string
    requires c.0 >= 0
  {
    Decimal(c.0) + if c.1 then [marker] else ""
  }

  function PrintComponents(cs: seq<Component>, markers: seq<char>): (parts: seq<string>)
    requires |markers| == |cs| && forall i :: 0 <= i < |cs| ==> cs[i].0 >= 0
    ensures |parts| == |cs|
    ensures forall i :: 0 <= i < |cs| ==> parts[i] == PrintComponent(cs[i], markers[i])
  {
    seq(|cs|, i requires 0 <= i < |cs| => PrintComponent(cs[i], markers[i]))
  }

  /** The usual text of a path, with a marker of its own for each component. */
  function Print(cs: seq<Component>, markers: seq<char>): string
    requires |markers| == |cs| && forall i :: 0 <= i < |cs| ==> cs[i].0 >= 0
  {
    if cs == [] then "m"
    else "m/" + Join(PrintComponents(cs, markers), '/')
  }

  lemma DecimalDigits(n: nat) returns (digits: seq<nat>)
    ensures |digits| == |Decimal(n)| && Value(10, digits) == n
    ensures forall i :: 0 <= i < |digits| ==> digits[i] < 10 && Decimal(n)[i] == DigitChar(digits[i])
  {
    if n == 0 {
      digits := Zeros(1);
      ValueOfZeros(10, 1);
    } else {
      digits := Minimal(10, n);
      ValueOfMinimal(10, n);
    }
  }

  lemma ParseDecimal(u: Unicode, n: nat)
    requires ValidUnicode(u)
    ensures AllDecimal(u, Decimal(n)) && Number(u, Decimal(n)) == n
  {
    var digits := DecimalDigits(n);
    NumberDigits(u, Decimal(n), digits);
  }

  lemma DecimalLength(n: nat)
    requires n <= 0x7FFF_FFFF
    ensures |Decimal(n)| <= 10
  {
    assert Pow(10, 10) == 10_000_000_000;
    MinimalLength(10, n, 10);
  }

  lemma PrintedComponent(u: Unicode, c: Component, marker: char)
    requires ValidUnicode(u) && 0 <= c.0 <= 0x7FFF_FFFF && marker in {'\'', 'h'}
    ensures Denotes(u, PrintComponent(c, marker), c)
  {
    var text, n := PrintComponent(c, marker), |Decimal(c.0)|;
    assert text[..n] == Decimal(c.0);
    ParseDecimal(u, c.0);
    DecimalLength(c.0);
    assert DenotesAt(u, text, c, n);
  }

  /** Joined components denote their path, and their text ends in no whitespace. */
  lemma JoinedPath(u: Unicode, parts: seq<string>, cs: seq<Component>)
    requires ValidUnicode(u)
    requires |parts| == |cs| > 0 && forall i :: 0 <= i < |cs| ==> Denotes(u, parts[i], cs[i])
    ensures var text := "m/" + Join(parts, '/');
      DenotesPath(u, text, cs) && !IsSpace(text[|text| - 1])
  {
    DenotingText(u, parts[|parts| - 1], cs[|cs| - 1]);
    JoinEnd(parts, '/');
  }

  lemma PrintedComponents(u: Unicode, cs: seq<Component>, markers: seq<char>)
    requires ValidUnicode(u)
    requires |markers| == |cs| && forall i :: 0 <= i < |markers| ==> markers[i] in {'\'', 'h'}
    requires forall i :: 0 <= i < |cs| ==> 0 <= cs[i].0 <= 0x7FFF_FFFF
    ensures forall i :: 0 <= i < |cs| ==> Denotes(u, PrintComponents(cs, markers)[i], cs[i])
  {
    forall i | 0 <= i < |cs|
      ensures Denotes(u, PrintComponents(cs, markers)[i], cs[i])
    {
      PrintedComponent(u, cs[i], markers[i]);
    }
  }

  /** Parsing the text of a path gives the path back, for any mix of markers and any
      surrounding whitespace. */
  lemma PrintParse(u: Unicode, cs: seq<Component>, markers: seq<char>, before: string, after: string)
    requires ValidUnicode(u)
    requires |markers| == |cs| && forall i :: 0 <= i < |markers| ==> markers[i] in {'\'', 'h'}
    requires forall i :: 0 <= i < |cs| ==> 0 <= cs[i].0 <= 0x7FFF_FFFF
    requires AllSpace(before) && AllSpace(after)
    ensures ParsePath(u, before + Print(cs, markers) + after) == Ok(cs)
  {
    if cs != [] {
      PrintedComponents(u, cs, markers);
      JoinedPath(u, PrintComponents(cs, markers), cs);
    }
    StripPadding(before, Print(cs, markers), after);
    ParseMeaning(u, before + Print(cs, markers) + after, cs);
  }
}
