/**
 The parts of Go's `strings` and `strconv` that the repository's text formats rest on. A string is a
 sequence of Unicode scalar values.
 */
module Text {
  import opened Wrappers

  // ------------------------------------------------------------- white space

  /** `unicode.IsSpace` */
  predicate IsSpace(c: char) {
    || '\t' <= c <= '\r' || c == ' '
    || c == '\U{0085}' || c == '\U{00A0}' || c == '\U{1680}' || '\U{2000}' <= c <= '\U{200A}'
    || c == '\U{2028}' || c == '\U{2029}' || c == '\U{202F}' || c == '\U{205F}' || c == '\U{3000}'
  }

  function TrimLeft(s: string): string {
    if s != "" && IsSpace(s[0]) then TrimLeft(s[1..]) else s
  }

  function TrimRight(s: string): string {
    if s != "" && IsSpace(s[|s| - 1]) then TrimRight(s[..|s| - 1]) else s
  }

  /** `strings.TrimSpace` */
  function TrimSpace(s: string): string {
    TrimRight(TrimLeft(s))
  }

  /** Neither starts nor ends with white space. */
  predicate Trimmed(s: string) {
    s == "" || (!IsSpace(s[0]) && !IsSpace(s[|s| - 1]))
  }

  lemma {:induction false} TrimLeftStart(s: string)
    ensures TrimLeft(s) == "" || !IsSpace(TrimLeft(s)[0])
  {
    if s != "" && IsSpace(s[0]) { TrimLeftStart(s[1..]); }
  }

  lemma {:induction false} TrimRightEnd(s: string)
    ensures TrimRight(s) <= s
    ensures TrimRight(s) == "" || !IsSpace(TrimRight(s)[|TrimRight(s)| - 1])
  {
    if s != "" && IsSpace(s[|s| - 1]) { TrimRightEnd(s[..|s| - 1]); }
  }

  /** What has been trimmed is trimmed, and trimming it again changes nothing. */
  lemma TrimSpaceIsTrimmed(s: string)
    ensures Trimmed(TrimSpace(s))
  {
    TrimLeftStart(s);
    TrimRightEnd(TrimLeft(s));
  }

  lemma TrimmedStays(s: string)
    requires Trimmed(s)
    ensures TrimSpace(s) == s
  {
  }

  // ------------------------------------------------------------- splitting

  /** The index of the first `c`, or the length of `s`. */
  function IndexOf(s: string, c: char): (i: nat)
    ensures i <= |s| && c !in s[..i]
    ensures i < |s| ==> s[i] == c
  {
    if s == "" || s[0] == c then 0
    else
      var i := 1 + IndexOf(s[1..], c);
      assert s[..i] == [s[0]] + s[1..][..i - 1];
      i
  }

  lemma {:induction false} FirstIndex(s: string, c: char, n: nat)
    requires n <= |s| && (n < |s| ==> s[n] == c)
    requires forall k :: 0 <= k < n ==> s[k] != c
    ensures IndexOf(s, c) == n
  {
    if n > 0 {
      FirstIndex(s[1..], c, n - 1);
    }
  }

  /** `strings.Cut` around the first `sep`. */
  function Cut(s: string, sep: char): (string, string, bool) {
    var i := IndexOf(s, sep);
    if i < |s| then (s[..i], s[i + 1..], true) else (s, "", false)
  }

  lemma CutAtSeparator(a: string, sep: char, b: string)
    requires sep !in a
    ensures Cut(a + [sep] + b, sep) == (a, b, true)
  {
    var s := a + [sep] + b;
    assert s[|a|] == sep && forall k :: 0 <= k < |a| ==> s[k] == a[k] && a[k] in a;
    FirstIndex(s, sep, |a|);
    assert s[..|a|] == a && s[|a| + 1..] == b;
  }

  lemma CutWithoutSeparator(a: string, sep: char)
    requires sep !in a
    ensures Cut(a, sep) == (a, "", false)
  {
    assert forall k :: 0 <= k < |a| ==> a[k] in a;
    FirstIndex(a, sep, |a|);
  }

  /** `strings.Split` */
  function Split(s: string, sep: char): (parts: seq<string>)
    ensures parts != []
  {
    var (before, after, found) := Cut(s, sep);
    if found then [before] + Split(after, sep) else [s]
  }

  /** The pieces with `sep` between them. */
  function Join(parts: seq<string>, sep: char): string
    requires parts != []
  {
    if |parts| == 1 then parts[0] else parts[0] + [sep] + Join(parts[1..], sep)
  }

  lemma {:induction false} SplitOfJoin(parts: seq<string>, sep: char)
    requires parts != [] && forall i :: 0 <= i < |parts| ==> sep !in parts[i]
    ensures Split(Join(parts, sep), sep) == parts
  {
    if |parts| == 1 {
      CutWithoutSeparator(parts[0], sep);
    } else {
      CutAtSeparator(parts[0], sep, Join(parts[1..], sep));
      SplitOfJoin(parts[1..], sep);
    }
  }

  /** The index of the first white space, or the length of `s`. */
  function WordEnd(s: string): (i: nat)
    ensures i <= |s|
    ensures s != "" && !IsSpace(s[0]) ==> i > 0
  {
    if s == "" || IsSpace(s[0]) then 0 else 1 + WordEnd(s[1..])
  }

  /** `strings.Fields` */
  function Fields(s: string): seq<string>
    decreases |s|
  {
    if s == "" then []
    else if IsSpace(s[0]) then Fields(s[1..])
    else [s[..WordEnd(s)]] + Fields(s[WordEnd(s)..])
  }

  predicate IsWord(s: string) {
    s != "" && forall i :: 0 <= i < |s| ==> !IsSpace(s[i])
  }

  lemma {:induction false} WordEndAtSpace(w: string, rest: string)
    requires forall i :: 0 <= i < |w| ==> !IsSpace(w[i])
    requires rest == "" || IsSpace(rest[0])
    ensures WordEnd(w + rest) == |w|
  {
    if w == "" {
      assert w + rest == rest;
    } else {
      assert (w + rest)[1..] == w[1..] + rest;
      WordEndAtSpace(w[1..], rest);
    }
  }

  lemma {:induction false} FieldsOfJoin(words: seq<string>)
    requires words != [] && forall i :: 0 <= i < |words| ==> IsWord(words[i])
    ensures Fields(Join(words, ' ')) == words
  {
    var w, s := words[0], Join(words, ' ');
    if |words| == 1 {
      WordEndAtSpace(w, "");
      assert w + "" == w && s[..|w|] == w && s[|w|..] == "";
      assert words == [w];
    } else {
      var tail := Join(words[1..], ' ');
      assert s == w + ([' '] + tail) && IsSpace(' ');
      WordEndAtSpace(w, [' '] + tail);
      assert s[..|w|] == w && s[|w|..] == [' '] + tail;
      assert ([' '] + tail)[1..] == tail;
      FieldsOfJoin(words[1..]);
    }
  }

  // ------------------------------------------------- spacing does not matter

  /** The white space of Unicode, by code point. */
  predicate IsGap(g: string) {
    forall i :: 0 <= i < |g| ==>
      var c := g[i] as int;
      9 <= c <= 13 || c == 32 || c == 0x85 || c == 0xA0 || c == 0x1680 || 0x2000 <= c <= 0x200A
      || c == 0x2028 || c == 0x2029 || c == 0x202F || c == 0x205F || c == 0x3000
  }

  lemma GapIsSpace(g: string)
    ensures IsGap(g) <==> forall i :: 0 <= i < |g| ==> IsSpace(g[i])
  {
  }

  /** The words with one gap after each. */
  function Spread(words: seq<string>, gaps: seq<string>): string
    requires |words| == |gaps|
  {
    if words == [] then "" else words[0] + gaps[0] + Spread(words[1..], gaps[1..])
  }

  lemma {:induction false} FieldsSkipGap(g: string, s: string)
    requires IsGap(g)
    ensures Fields(g + s) == Fields(s)
    decreases |g|
  {
    GapIsSpace(g);
    hide IsSpace;
    if g == "" {
      assert g + s == s;
    } else {
      assert (g + s)[1..] == g[1..] + s;
      FieldsSkipGap(g[1..], s);
    }
  }

  lemma FieldsOfWord(w: string, rest: string)
    requires IsWord(w) && (rest == "" || IsSpace(rest[0]))
    ensures Fields(w + rest) == [w] + Fields(rest)
  {
    hide IsSpace;
    WordEndAtSpace(w, rest);
    assert (w + rest)[0] == w[0] && (w + rest)[..|w|] == w && (w + rest)[|w|..] == rest;
  }

  /** However words are spaced, only the last gap being possibly empty, `Fields` finds exactly them. */
  lemma {:induction false} FieldsOfSpread(words: seq<string>, gaps: seq<string>)
    requires |words| == |gaps| && forall i :: 0 <= i < |words| ==> IsWord(words[i]) && IsGap(gaps[i])
    requires forall i :: 0 <= i < |gaps| - 1 ==> gaps[i] != ""
    ensures Fields(Spread(words, gaps)) == words
    decreases |words|
  {
    hide IsWord, IsSpace, IsGap, Fields;
    if words == [] {
      assert Fields("") == [] by { NoFields(); }
    } else {
      var rest := Spread(words[1..], gaps[1..]);
      FieldsOfSpread(words[1..], gaps[1..]);
      FieldsSkipGap(gaps[0], rest);
      GapThenRest(gaps[0], rest, words);
      FieldsOfWord(words[0], gaps[0] + rest);
      assert words[0] + gaps[0] + rest == words[0] + (gaps[0] + rest);
    }
  }

  lemma NoFields()
    ensures Fields("") == []
  {
  }

  lemma GapThenRest(g: string, rest: string, words: seq<string>)
    requires IsGap(g) && (g != "" || (|words| == 1 && rest == ""))
    ensures g + rest == "" || IsSpace((g + rest)[0])
  {
    GapIsSpace(g);
    hide IsSpace;
  }

  /** White space around a text that has none at its ends is trimmed away. */
  lemma TrimSpaceOf(lead: string, s: string, trail: string)
    requires IsGap(lead) && IsGap(trail) && Trimmed(s) && s != ""
    ensures TrimSpace(lead + s + trail) == s
  {
    GapIsSpace(lead);
    GapIsSpace(trail);
    hide IsSpace;
    TrimLeftOf(lead, s + trail);
    assert lead + s + trail == lead + (s + trail);
    TrimRightOf(s, trail);
  }

  lemma {:induction false} TrimLeftOf(lead: string, s: string)
    requires (forall i :: 0 <= i < |lead| ==> IsSpace(lead[i])) && s != "" && !IsSpace(s[0])
    ensures TrimLeft(lead + s) == s
  {
    hide IsSpace;
    if lead == "" {
      assert lead + s == s;
    } else {
      assert (lead + s)[1..] == lead[1..] + s;
      TrimLeftOf(lead[1..], s);
    }
  }

  lemma {:induction false} TrimRightOf(s: string, trail: string)
    requires (forall i :: 0 <= i < |trail| ==> IsSpace(trail[i])) && s != "" && !IsSpace(s[|s| - 1])
    ensures TrimRight(s + trail) == s
  {
    hide IsSpace;
    if trail == "" {
      assert s + trail == s;
    } else {
      var n := |trail| - 1;
      assert (s + trail)[..|s| + n] == s + trail[..n];
      TrimRightOf(s, trail[..n]);
    }
  }

  // ------------------------------------------------------------- numbers

  predicate IsDigit(c: char) {
    '0' <= c <= '9'
  }

  predicate AllDigits(s: string) {
    forall i :: 0 <= i < |s| ==> IsDigit(s[i])
  }

  function DigitChar(d: nat): (c: char)
    requires d < 10
    ensures IsDigit(c)
  {
    ('0' as int + d) as char
  }

  /** Decimal notation without leading zeros. */
  function Digits(n: nat): (s: string)
    ensures s != "" && AllDigits(s)
  {
    if n < 10 then [DigitChar(n)] else Digits(n / 10) + [DigitChar(n % 10)]
  }

  function Value(s: string): nat
    requires AllDigits(s)
  {
    if s == "" then 0 else 10 * Value(s[..|s| - 1]) + (s[|s| - 1] as int - '0' as int)
  }

  lemma {:induction false} ValueOfDigits(n: nat)
    ensures Value(Digits(n)) == n
  {
    if n < 10 {
      assert Digits(n)[..0] == "";
    } else {
      assert Digits(n)[..|Digits(n)| - 1] == Digits(n / 10);
      ValueOfDigits(n / 10);
    }
  }

  lemma DigitsInjective(m: nat, n: nat)
    requires Digits(m) == Digits(n)
    ensures m == n
  {
    ValueOfDigits(m);
    ValueOfDigits(n);
  }

  const MAX_INT: int := 0x7FFF_FFFF_FFFF_FFFF
  const MIN_INT: int := -0x8000_0000_0000_0000

  /** `strconv.Atoi` on a 64-bit platform: an optional sign, digits, and a value that fits. */
  function Atoi(s: string): (r: Option<int>)
    ensures r.Some? ==> MIN_INT <= r.value <= MAX_INT
  {
    if s == "" then None
    else
      var body := if s[0] == '+' || s[0] == '-' then s[1..] else s;
      if body == "" || !AllDigits(body) then None
      else
        var v := if s[0] == '-' then -(Value(body) as int) else Value(body);
        if MIN_INT <= v <= MAX_INT then Some(v) else None
  }

  /** Numbers are read with or without a sign, as far as they fit 64 bits, and nothing else is. */
  lemma AtoiOfNumber(n: nat)
    ensures Atoi(Digits(n)) == if n < 0x8000_0000_0000_0000 then Some(n) else None
    ensures Atoi("+" + Digits(n)) == if n < 0x8000_0000_0000_0000 then Some(n) else None
    ensures Atoi("-" + Digits(n)) == if n <= 0x8000_0000_0000_0000 then Some(-(n as int)) else None
  {
    ValueOfDigits(n);
    assert IsDigit(Digits(n)[0]);
    assert ("+" + Digits(n))[1..] == Digits(n) && ("-" + Digits(n))[1..] == Digits(n);
    hide Digits, Value;
  }

  lemma AtoiOfOther(s: string, i: nat)
    requires i < |s| && !IsDigit(s[i]) && (i > 0 || (s[i] != '+' && s[i] != '-') || |s| == 1)
    ensures Atoi(s) == None
  {
    hide Value;
    if i > 0 { assert s[1..][i - 1] == s[i]; }
  }

  lemma AtoiOfDigits(n: nat)
    requires n <= MAX_INT
    ensures Atoi(Digits(n)) == Some(n)
  {
    ValueOfDigits(n);
    assert IsDigit(Digits(n)[0]);
  }
}
