/**
 `ParseCron` and its helpers, step by step as the scheduler runs them, proved against the language of
 `CronSyntax`; and what parsed expressions then match and find.
 */
module Cron {
  import opened Bitset
  import opened Calendar
  import opened CronSyntax
  import opened CronTime
  import opened Text
  import opened Wrappers

  const FIELD_COUNT: nat := 5

  /** The least value of each field: minute, hour, day of month, month, day of week. */
  function FieldLow(i: nat): nat {
    if i == 2 || i == 3 then 1 else 0
  }

  function FieldHigh(i: nat): (h: nat)
    ensures FieldLow(i) < h < 64
  {
    if i == 0 then 59 else if i == 1 then 23 else if i == 2 then 31 else if i == 3 then 12 else 6
  }

  datatype CronError =
    | EmptyExpr
    | WrongFieldCount(count: nat)
    | BadField(index: nat, error: FieldError)

  // ------------------------------------------------------- the specification

  function Expand(expr: string): string {
    if expr == "@yearly" || expr == "@annually" then "0 0 1 1 *"
    else if expr == "@monthly" then "0 0 1 * *"
    else if expr == "@weekly" then "0 0 * * 0"
    else if expr == "@daily" || expr == "@midnight" then "0 0 * * *"
    else if expr == "@hourly" then "0 * * * *"
    else expr
  }

  /** The fields from index `i` on, stopping at the first that is malformed. */
  function ReadFields(fields: seq<string>, i: nat): Result<seq<seq<Part>>, CronError>
    requires i <= |fields|
    decreases |fields| - i
  {
    if i == |fields| then Ok([])
    else
      match ReadField(fields[i], FieldLow(i), FieldHigh(i))
      case Err(e) => Err(BadField(i, e))
      case Ok(ps) =>
        match ReadFields(fields, i + 1)
        case Err(e) => Err(e)
        case Ok(rest) => Ok([ps] + rest)
  }

  /** The parts of an expression's five fields, or why it is refused. */
  function ReadCron(expr: string): Result<seq<seq<Part>>, CronError> {
    var text := TrimSpace(expr);
    if text == "" then Err(EmptyExpr)
    else
      var fields := Fields(Expand(text));
      if |fields| != FIELD_COUNT then Err(WrongFieldCount(|fields|)) else ReadFields(fields, 0)
  }

  function FieldBits(c: CronExpr, i: nat): bv64 {
    if i == 0 then c.minute
    else if i == 1 then c.hour
    else if i == 2 then c.dayMonth
    else if i == 3 then c.month
    else c.dayWeek
  }

  /** Five fields, each with at least one part, and every value in its range. */
  predicate WellFormed(fs: seq<seq<Part>>) {
    |fs| == FIELD_COUNT && forall i :: 0 <= i < FIELD_COUNT ==> fs[i] != [] && ValidParts(fs[i], FieldLow(i), FieldHigh(i))
  }

  /** The bitsets hold what the parts set. */
  predicate Holds(c: CronExpr, fs: seq<seq<Part>>)
    requires WellFormed(fs)
  {
    forall i :: 0 <= i < FIELD_COUNT ==> Members(FieldBits(c, i)) == AllBits(fs[i], FieldLow(i), FieldHigh(i))
  }

  /** `r` is the outcome of `ParseCron(expr)`. */
  predicate Parses(expr: string, r: Result<CronExpr, CronError>) {
    match ReadCron(expr)
    case Err(e) => r == Err(e)
    case Ok(fs) =>
      ReadCronIsWellFormed(expr);
      r.Ok? && r.value.raw == Expand(TrimSpace(expr)) && Holds(r.value, fs)
  }

  lemma {:induction false} ReadFieldsAreValid(fields: seq<string>, i: nat)
    requires i <= |fields| && ReadFields(fields, i).Ok?
    ensures var fs := ReadFields(fields, i).value;
            && |fs| == |fields| - i
            && forall k :: 0 <= k < |fs| ==> fs[k] != [] && ValidParts(fs[k], FieldLow(i + k), FieldHigh(i + k))
    decreases |fields| - i
  {
    hide ReadPart, ValidPart, FieldLow, FieldHigh;
    if i < |fields| {
      ReadPartsAreValid(Split(fields[i], ','), FieldLow(i), FieldHigh(i));
      ReadFieldsAreValid(fields, i + 1);
      var fs, rest := ReadFields(fields, i).value, ReadFields(fields, i + 1).value;
      forall k | 0 <= k < |fs|
        ensures fs[k] != [] && ValidParts(fs[k], FieldLow(i + k), FieldHigh(i + k))
      {
        if k > 0 {
          assert fs[k] == rest[k - 1] && i + k == (i + 1) + (k - 1);
        }
      }
    }
  }

  lemma ReadCronIsWellFormed(expr: string)
    ensures ReadCron(expr).Ok? ==> WellFormed(ReadCron(expr).value)
  {
    hide FieldLow, FieldHigh, ValidParts, ReadFields;
    if ReadCron(expr).Ok? {
      ReadFieldsAreValid(Fields(Expand(TrimSpace(expr))), 0);
      assert forall k: nat :: FieldLow(0 + k) == FieldLow(k) && FieldHigh(0 + k) == FieldHigh(k);
    }
  }

  // -------------------------------------------------------------- the parser

  method ParseWildcard(lo: nat, hi: nat, step: int) returns (bits: bv64)
    requires hi < 64 && lo <= hi && 1 <= step <= MAX_INT
    ensures Members(bits) == LoopBits(lo, hi, step)
  {
    hide SetBit, Members;
    bits := 0;
    NoMembers();
    var v: int := lo;
    while v <= hi
      invariant MIN_INT <= v <= MAX_INT
      invariant Members(bits) + LoopBits(v, hi, step) == LoopBits(lo, hi, step)
      decreases LoopRank(v, hi, step)
    {
      MembersOfSetBit(bits, SafeUint(v));
      bits := SetBit(bits, SafeUint(v));
      v := WrapAdd(v, step);
    }
  }

  method ParseRange(startStr: string, endStr: string, lo: nat, hi: nat, step: int)
    returns (r: Result<bv64, FieldError>)
    requires lo <= hi < 64 && 1 <= step <= MAX_INT
    ensures var read := ReadRange(startStr, endStr, lo, hi, By(step));
            if read.Err? then r == Err(read.error)
            else r.Ok? && Members(r.value) == BitsOf(read.value, lo, hi)
  {
    hide SetBit, Members, Atoi;
    var start := Atoi(startStr);
    if start.None? { return Err(InvalidRangeStart(startStr)); }
    var end := Atoi(endStr);
    if end.None? { return Err(InvalidRangeEnd(endStr)); }
    if start.value < lo || end.value > hi || start.value > end.value {
      return Err(RangeOutside(start.value, end.value));
    }
    var bits: bv64 := 0;
    NoMembers();
    var v := start.value;
    while v <= end.value
      invariant MIN_INT <= v <= MAX_INT
      invariant Members(bits) + LoopBits(v, end.value, step) == LoopBits(start.value, end.value, step)
      decreases LoopRank(v, end.value, step)
    {
      MembersOfSetBit(bits, SafeUint(v));
      bits := SetBit(bits, SafeUint(v));
      v := WrapAdd(v, step);
    }
    r := Ok(bits);
  }

  method ParseSingle(valStr: string, lo: nat, hi: nat) returns (r: Result<bv64, FieldError>)
    requires lo <= hi < 64
    ensures var read := ReadOne(valStr, lo, hi, EachOne);
            if read.Err? then r == Err(read.error)
            else r.Ok? && Members(r.value) == {read.value.value}
  {
    hide SetBit, Members, Atoi;
    var val := Atoi(valStr);
    if val.None? { return Err(InvalidValue(valStr)); }
    if val.value < lo || val.value > hi { return Err(ValueOutside(val.value)); }
    NoMembers();
    MembersOfSetBit(0, SafeUint(val.value));
    r := Ok(SetBit(0, SafeUint(val.value)));
  }

  method ParsePart(part: string, lo: nat, hi: nat) returns (r: Result<bv64, FieldError>)
    requires lo <= hi < 64
    ensures var read := ReadPart(part, lo, hi);
            if read.Err? then r == Err(read.error)
            else r.Ok? && ValidPart(read.value, lo, hi) && Members(r.value) == BitsOf(read.value, lo, hi)
  {
    ReadPartIsValid(part, lo, hi);
    hide Members, Atoi, Cut;
    var (rangeStr, stepStr, hasStep) := Cut(part, '/');
    var step := 1;
    if hasStep {
      var s := Atoi(stepStr);
      if s.None? || s.value <= 0 { return Err(InvalidStep(stepStr)); }
      step := s.value;
      AtoiFits(stepStr);
    }
    if rangeStr == "*" {
      var bits := ParseWildcard(lo, hi, step);
      return Ok(bits);
    }
    var (startStr, endStr, isRange) := Cut(rangeStr, '-');
    if isRange {
      r := ParseRange(startStr, endStr, lo, hi, step);
    } else {
      r := ParseSingle(rangeStr, lo, hi);
    }
  }

  lemma AtoiFits(s: string)
    ensures Atoi(s).Some? ==> Atoi(s).value <= MAX_INT
  {
  }

  method ParseField(field: string, lo: nat, hi: nat) returns (r: Result<bv64, FieldError>)
    requires lo <= hi < 64
    ensures var read := ReadField(field, lo, hi);
            if read.Err? then r == Err(read.error)
            else
              && r.Ok? && read.value != [] && ValidParts(read.value, lo, hi)
              && Members(r.value) == AllBits(read.value, lo, hi)
  {
    hide Members, ReadPart, ValidPart, BitsOf, Split, Or;
    var bits: bv64 := 0;
    NoMembers();
    var parts := Split(field, ',');
    ghost var done: seq<Part> := [];
    PrependNothing(ReadParts(parts, lo, hi));
    assert parts[0..] == parts;
    for i := 0 to |parts|
      invariant |done| == i && ValidParts(done, lo, hi)
      invariant Members(bits) == AllBits(done, lo, hi)
      invariant ReadParts(parts, lo, hi) == Prepend(done, ReadParts(parts[i..], lo, hi))
    {
      assert parts[i..][0] == parts[i] && parts[i..][1..] == parts[i + 1..];
      var b := ParsePart(parts[i], lo, hi);
      if b.Err? { return Err(b.error); }
      ghost var p := ReadPart(parts[i], lo, hi).value;
      MembersOfOr(bits, b.value);
      AllBitsAppend(done, p, lo, hi);
      PrependAppend(done, p, ReadParts(parts[i + 1..], lo, hi));
      bits := Or(bits, b.value);
      done := done + [p];
    }
    assert parts[|parts|..] == [];
    assert done + [] == done;
    r := Ok(bits);
  }

  ghost function Prepend(done: seq<Part>, rest: Result<seq<Part>, FieldError>): Result<seq<Part>, FieldError> {
    match rest
    case Err(e) => Err(e)
    case Ok(ps) => Ok(done + ps)
  }

  lemma PrependNothing(rest: Result<seq<Part>, FieldError>)
    ensures Prepend([], rest) == rest
  {
    if rest.Ok? {
      assert [] + rest.value == rest.value;
    }
  }

  lemma PrependAppend(done: seq<Part>, p: Part, rest: Result<seq<Part>, FieldError>)
    ensures Prepend(done, Prepend([p], rest)) == Prepend(done + [p], rest)
  {
    if rest.Ok? {
      assert done + ([p] + rest.value) == (done + [p]) + rest.value;
    }
  }

  lemma {:induction false} AllBitsAppend(ps: seq<Part>, p: Part, lo: nat, hi: nat)
    requires ValidParts(ps, lo, hi) && ValidPart(p, lo, hi) && lo <= hi < 64
    ensures ValidParts(ps + [p], lo, hi)
    ensures AllBits(ps + [p], lo, hi) == AllBits(ps, lo, hi) + BitsOf(p, lo, hi)
  {
    hide ValidPart, BitsOf;
    if ps == [] {
      assert [p][1..] == [];
    } else {
      assert (ps + [p])[1..] == ps[1..] + [p];
      AllBitsAppend(ps[1..], p, lo, hi);
    }
  }

  method ParseCron(expr: string) returns (r: Result<CronExpr, CronError>)
    ensures Parses(expr, r)
  {
    ReadCronIsWellFormed(expr);
    hide Members, ReadField, AllBits, ValidParts, TrimSpace, Fields, Expand;
    var text := TrimSpace(expr);
    if text == "" { return Err(EmptyExpr); }
    text := Expand(text);
    var fields := Fields(text);
    if |fields| != FIELD_COUNT { return Err(WrongFieldCount(|fields|)); }
    ReadFieldsUnfolds(fields);
    var minute := ParseField(fields[0], FieldLow(0), FieldHigh(0));
    if minute.Err? { return Err(BadField(0, minute.error)); }
    var hour := ParseField(fields[1], FieldLow(1), FieldHigh(1));
    if hour.Err? { return Err(BadField(1, hour.error)); }
    var dom := ParseField(fields[2], FieldLow(2), FieldHigh(2));
    if dom.Err? { return Err(BadField(2, dom.error)); }
    var month := ParseField(fields[3], FieldLow(3), FieldHigh(3));
    if month.Err? { return Err(BadField(3, month.error)); }
    var dow := ParseField(fields[4], FieldLow(4), FieldHigh(4));
    if dow.Err? { return Err(BadField(4, dow.error)); }
    var c := CronExpr(minute.value, hour.value, dom.value, month.value, dow.value, text);
    assert Holds(c, ReadCron(expr).value);
    r := Ok(c);
  }

  /** Five fields are read one after the other; the first malformed one decides. */
  lemma ReadFieldsUnfolds(fields: seq<string>)
    requires |fields| == FIELD_COUNT
    ensures var f0, f1, f2, f3, f4 :=
              ReadField(fields[0], FieldLow(0), FieldHigh(0)), ReadField(fields[1], FieldLow(1), FieldHigh(1)),
              ReadField(fields[2], FieldLow(2), FieldHigh(2)), ReadField(fields[3], FieldLow(3), FieldHigh(3)),
              ReadField(fields[4], FieldLow(4), FieldHigh(4));
            ReadFields(fields, 0) ==
              if f0.Err? then Err(BadField(0, f0.error))
              else if f1.Err? then Err(BadField(1, f1.error))
              else if f2.Err? then Err(BadField(2, f2.error))
              else if f3.Err? then Err(BadField(3, f3.error))
              else if f4.Err? then Err(BadField(4, f4.error))
              else Ok([f0.value] + ([f1.value] + ([f2.value] + ([f3.value] + ([f4.value] + [])))))
  {
    hide ReadField, ReadFields, FieldLow, FieldHigh;
    ReadFieldStep(fields, 4);
    ReadFieldStep(fields, 3);
    ReadFieldStep(fields, 2);
    ReadFieldStep(fields, 1);
    ReadFieldStep(fields, 0);
  }

  lemma ReadFieldStep(fields: seq<string>, i: nat)
    requires i < |fields|
    ensures var f := ReadField(fields[i], FieldLow(i), FieldHigh(i));
            var rest := if i + 1 == |fields| then Ok([]) else ReadFields(fields, i + 1);
            ReadFields(fields, i) ==
              if f.Err? then Err(BadField(i, f.error)) else if rest.Err? then rest else Ok([f.value] + rest.value)
  {
  }

  // ------------------------------------------------------- what parsing means

  lemma SameBitsets(c: CronExpr, d: CronExpr)
    requires c.raw == d.raw
    requires forall i :: 0 <= i < FIELD_COUNT ==> Members(FieldBits(c, i)) == Members(FieldBits(d, i))
    ensures c == d
  {
    hide Members;
    assert FieldBits(c, 0) == c.minute && FieldBits(d, 0) == d.minute;
    assert FieldBits(c, 1) == c.hour && FieldBits(d, 1) == d.hour;
    assert FieldBits(c, 2) == c.dayMonth && FieldBits(d, 2) == d.dayMonth;
    assert FieldBits(c, 3) == c.month && FieldBits(d, 3) == d.month;
    assert FieldBits(c, 4) == c.dayWeek && FieldBits(d, 4) == d.dayWeek;
    MembersDetermineBits(c.minute, d.minute);
    MembersDetermineBits(c.hour, d.hour);
    MembersDetermineBits(c.dayMonth, d.dayMonth);
    MembersDetermineBits(c.month, d.month);
    MembersDetermineBits(c.dayWeek, d.dayWeek);
  }

  /** The outcome of parsing, bitsets included, is determined by the text. */
  lemma ParseIsDetermined(expr: string, r: Result<CronExpr, CronError>, s: Result<CronExpr, CronError>)
    requires Parses(expr, r) && Parses(expr, s)
    ensures r == s
  {
    hide ReadCron, Members, AllBits, WellFormed;
    if r.Ok? {
      assert s.Ok?;
      SameBitsets(r.value, s.value);
    }
  }

  lemma ExpandStays(text: string)
    requires Trimmed(text) && text != ""
    ensures Expand(Expand(text)) == Expand(text) && Trimmed(Expand(text)) && Expand(text) != ""
  {
  }

  /** Parsing `String()` of a parsed expression, aliases included, gives the same expression again. */
  lemma ReparseOfString(expr: string, c: CronExpr)
    requires Parses(expr, Ok(c))
    ensures Parses(c.raw, Ok(c))
  {
    hide Expand, TrimSpace, Fields, ReadFields, Members, AllBits, WellFormed;
    var text := TrimSpace(expr);
    TrimSpaceIsTrimmed(expr);
    ExpandStays(text);
    TrimmedStays(Expand(text));
    assert ReadCron(c.raw) == ReadCron(expr);
  }

  function PrintFields(fs: seq<seq<Part>>): (r: seq<string>)
    requires WellFormed(fs)
    ensures |r| == FIELD_COUNT
  {
    seq(FIELD_COUNT, i requires 0 <= i < FIELD_COUNT => PrintField(fs[i], FieldLow(i), FieldHigh(i)))
  }

  function PrintCron(fs: seq<seq<Part>>): string
    requires WellFormed(fs)
  {
    Join(PrintFields(fs), ' ')
  }

  lemma {:induction false} PrintedFieldsAreRead(fs: seq<seq<Part>>, i: nat)
    requires WellFormed(fs) && i <= FIELD_COUNT
    ensures ReadFields(PrintFields(fs), i) == Ok(fs[i..])
    decreases FIELD_COUNT - i
  {
    hide FieldLow, FieldHigh, ReadField, ValidParts, PrintField;
    if i == FIELD_COUNT {
      assert fs[i..] == [];
    } else {
      FieldRoundTrip(fs[i], FieldLow(i), FieldHigh(i));
      PrintedFieldsAreRead(fs, i + 1);
      assert PrintFields(fs)[i] == PrintField(fs[i], FieldLow(i), FieldHigh(i));
      assert fs[i..] == [fs[i]] + fs[i + 1..];
    }
  }

  /** What is printed is read back: the grammar is unambiguous over all well-formed expressions. */
  lemma CronRoundTrip(fs: seq<seq<Part>>)
    requires WellFormed(fs)
    ensures ReadCron(PrintCron(fs)) == Ok(fs)
    ensures Expand(TrimSpace(PrintCron(fs))) == PrintCron(fs)
  {
    hide FieldLow, FieldHigh, ValidParts, PrintField, TrimSpace, Expand, Fields, IsSpace;
    var words := PrintFields(fs);
    forall i | 0 <= i < FIELD_COUNT
      ensures words[i] != "" && forall k :: 0 <= k < |words[i]| ==> PartChar(words[i][k]) || words[i][k] == ','
    {
      PrintedFieldIsWord(fs[i], FieldLow(i), FieldHigh(i));
    }
    WordsJoin(words);
    FieldsOfJoin(words);
    PrintedFieldsAreRead(fs, 0);
    assert fs[0..] == fs;
  }

  lemma NotASpace(c: char)
    requires PartChar(c) || c == ','
    ensures !IsSpace(c) && c != '@'
  {
  }

  lemma {:induction false} JoinEnds(words: seq<string>, sep: char)
    requires words != [] && forall i :: 0 <= i < |words| ==> words[i] != ""
    ensures var s := Join(words, sep);
            s != "" && s[0] == words[0][0] && s[|s| - 1] == words[|words| - 1][|words[|words| - 1]| - 1]
  {
    if |words| > 1 {
      JoinEnds(words[1..], sep);
      assert words[1..][|words| - 2] == words[|words| - 1];
    }
  }

  lemma WordsJoin(words: seq<string>)
    requires words != [] && forall i :: 0 <= i < |words| ==> words[i] != ""
    requires forall i, k :: 0 <= i < |words| && 0 <= k < |words[i]| ==> PartChar(words[i][k]) || words[i][k] == ','
    ensures forall i :: 0 <= i < |words| ==> IsWord(words[i])
    ensures var s := Join(words, ' '); s != "" && TrimSpace(s) == s && Expand(s) == s
  {
    forall i, k | 0 <= i < |words| && 0 <= k < |words[i]|
      ensures !IsSpace(words[i][k]) && words[i][k] != '@'
    {
      NotASpace(words[i][k]);
    }
    JoinEnds(words, ' ');
    TrimmedStays(Join(words, ' '));
  }

  /** The ranges of minute, hour, day of month, month and day of week. */
  const LOWS: seq<nat> := [0, 0, 1, 1, 0]
  const HIGHS: seq<nat> := [59, 23, 31, 12, 6]

  lemma TextOfWords(words: seq<string>)
    requires words != [] && (forall i :: 0 <= i < |words| ==> IsWord(words[i])) && words[0] != "" && words[0][0] != '@'
    ensures var s := Join(words, ' '); s != "" && TrimSpace(s) == s && Expand(s) == s && Fields(s) == words
  {
    hide Expand, Fields, IsSpace, TrimSpace, Join;
    FieldsOfJoin(words);
    WordsAreTrimmed(words);
    TrimmedStays(Join(words, ' '));
    NoAlias(Join(words, ' '));
  }

  lemma WordsAreTrimmed(words: seq<string>)
    requires words != [] && forall i :: 0 <= i < |words| ==> IsWord(words[i])
    ensures var s := Join(words, ' '); s != "" && Trimmed(s) && s[0] == words[0][0]
  {
    hide IsSpace, Join;
    JoinEnds(words, ' ');
    assert IsWord(words[0]) && IsWord(words[|words| - 1]);
  }

  lemma NoAlias(s: string)
    requires s != "" && s[0] != '@'
    ensures Expand(s) == s
  {
  }

  /**
   What is not an alias is five words; each is read in its own range, and the first malformed one is reported.
   */
  lemma CronOfWords(words: seq<string>)
    requires words != [] && (forall i :: 0 <= i < |words| ==> IsWord(words[i])) && words[0] != "" && words[0][0] != '@'
    ensures |words| != 5 ==> ReadCron(Join(words, ' ')) == Err(WrongFieldCount(|words|))
    ensures |words| == 5 ==>
              var read := ReadCron(Join(words, ' '));
              if read.Err? then
                exists i: nat :: i < 5 && BadWord(words, i, read.error) && forall j :: 0 <= j < i ==> GoodWord(words, j)
              else
                |read.value| == 5
                && forall i :: 0 <= i < 5 ==> ReadField(words[i], LOWS[i], HIGHS[i]) == Ok(read.value[i])
  {
    TextOfWords(words);
    hide TrimSpace, Expand, Fields, Join, IsWord, ReadFields, ReadField, GoodWord, BadWord;
    if |words| == 5 {
      assert ReadCron(Join(words, ' ')) == ReadFields(words, 0);
      hide ReadCron;
      FirstBadField(words, 0);
    }
  }

  /** How the five words are spaced, and what white space stands around them, makes no difference. */
  lemma SpacingDoesNotMatter(words: seq<string>, gaps: seq<string>, lead: string, trail: string)
    requires words != [] && (forall i :: 0 <= i < |words| ==> IsWord(words[i])) && words[0] != "" && words[0][0] != '@'
    requires |gaps| == |words| && gaps[|gaps| - 1] == "" && IsGap(lead) && IsGap(trail)
    requires forall i :: 0 <= i < |gaps| ==> IsGap(gaps[i]) && (i < |gaps| - 1 ==> gaps[i] != "")
    ensures ReadCron(lead + Spread(words, gaps) + trail) == ReadCron(Join(words, ' '))
  {
    hide IsSpace, IsGap, Expand, TrimSpace, ReadFields, Join, Fields, IsWord;
    var s := Spread(words, gaps);
    TextOfWords(words);
    FieldsOfSpread(words, gaps);
    SpreadIsTrimmed(words, gaps);
    TrimSpaceOf(lead, s, trail);
    NoAlias(s);
  }

  lemma {:induction false} SpreadIsTrimmed(words: seq<string>, gaps: seq<string>)
    requires words != [] && |gaps| == |words| && gaps[|gaps| - 1] == ""
    requires forall i :: 0 <= i < |words| ==> IsWord(words[i])
    ensures var s := Spread(words, gaps);
            s != "" && Trimmed(s) && words[0] != "" && s[0] == words[0][0]
    decreases |words|
  {
    hide IsSpace;
    var s, rest := Spread(words, gaps), Spread(words[1..], gaps[1..]);
    assert IsWord(words[0]);
    assert s == words[0] + (gaps[0] + rest);
    if |words| == 1 {
      assert rest == "" && gaps[0] + rest == "" && s == words[0];
    } else {
      SpreadIsTrimmed(words[1..], gaps[1..]);
      assert s[|s| - 1] == rest[|rest| - 1];
    }
  }

  predicate GoodWord(words: seq<string>, i: nat)
    requires |words| == 5 && i < 5
  {
    ReadField(words[i], LOWS[i], HIGHS[i]).Ok?
  }

  predicate BadWord(words: seq<string>, i: nat, e: CronError)
    requires |words| == 5 && i < 5
  {
    e.BadField? && e.index == i && ReadField(words[i], LOWS[i], HIGHS[i]) == Err(e.error)
  }

  lemma FieldRanges(i: nat)
    requires i < 5
    ensures FieldLow(i) == LOWS[i] && FieldHigh(i) == HIGHS[i]
  {
  }

  lemma {:induction false} FirstBadField(words: seq<string>, n: nat)
    requires |words| == 5 && n <= 5
    ensures var read := ReadFields(words, n);
            if read.Err? then
              exists i: nat :: n <= i < 5 && BadWord(words, i, read.error) && forall j :: n <= j < i ==> GoodWord(words, j)
            else
              |read.value| == 5 - n
              && forall i :: n <= i < 5 ==> ReadField(words[i], LOWS[i], HIGHS[i]) == Ok(read.value[i - n])
    decreases 5 - n
  {
    hide ReadField, FieldLow, FieldHigh;
    if n < 5 {
      FieldRanges(n);
      FirstBadField(words, n + 1);
      var first, rest := ReadField(words[n], LOWS[n], HIGHS[n]), ReadFields(words, n + 1);
      if first.Err? {
        assert BadWord(words, n, ReadFields(words, n).error);
      } else if rest.Err? {
        assert GoodWord(words, n);
        assert ReadFields(words, n) == Err(rest.error);
      }
    }
  }

  lemma {:induction false} BlankTrims(s: string)
    requires forall i :: 0 <= i < |s| ==> IsSpace(s[i])
    ensures TrimLeft(s) == ""
  {
    if s != "" { BlankTrims(s[1..]); }
  }

  /** White space alone is the empty expression. */
  lemma BlankIsEmpty(s: string)
    requires forall i :: 0 <= i < |s| ==> IsSpace(s[i])
    ensures ReadCron(s) == Err(EmptyExpr)
  {
    BlankTrims(s);
  }

  // -------------------------------------------------- canonical expressions

  /** The selected values from `v` to `hi`, as single parts. */
  function Singles(bits: bv64, v: nat, hi: nat): (r: seq<Part>)
    requires hi < 64
    decreases hi + 1 - v
  {
    if v > hi then []
    else (if HasBit(bits, v) then [One(v, EachOne)] else []) + Singles(bits, v + 1, hi)
  }

  lemma {:induction false} SinglesAreTheBits(bits: bv64, v: nat, lo: nat, hi: nat)
    requires lo <= v && lo <= hi < 64
    ensures ValidParts(Singles(bits, v, hi), lo, hi)
    ensures AllBits(Singles(bits, v, hi), lo, hi) == set x | x in Members(bits) && v <= x <= hi
    decreases hi + 1 - v
  {
    hide HasBit;
    if v <= hi {
      SinglesAreTheBits(bits, v + 1, lo, hi);
      var rest := Singles(bits, v + 1, hi);
      if HasBit(bits, v) {
        assert Singles(bits, v, hi)[1..] == rest;
      } else {
        assert Singles(bits, v, hi) == rest;
      }
    }
  }

  /** Every field selects something and nothing outside its range. */
  predicate InRange(c: CronExpr) {
    forall i :: 0 <= i < FIELD_COUNT ==>
      Members(FieldBits(c, i)) != {} && forall v <- Members(FieldBits(c, i)) :: FieldLow(i) <= v <= FieldHigh(i)
  }

  function CanonicalParts(c: CronExpr): seq<seq<Part>> {
    seq(FIELD_COUNT, i requires 0 <= i < FIELD_COUNT => Singles(FieldBits(c, i), FieldLow(i), FieldHigh(i)))
  }

  lemma CanonicalFieldHolds(bits: bv64, lo: nat, hi: nat)
    requires lo <= hi < 64 && Members(bits) != {} && forall v <- Members(bits) :: lo <= v <= hi
    ensures var ps := Singles(bits, lo, hi);
            ps != [] && ValidParts(ps, lo, hi) && AllBits(ps, lo, hi) == Members(bits)
  {
    hide Members, Singles;
    SinglesAreTheBits(bits, lo, lo, hi);
  }

  /** Any five non-empty, in-range bitsets are what their comma-separated lists parse to. */
  lemma CanonicalRoundTrip(c: CronExpr)
    requires InRange(c)
    ensures WellFormed(CanonicalParts(c))
    ensures var text := PrintCron(CanonicalParts(c)); Parses(text, Ok(c.(raw := text)))
  {
    hide Members, Singles, AllBits, ValidParts, FieldLow, FieldHigh, PrintCron, ReadCron;
    var fs := CanonicalParts(c);
    forall i | 0 <= i < FIELD_COUNT
      ensures fs[i] != [] && ValidParts(fs[i], FieldLow(i), FieldHigh(i))
      ensures AllBits(fs[i], FieldLow(i), FieldHigh(i)) == Members(FieldBits(c, i))
    {
      CanonicalFieldHolds(FieldBits(c, i), FieldLow(i), FieldHigh(i));
    }
    CronRoundTrip(fs);
    var d := c.(raw := PrintCron(fs));
    assert forall i :: FieldBits(d, i) == FieldBits(c, i);
  }

  // ------------------------------------------------ what parsed fields match

  /** The civil field `i` of minute `m`. */
  function CivilField(m: int, i: nat): int {
    if i == 0 then m % 60
    else if i == 1 then m / 60 % 24
    else if i == 2 then DateOf(m / MINUTES_PER_DAY).day
    else if i == 3 then DateOf(m / MINUTES_PER_DAY).month
    else Weekday(m / MINUTES_PER_DAY)
  }

  /**
   A parsed expression whose steps fit an int64 matches a minute exactly when each civil field is among
   the values its comma-separated parts denote.
   */
  lemma MatchesIsMembership(expr: string, c: CronExpr, m: int)
    requires Parses(expr, Ok(c))
    requires ReadCron(expr).Ok? && WellFormed(ReadCron(expr).value)
    requires forall i, k :: 0 <= i < FIELD_COUNT && 0 <= k < |ReadCron(expr).value[i]| ==>
               StepFits(ReadCron(expr).value[i][k], FieldLow(i))
    ensures Matches(c, m) <==>
              forall i :: 0 <= i < FIELD_COUNT ==>
                CivilField(m, i) in AllDenoted(ReadCron(expr).value[i], FieldLow(i), FieldHigh(i))
  {
    var fs := ReadCron(expr).value;
    hide HasBit, AllBits, AllDenoted, StepFits, ReadCron, DateOf, Weekday;
    var t := DateOf(m / MINUTES_PER_DAY);
    MonthsFit(t.month, IsLeap(t.year));
    forall i | 0 <= i < FIELD_COUNT
      ensures Members(FieldBits(c, i)) == AllDenoted(fs[i], FieldLow(i), FieldHigh(i))
    {
      FieldBitsExact(fs[i], FieldLow(i), FieldHigh(i));
    }
    MatchesByFields(c, m);
  }

  lemma HasBitIsMembership(bits: bv64, v: nat)
    requires v < 64
    ensures HasBit(bits, v) <==> v as int in Members(bits)
  {
  }

  lemma MatchesByFields(c: CronExpr, m: int)
    ensures Matches(c, m) <==> forall i :: 0 <= i < FIELD_COUNT ==> CivilField(m, i) in Members(FieldBits(c, i))
  {
    var t := DateOf(m / MINUTES_PER_DAY);
    MonthsFit(t.month, IsLeap(t.year));
    HasBitIsMembership(c.minute, m % 60);
    HasBitIsMembership(c.hour, m / 60 % 24);
    HasBitIsMembership(c.dayMonth, t.day);
    HasBitIsMembership(c.month, t.month);
    HasBitIsMembership(c.dayWeek, Weekday(m / MINUTES_PER_DAY));
    hide HasBit, DateOf, Weekday, Members, CivilField, FieldBits;
    CivilFields(c, m);
  }

  lemma CivilFields(c: CronExpr, m: int)
    ensures CivilField(m, 0) == m % 60 && FieldBits(c, 0) == c.minute
    ensures CivilField(m, 1) == m / 60 % 24 && FieldBits(c, 1) == c.hour
    ensures CivilField(m, 2) == DateOf(m / MINUTES_PER_DAY).day && FieldBits(c, 2) == c.dayMonth
    ensures CivilField(m, 3) == DateOf(m / MINUTES_PER_DAY).month && FieldBits(c, 3) == c.month
    ensures CivilField(m, 4) == Weekday(m / MINUTES_PER_DAY) && FieldBits(c, 4) == c.dayWeek
  {
  }

  /** Each field of a parsed expression selects a value of its range. */
  lemma ParsedFieldSelects(expr: string, c: CronExpr, i: nat) returns (v: nat)
    requires Parses(expr, Ok(c)) && i < FIELD_COUNT
    ensures FieldLow(i) <= v <= FieldHigh(i) && HasBit(FieldBits(c, i), v)
  {
    ReadCronIsWellFormed(expr);
    hide HasBit, AllBits, ReadCron, Members, FieldLow, FieldHigh;
    var ps := ReadCron(expr).value[i];
    assert Members(FieldBits(c, i)) == AllBits(ps, FieldLow(i), FieldHigh(i));
    FieldBitsBounds(ps, FieldLow(i), FieldHigh(i));
    var x :| x in AllBits(ps, FieldLow(i), FieldHigh(i)) && FieldLow(i) <= x <= FieldHigh(i);
    v := x;
    HasBitIsMembership(FieldBits(c, i), v);
  }

  /** Every parsed expression has a time of day, a month and a weekday, even if its steps wrap. */
  lemma ParsedSelectsSomething(expr: string, c: CronExpr)
    requires Parses(expr, Ok(c))
    ensures HasTime(c)
    ensures exists month :: 1 <= month <= 12 && HasBit(c.month, month)
    ensures exists w :: 0 <= w <= 6 && HasBit(c.dayWeek, w)
  {
    hide HasBit, Parses;
    var minute := ParsedFieldSelects(expr, c, 0);
    var hour := ParsedFieldSelects(expr, c, 1);
    var month := ParsedFieldSelects(expr, c, 3);
    var w := ParsedFieldSelects(expr, c, 4);
    var s := hour * 60 + minute;
    assert s % 60 == minute && s / 60 == hour;
    assert TimeMatches(c, s);
  }

  /**
   A parsed expression that leaves the day of month open is found from every instant; one that leaves
   the day of week open is found from every instant if and only if some selected date is yearly.
   */
  lemma ParsedAlwaysFinds(expr: string, c: CronExpr)
    requires Parses(expr, Ok(c))
    ensures EveryMonthDay(c) ==> AlwaysFinds(c)
    ensures EveryWeekday(c) ==> (AlwaysFinds(c) <==> exists month, day :: YearlyDate(c, month, day))
  {
    hide HasBit, AlwaysFinds, HasTime, YearlyDate;
    ParsedSelectsSomething(expr, c);
    if EveryMonthDay(c) { AlwaysFindsAnyMonthDay(c); }
    if EveryWeekday(c) { AlwaysFindsAnyWeekday(c); }
  }

  // ------------------------------------------------------- texts in particular

  function Single(v: int): seq<Part> {
    [One(v, EachOne)]
  }

  const STAR: seq<Part> := [Every(EachOne)]

  lemma JoinOfFive(words: seq<string>, sep: char)
    requires |words| == 5
    ensures Join(words, sep)
         == words[0] + ([sep] + (words[1] + ([sep] + (words[2] + ([sep] + (words[3] + ([sep] + words[4])))))))
  {
    JoinStep(words, sep);
    JoinStep(words[1..], sep);
    JoinStep(words[2..], sep);
    JoinStep(words[3..], sep);
    assert words[1..][1..] == words[2..] && words[2..][1..] == words[3..] && words[3..][1..] == words[4..];
    assert Join(words[4..], sep) == words[4];
  }

  lemma JoinStep(words: seq<string>, sep: char)
    requires |words| > 1
    ensures Join(words, sep) == words[0] + ([sep] + Join(words[1..], sep))
  {
    assert words[0] + [sep] + Join(words[1..], sep) == words[0] + ([sep] + Join(words[1..], sep));
  }

  /** `text` is how a single value or a star is written. */
  ghost predicate Writes(ps: seq<Part>, text: string) {
    (ps == STAR && text == "*") || exists v: nat :: ps == Single(v) && text == Digits(v)
  }

  lemma WrittenField(ps: seq<Part>, lo: nat, hi: nat, text: string)
    requires Writes(ps, text) && ValidParts(ps, lo, hi)
    ensures ps != [] && PrintField(ps, lo, hi) == text
  {
    assert PrintParts(ps, lo, hi) == [PrintPart(ps[0], lo, hi)];
    if ps != STAR {
      var v: nat :| ps == Single(v) && text == Digits(v);
    }
  }

  /** Five fields, each a star or a digit, are read as such. */
  lemma ReadSimple(fs: seq<seq<Part>>, words: seq<string>)
    requires |fs| == |words| == FIELD_COUNT
    requires forall i :: 0 <= i < FIELD_COUNT ==> Writes(fs[i], words[i]) && ValidParts(fs[i], FieldLow(i), FieldHigh(i))
    ensures ReadCron(words[0] + " " + words[1] + " " + words[2] + " " + words[3] + " " + words[4]) == Ok(fs)
  {
    hide ReadCron, PrintField, Writes, ValidParts, FieldLow, FieldHigh;
    forall i | 0 <= i < FIELD_COUNT
      ensures fs[i] != [] && PrintField(fs[i], FieldLow(i), FieldHigh(i)) == words[i]
    {
      WrittenField(fs[i], FieldLow(i), FieldHigh(i), words[i]);
    }
    CronRoundTrip(fs);
    assert PrintFields(fs) == words;
    JoinOfFive(words, ' ');
    var text := words[0] + " " + words[1] + " " + words[2] + " " + words[3] + " " + words[4];
    assert PrintCron(fs) == text;
  }

  lemma AliasReads(alias: string, text: string, fs: seq<seq<Part>>)
    requires Trimmed(alias) && alias != "" && Expand(alias) == text
    requires Trimmed(text) && text != "" && Expand(text) == text
    requires ReadCron(text) == Ok(fs)
    ensures ReadCron(alias) == Ok(fs)
  {
    hide ReadFields, Fields, Expand, Trimmed, TrimSpace;
    TrimmedStays(alias);
    TrimmedStays(text);
  }

  lemma SmallNumbers()
    ensures Digits(0) == "0" && Digits(1) == "1" && Digits(2) == "2" && Digits(5) == "5"
    ensures Digits(13) == "13" && Digits(29) == "29" && Digits(30) == "30"
    ensures Writes(Single(0), "0") && Writes(Single(1), "1") && Writes(Single(2), "2") && Writes(Single(5), "5")
    ensures Writes(Single(13), "13") && Writes(Single(29), "29") && Writes(Single(30), "30")
    ensures Writes(STAR, "*")
  {
    assert DigitChar(0) == '0' && DigitChar(1) == '1' && DigitChar(2) == '2' && DigitChar(3) == '3';
    assert DigitChar(5) == '5' && DigitChar(9) == '9';
    assert Digits(13) == Digits(1) + "3" && Digits(29) == Digits(2) + "9" && Digits(30) == Digits(3) + "0";
  }

  /** Text of digits and stars, given by its words. */
  lemma SimpleText(text: string, words: seq<string>, fs: seq<seq<Part>>)
    requires |fs| == |words| == FIELD_COUNT
    requires forall i :: 0 <= i < FIELD_COUNT ==> Writes(fs[i], words[i]) && ValidParts(fs[i], FieldLow(i), FieldHigh(i))
    requires text == words[0] + " " + words[1] + " " + words[2] + " " + words[3] + " " + words[4]
    ensures ReadCron(text) == Ok(fs)
  {
    hide ReadCron, Writes, ValidParts;
    ReadSimple(fs, words);
  }

  /** Midnight on 1 January. */
  lemma YearlyRead()
    ensures ReadCron("@yearly") == Ok([Single(0), Single(0), Single(1), Single(1), STAR])
    ensures ReadCron("@annually") == Ok([Single(0), Single(0), Single(1), Single(1), STAR])
  {
    hide ReadCron, Digits, Writes;
    SmallNumbers();
    SimpleText("0 0 1 1 *", ["0", "0", "1", "1", "*"], [Single(0), Single(0), Single(1), Single(1), STAR]);
    AliasReads("@yearly", "0 0 1 1 *", [Single(0), Single(0), Single(1), Single(1), STAR]);
    AliasReads("@annually", "0 0 1 1 *", [Single(0), Single(0), Single(1), Single(1), STAR]);
  }

  /** Midnight on the first of each month. */
  lemma MonthlyRead()
    ensures ReadCron("@monthly") == Ok([Single(0), Single(0), Single(1), STAR, STAR])
  {
    hide ReadCron, Digits, Writes;
    SmallNumbers();
    SimpleText("0 0 1 * *", ["0", "0", "1", "*", "*"], [Single(0), Single(0), Single(1), STAR, STAR]);
    AliasReads("@monthly", "0 0 1 * *", [Single(0), Single(0), Single(1), STAR, STAR]);
  }

  /** Midnight on Sundays. */
  lemma WeeklyRead()
    ensures ReadCron("@weekly") == Ok([Single(0), Single(0), STAR, STAR, Single(0)])
  {
    hide ReadCron, Digits, Writes;
    SmallNumbers();
    SimpleText("0 0 * * 0", ["0", "0", "*", "*", "0"], [Single(0), Single(0), STAR, STAR, Single(0)]);
    AliasReads("@weekly", "0 0 * * 0", [Single(0), Single(0), STAR, STAR, Single(0)]);
  }

  /** Every midnight. */
  lemma DailyRead()
    ensures ReadCron("@daily") == Ok([Single(0), Single(0), STAR, STAR, STAR])
    ensures ReadCron("@midnight") == Ok([Single(0), Single(0), STAR, STAR, STAR])
  {
    hide ReadCron, Digits, Writes;
    SmallNumbers();
    SimpleText("0 0 * * *", ["0", "0", "*", "*", "*"], [Single(0), Single(0), STAR, STAR, STAR]);
    AliasReads("@daily", "0 0 * * *", [Single(0), Single(0), STAR, STAR, STAR]);
    AliasReads("@midnight", "0 0 * * *", [Single(0), Single(0), STAR, STAR, STAR]);
  }

  /** Every full hour. */
  lemma HourlyRead()
    ensures ReadCron("@hourly") == Ok([Single(0), STAR, STAR, STAR, STAR])
  {
    hide ReadCron, Digits, Writes;
    SmallNumbers();
    SimpleText("0 * * * *", ["0", "*", "*", "*", "*"], [Single(0), STAR, STAR, STAR, STAR]);
    AliasReads("@hourly", "0 * * * *", [Single(0), STAR, STAR, STAR, STAR]);
  }

  /** What each alias stands for. */
  function AliasFields(alias: string): Option<seq<seq<Part>>> {
    if alias == "@yearly" || alias == "@annually" then Some([Single(0), Single(0), Single(1), Single(1), STAR])
    else if alias == "@monthly" then Some([Single(0), Single(0), Single(1), STAR, STAR])
    else if alias == "@weekly" then Some([Single(0), Single(0), STAR, STAR, Single(0)])
    else if alias == "@daily" || alias == "@midnight" then Some([Single(0), Single(0), STAR, STAR, STAR])
    else if alias == "@hourly" then Some([Single(0), STAR, STAR, STAR, STAR])
    else None
  }

  /** Every alias is read as the five fields it stands for. */
  lemma AliasesAreRead(alias: string)
    requires AliasFields(alias).Some?
    ensures ReadCron(alias) == Ok(AliasFields(alias).value)
  {
    hide ReadCron, Single;
    if alias == "@yearly" || alias == "@annually" {
      YearlyRead();
    } else if alias == "@monthly" {
      MonthlyRead();
    } else if alias == "@weekly" {
      WeeklyRead();
    } else if alias == "@daily" || alias == "@midnight" {
      DailyRead();
    } else {
      HourlyRead();
    }
  }

  /** `String()` of an alias is what it stands for. */
  lemma StringOfAlias(alias: string, c: CronExpr)
    requires Parses(alias, Ok(c))
    ensures alias == "@yearly" || alias == "@annually" ==> c.raw == "0 0 1 1 *"
    ensures alias == "@monthly" ==> c.raw == "0 0 1 * *"
    ensures alias == "@weekly" ==> c.raw == "0 0 * * 0"
    ensures alias == "@daily" || alias == "@midnight" ==> c.raw == "0 0 * * *"
    ensures alias == "@hourly" ==> c.raw == "0 * * * *"
  {
    hide ReadCron, Holds, TrimSpace;
    if alias != "" && alias[0] == '@' && 'a' <= alias[|alias| - 1] <= 'z' {
      AtSignStays(alias);
    }
  }

  lemma AtSignStays(alias: string)
    requires alias != "" && alias[0] == '@' && 'a' <= alias[|alias| - 1] <= 'z'
    ensures TrimSpace(alias) == alias
  {
    hide TrimSpace;
    TrimmedStays(alias);
  }

  /** `String()` of any other text is that text without the white space around it. */
  lemma StringOfText(lead: string, text: string, trail: string, c: CronExpr)
    requires IsGap(lead) && IsGap(trail) && Trimmed(text) && text != "" && text[0] != '@'
    requires Parses(lead + text + trail, Ok(c))
    ensures c.raw == text
  {
    hide ReadCron, Holds, TrimSpace, IsGap, Trimmed;
    TrimSpaceOf(lead, text, trail);
    NoAlias(text);
  }

  /** The values from `lo` to `hi`. */
  function AllFrom(lo: nat, hi: int): bv64
    requires hi < 64
    decreases hi + 1
  {
    if hi < lo then 0 else SetBit(AllFrom(lo, hi - 1), hi)
  }

  lemma {:induction false} MembersOfAllFrom(lo: nat, hi: int)
    requires hi < 64
    ensures forall v :: v in Members(AllFrom(lo, hi)) <==> lo <= v <= hi
    decreases hi + 1
  {
    hide Members, SetBit;
    if hi < lo {
      NoMembers();
    } else {
      MembersOfAllFrom(lo, hi - 1);
      MembersOfSetBit(AllFrom(lo, hi - 1), hi);
    }
  }

  /** What "* * * * *" parses to. */
  const EVERY_MINUTE := CronExpr(
    AllFrom(0, 59), AllFrom(0, 23), AllFrom(1, 31), AllFrom(1, 12), AllFrom(0, 6), "* * * * *")

  lemma StarSetsAll(lo: nat, hi: nat)
    requires lo <= hi < 64
    ensures ValidParts(STAR, lo, hi) && AllBits(STAR, lo, hi) == Members(AllFrom(lo, hi))
  {
    MembersOfAllFrom(lo, hi);
    LoopBitsWithoutWrap(lo, hi, 1);
    assert STAR[1..] == [];
    hide LoopBits;
  }

  lemma EveryMinuteField(i: nat)
    requires i < FIELD_COUNT
    ensures FieldBits(EVERY_MINUTE, i) == AllFrom(FieldLow(i), FieldHigh(i))
  {
    hide AllFrom;
  }

  lemma CivilFieldInRange(m: int, i: nat)
    requires i < FIELD_COUNT
    ensures FieldLow(i) <= CivilField(m, i) <= FieldHigh(i)
  {
    var t := DateOf(m / MINUTES_PER_DAY);
    MonthsFit(t.month, IsLeap(t.year));
    hide DateOf;
  }

  lemma StarsParse()
    ensures ReadCron("* * * * *") == Ok([STAR, STAR, STAR, STAR, STAR])
    ensures Parses("* * * * *", Ok(EVERY_MINUTE))
  {
    hide ReadCron, Digits, Writes, AllFrom, Members, AllBits, ValidParts, FieldLow, FieldHigh, FieldBits;
    var fs := [STAR, STAR, STAR, STAR, STAR];
    SmallNumbers();
    forall i | 0 <= i < FIELD_COUNT
      ensures ValidParts(fs[i], FieldLow(i), FieldHigh(i))
      ensures Members(FieldBits(EVERY_MINUTE, i)) == AllBits(fs[i], FieldLow(i), FieldHigh(i))
    {
      StarSetsAll(FieldLow(i), FieldHigh(i));
      EveryMinuteField(i);
    }
    SimpleText("* * * * *", ["*", "*", "*", "*", "*"], fs);
    TrimmedStays("* * * * *");
  }

  /** "* * * * *" matches every minute of all time. */
  lemma StarsMatchEveryMinute(m: int)
    ensures Matches(EVERY_MINUTE, m)
  {
    hide AllFrom, Members, FieldBits, CivilField, FieldLow, FieldHigh, Matches;
    forall i | 0 <= i < FIELD_COUNT
      ensures CivilField(m, i) in Members(FieldBits(EVERY_MINUTE, i))
    {
      EveryMinuteField(i);
      CivilFieldInRange(m, i);
      MembersOfAllFrom(FieldLow(i), FieldHigh(i));
    }
    MatchesByFields(EVERY_MINUTE, m);
  }

  /** A bitset parsed from a single value holds that value alone. */
  lemma SingleField(expr: string, c: CronExpr, i: nat, v: nat)
    requires Parses(expr, Ok(c)) && i < FIELD_COUNT && v < 64
    requires ReadCron(expr).Ok? && i < |ReadCron(expr).value| && ReadCron(expr).value[i] == Single(v)
    ensures forall x: nat :: x < 64 ==> (HasBit(FieldBits(c, i), x) <==> x == v)
  {
    ReadCronIsWellFormed(expr);
    hide ReadCron, HasBit;
    var ps := ReadCron(expr).value[i];
    assert Members(FieldBits(c, i)) == AllBits(ps, FieldLow(i), FieldHigh(i));
    assert ps[1..] == [];
    forall x: nat | x < 64
      ensures HasBit(FieldBits(c, i), x) <==> x == v
    {
      HasBitIsMembership(FieldBits(c, i), x);
    }
  }

  /** "0 0 30 2 *" is accepted, yet never found. */
  lemma February30TextFails(c: CronExpr, from: int)
    requires Parses("0 0 30 2 *", Ok(c))
    ensures ReadCron("0 0 30 2 *").Ok? && !Finds(c, from)
  {
    hide ReadCron, Digits, Writes, HasBit, Parses;
    SmallNumbers();
    SimpleText("0 0 30 2 *", ["0", "0", "30", "2", "*"], [Single(0), Single(0), Single(30), Single(2), STAR]);
    SingleField("0 0 30 2 *", c, 2, 30);
    SingleField("0 0 30 2 *", c, 3, 2);
    assert FieldBits(c, 2) == c.dayMonth && FieldBits(c, 3) == c.month;
    February30Fails(c, from);
  }

  /** "0 0 29 2 *" is accepted, yet not found from 1 March 2021. */
  lemma LeapDayTextFails(c: CronExpr)
    requires Parses("0 0 29 2 *", Ok(c))
    ensures ReadCron("0 0 29 2 *").Ok?
    ensures !Finds(c, DayOf(Date(2021, 3, 1)) * MINUTES_PER_DAY)
  {
    hide ReadCron, Digits, Writes, HasBit, Parses;
    SmallNumbers();
    SimpleText("0 0 29 2 *", ["0", "0", "29", "2", "*"], [Single(0), Single(0), Single(29), Single(2), STAR]);
    SingleField("0 0 29 2 *", c, 2, 29);
    SingleField("0 0 29 2 *", c, 3, 2);
    assert FieldBits(c, 2) == c.dayMonth && FieldBits(c, 3) == c.month;
    LeapDayAloneFails(c);
  }

  /** "0 0 13 * 5" is accepted, yet not found from 14 July 2001. */
  lemma FridayThe13thTextFails(c: CronExpr)
    requires Parses("0 0 13 * 5", Ok(c))
    ensures ReadCron("0 0 13 * 5").Ok?
    ensures !Finds(c, DayOf(Date(2001, 7, 14)) * MINUTES_PER_DAY)
  {
    hide ReadCron, Digits, Writes, HasBit, Parses;
    SmallNumbers();
    SimpleText("0 0 13 * 5", ["0", "0", "13", "*", "5"], [Single(0), Single(0), Single(13), STAR, Single(5)]);
    SingleField("0 0 13 * 5", c, 2, 13);
    SingleField("0 0 13 * 5", c, 4, 5);
    assert FieldBits(c, 2) == c.dayMonth && FieldBits(c, 4) == c.dayWeek;
    FridayThe13thFails(c);
  }
}
