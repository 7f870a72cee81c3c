/**
 The language of cron fields: what a comma-separated part denotes, how it is read, how it is printed,
 and when the bits computed for it are the set it denotes.
 */
module CronSyntax {
  import opened Text
  import opened Wrappers

  /** An optional `/n`. */
  datatype Stride = EachOne | By(n: int)

  /** `*`, `first-last` or a single value, each with its stride. */
  datatype Part =
    | Every(stride: Stride)
    | Range(first: int, last: int, stride: Stride)
    | One(value: int, stride: Stride)

  /** All of these are `ErrFieldRange` in Go, told apart by their message. */
  datatype FieldError =
    | InvalidStep(text: string)
    | InvalidRangeStart(text: string)
    | InvalidRangeEnd(text: string)
    | RangeOutside(first: int, last: int)
    | InvalidValue(text: string)
    | ValueOutside(value: int)

  function StepOf(s: Stride): int {
    match s
    case EachOne => 1
    case By(n) => n
  }

  predicate ValidStride(s: Stride) {
    1 <= StepOf(s) <= MAX_INT
  }

  predicate ValidPart(p: Part, lo: nat, hi: nat) {
    ValidStride(p.stride) &&
    match p
    case Every(_) => true
    case Range(first, last, _) => lo <= first <= last <= hi
    case One(value, _) => lo <= value <= hi
  }

  // ---------------------------------------------------------------- reading

  function ReadStride(text: string, hasStep: bool): Result<Stride, FieldError> {
    if !hasStep then Ok(EachOne)
    else
      match Atoi(text)
      case None => Err(InvalidStep(text))
      case Some(n) => if n <= 0 then Err(InvalidStep(text)) else Ok(By(n))
  }

  function ReadRange(first: string, last: string, lo: nat, hi: nat, stride: Stride): Result<Part, FieldError> {
    match Atoi(first)
    case None => Err(InvalidRangeStart(first))
    case Some(a) =>
      match Atoi(last)
      case None => Err(InvalidRangeEnd(last))
      case Some(b) => if a < lo || b > hi || a > b then Err(RangeOutside(a, b)) else Ok(Range(a, b, stride))
  }

  function ReadOne(text: string, lo: nat, hi: nat, stride: Stride): Result<Part, FieldError> {
    match Atoi(text)
    case None => Err(InvalidValue(text))
    case Some(v) => if v < lo || v > hi then Err(ValueOutside(v)) else Ok(One(v, stride))
  }

  /** The decisions of `parsePart`, in its order. */
  function ReadPart(part: string, lo: nat, hi: nat): Result<Part, FieldError> {
    var (rangeStr, stepStr, hasStep) := Cut(part, '/');
    match ReadStride(stepStr, hasStep)
    case Err(e) => Err(e)
    case Ok(stride) =>
      if rangeStr == "*" then Ok(Every(stride))
      else
        var (startStr, endStr, isRange) := Cut(rangeStr, '-');
        if isRange then ReadRange(startStr, endStr, lo, hi, stride) else ReadOne(rangeStr, lo, hi, stride)
  }

  function ReadParts(parts: seq<string>, lo: nat, hi: nat): Result<seq<Part>, FieldError> {
    if parts == [] then Ok([])
    else
      match ReadPart(parts[0], lo, hi)
      case Err(e) => Err(e)
      case Ok(p) =>
        match ReadParts(parts[1..], lo, hi)
        case Err(e) => Err(e)
        case Ok(ps) => Ok([p] + ps)
  }

  function ReadField(field: string, lo: nat, hi: nat): Result<seq<Part>, FieldError> {
    ReadParts(Split(field, ','), lo, hi)
  }

  predicate ValidParts(ps: seq<Part>, lo: nat, hi: nat) {
    forall i :: 0 <= i < |ps| ==> ValidPart(ps[i], lo, hi)
  }

  lemma {:induction false} ReadPartsAreValid(parts: seq<string>, lo: nat, hi: nat)
    requires ReadParts(parts, lo, hi).Ok?
    ensures |ReadParts(parts, lo, hi).value| == |parts|
    ensures ValidParts(ReadParts(parts, lo, hi).value, lo, hi)
  {
    if parts != [] {
      ReadPartIsValid(parts[0], lo, hi);
      ReadPartsAreValid(parts[1..], lo, hi);
      hide ReadPart, ValidPart;
    }
  }

  lemma ReadPartIsValid(part: string, lo: nat, hi: nat)
    ensures ReadPart(part, lo, hi).Ok? ==> ValidPart(ReadPart(part, lo, hi).value, lo, hi)
  {
    hide Atoi, Cut;
  }

  /** How a part without step or range is taken. */
  lemma ValueText(text: string, lo: nat, hi: nat)
    requires '/' !in text && '-' !in text && text != "*"
    ensures ReadPart(text, lo, hi) ==
              var v := Atoi(text);
              if v.None? then Err(InvalidValue(text))
              else if v.value < lo || hi < v.value then Err(ValueOutside(v.value))
              else Ok(One(v.value, EachOne))
  {
    hide Atoi, Cut;
    CutWithoutSeparator(text, '/');
    CutWithoutSeparator(text, '-');
  }

  /** How a range is taken: the first thing wrong with it decides. */
  lemma RangeText(first: string, last: string, lo: nat, hi: nat)
    requires '/' !in first && '/' !in last && '-' !in first
    ensures ReadPart(first + "-" + last, lo, hi) ==
              var (a, b) := (Atoi(first), Atoi(last));
              if a.None? then Err(InvalidRangeStart(first))
              else if b.None? then Err(InvalidRangeEnd(last))
              else if a.value < lo || hi < b.value || b.value < a.value then Err(RangeOutside(a.value, b.value))
              else Ok(Range(a.value, b.value, EachOne))
  {
    hide Atoi, Cut;
    var text := first + "-" + last;
    assert '/' !in text && text[|first|] == '-';
    CutWithoutSeparator(text, '/');
    CutAtSeparator(first, '-', last);
  }

  /** A step must be a positive number; it is looked at first, and else changes only the stride. */
  lemma StepText(head: string, step: string, lo: nat, hi: nat)
    requires '/' !in head
    ensures ReadPart(head + "/" + step, lo, hi) ==
              var (n, read) := (Atoi(step), ReadPart(head, lo, hi));
              if n.None? || n.value <= 0 then Err(InvalidStep(step))
              else if read.Err? then Err(read.error)
              else Ok(read.value.(stride := By(n.value)))
  {
    hide Atoi, Cut;
    CutAtSeparator(head, '/', step);
    CutWithoutSeparator(head, '/');
  }

  /** A star alone. */
  lemma StarText(lo: nat, hi: nat)
    ensures ReadPart("*", lo, hi) == Ok(Every(EachOne))
  {
    CutWithoutSeparator("*", '/');
  }

  /** The first malformed part of a field decides; if none is, the field is its parts. */
  lemma FieldOfParts(parts: seq<string>, lo: nat, hi: nat)
    requires parts != [] && forall i :: 0 <= i < |parts| ==> ',' !in parts[i]
    ensures var read := ReadField(Join(parts, ','), lo, hi);
            if read.Err? then
              exists k: nat :: k < |parts| && ReadPart(parts[k], lo, hi) == Err(read.error)
                               && forall i :: 0 <= i < k ==> ReadPart(parts[i], lo, hi).Ok?
            else
              |read.value| == |parts| && forall i :: 0 <= i < |parts| ==> ReadPart(parts[i], lo, hi) == Ok(read.value[i])
  {
    SplitOfJoin(parts, ',');
    FirstBadPart(parts, lo, hi);
  }

  lemma {:induction false} FirstBadPart(parts: seq<string>, lo: nat, hi: nat)
    ensures var read := ReadParts(parts, lo, hi);
            if read.Err? then
              exists k: nat :: k < |parts| && ReadPart(parts[k], lo, hi) == Err(read.error)
                               && forall i :: 0 <= i < k ==> ReadPart(parts[i], lo, hi).Ok?
            else
              |read.value| == |parts| && forall i :: 0 <= i < |parts| ==> ReadPart(parts[i], lo, hi) == Ok(read.value[i])
  {
    hide ReadPart;
    if parts != [] {
      FirstBadPart(parts[1..], lo, hi);
      var rest := ReadParts(parts[1..], lo, hi);
      if ReadPart(parts[0], lo, hi).Ok? && rest.Err? {
        var k: nat :| k < |parts[1..]| && ReadPart(parts[1..][k], lo, hi) == Err(rest.error)
                      && forall i :: 0 <= i < k ==> ReadPart(parts[1..][i], lo, hi).Ok?;
        assert parts[k + 1] == parts[1..][k];
        forall i | 0 <= i < k + 1
          ensures ReadPart(parts[i], lo, hi).Ok?
        {
          if i > 0 { assert parts[i] == parts[1..][i - 1]; }
        }
      }
    }
  }

  // --------------------------------------------------------------- denoting

  /** `v` is a whole number of steps away from `first`. */
  predicate OnStep(v: int, first: int, step: int)
    requires step >= 1
  {
    (v - first) % step == 0
  }

  function Stepped(first: int, last: int, step: int): set<int>
    requires step >= 1
  {
    set v | first <= v <= last && OnStep(v, first, step)
  }

  /** What the documented syntax means; a stride on a single value has no effect. */
  function Denotes(p: Part, lo: nat, hi: nat): set<int>
    requires ValidPart(p, lo, hi)
  {
    match p
    case Every(s) => Stepped(lo, hi, StepOf(s))
    case Range(first, last, s) => Stepped(first, last, StepOf(s))
    case One(value, _) => {value}
  }

  // ------------------------------------------------ the loop that sets the bits

  /** Addition of Go's 64-bit `int`. */
  function WrapAdd(a: int, b: int): (r: int)
    requires MIN_INT <= a <= MAX_INT && MIN_INT <= b <= MAX_INT
    ensures MIN_INT <= r <= MAX_INT
  {
    if a + b > MAX_INT then a + b - 0x1_0000_0000_0000_0000
    else if a + b < MIN_INT then a + b + 0x1_0000_0000_0000_0000
    else a + b
  }

  /** `safeUint` */
  function SafeUint(v: int): nat {
    if v < 0 then 0 else v
  }

  /**
   Strictly decreases along `v += step` while `v <= last`, even when the addition wraps around: a wrap
   leads below zero, and the next addition leads back to less than before.
   */
  function LoopRank(v: int, last: nat, step: int): nat
    requires MIN_INT <= v <= MAX_INT && last < 64 && 1 <= step <= MAX_INT
  {
    if v > last then 0
    else if step < MAX_INT - 64 then last - v + 1
    else if v >= 1 then 2 * v + 1
    else if v + step > last then 1
    else 2 * SafeUint(v + step) + 2
  }

  /** The positions set by `for v := v; v <= last; v += step { setBit(bits, safeUint(v)) }`. */
  function LoopBits(v: int, last: nat, step: int): (r: set<int>)
    requires MIN_INT <= v <= MAX_INT && last < 64 && 1 <= step <= MAX_INT
    ensures forall b <- r :: 0 <= b <= last
    decreases LoopRank(v, last, step)
  {
    if v > last then {} else {SafeUint(v)} + LoopBits(WrapAdd(v, step), last, step)
  }

  /** The stepped range is its first value and the range stepped once. */
  lemma SteppedUnfolds(first: int, last: int, step: int)
    requires first <= last && step >= 1
    ensures Stepped(first, last, step) == {first} + Stepped(first + step, last, step)
  {
    forall x | first <= x <= last
      ensures OnStep(x, first, step) <==> x == first || (first + step <= x && OnStep(x, first + step, step))
    {
      MultipleOfStep(x - first, step);
    }
  }

  lemma MultipleOfStep(n: nat, step: int)
    requires step >= 1
    ensures n % step == 0 <==> n == 0 || (step <= n && (n - step) % step == 0)
  {
    if n >= step {
      var q, r := n / step, n % step;
      assert n - step == (q - 1) * step + r;
      ModuloIsUnique(n - step, step, q - 1, r);
    } else {
      ModuloIsUnique(n, step, 0, n);
    }
  }

  lemma ModuloIsUnique(n: int, k: int, q: int, r: int)
    requires k > 0 && n == q * k + r && 0 <= r < k
    ensures n % k == r
  {
    var q', r' := n / k, n % k;
    assert n == q' * k + r' && 0 <= r' < k;
    Multiples(q - q', k, r' - r);
  }

  lemma Multiples(q: int, k: int, r: int)
    requires k > 0 && q * k == r && -k < r < k
    ensures q == 0
  {
  }

  lemma {:induction false} LoopBitsWithoutWrap(v: int, last: nat, step: int)
    requires 0 <= v <= MAX_INT && last < 64 && 1 <= step < MAX_INT - 64
    ensures LoopBits(v, last, step) == Stepped(v, last, step)
    decreases last - v + 1
  {
    hide Stepped;
    if v <= last {
      SteppedUnfolds(v, last, step);
      LoopBitsWithoutWrap(v + step, last, step);
    } else {
      SteppedBeyond(v, last, step);
    }
  }

  lemma SteppedBeyond(v: int, last: int, step: int)
    requires v > last && step >= 1
    ensures Stepped(v, last, step) == {}
  {
  }

  /**
   The loop sets exactly the stepped range if and only if its first addition stays inside an int64.
   Once it wraps, bit 0 is set although the range starts above 0.
   */
  lemma LoopBitsExact(first: nat, last: nat, step: int)
    requires first <= last < 64 && 1 <= step <= MAX_INT
    ensures LoopBits(first, last, step) == Stepped(first, last, step) <==> first + step <= MAX_INT
  {
    if step < MAX_INT - 64 {
      LoopBitsWithoutWrap(first, last, step);
    } else {
      SteppedUnfolds(first, last, step);
      SteppedBeyond(first + step, last, step);
      LoopBitsHugeStep(first, last, step);
    }
  }

  lemma LoopBitsHugeStep(first: nat, last: nat, step: int)
    requires first <= last < 64 && MAX_INT - 64 <= step <= MAX_INT
    ensures first + step <= MAX_INT ==> LoopBits(first, last, step) == {first as int}
    ensures first + step > MAX_INT ==> 0 in LoopBits(first, last, step) && first != 0
  {
    var next := WrapAdd(first, step);
    assert LoopBits(first, last, step) == {SafeUint(first)} + LoopBits(next, last, step);
    if first + step > MAX_INT {
      assert LoopBits(next, last, step) == {SafeUint(next)} + LoopBits(WrapAdd(next, step), last, step);
    }
  }

  /** The positions that parsing a part sets. */
  function BitsOf(p: Part, lo: nat, hi: nat): set<int>
    requires ValidPart(p, lo, hi) && lo <= hi < 64
  {
    match p
    case Every(s) => LoopBits(lo, hi, StepOf(s))
    case Range(first, last, s) => LoopBits(first, last, StepOf(s))
    case One(value, _) => {value}
  }

  /** The stepping of this part never leaves the range of an int64. */
  predicate StepFits(p: Part, lo: nat) {
    match p
    case Every(s) => lo + StepOf(s) <= MAX_INT
    case Range(first, _, s) => first + StepOf(s) <= MAX_INT
    case One(_, _) => true
  }

  /** A part's bits are the set it denotes if and only if its stepping fits an int64. */
  lemma PartBitsExact(p: Part, lo: nat, hi: nat)
    requires ValidPart(p, lo, hi) && lo <= hi < 64
    ensures BitsOf(p, lo, hi) == Denotes(p, lo, hi) <==> StepFits(p, lo)
  {
    match p
    case Every(s) => LoopBitsExact(lo, hi, StepOf(s));
    case Range(first, last, s) => LoopBitsExact(first, last, StepOf(s));
    case One(_, _) =>
  }

  function AllBits(ps: seq<Part>, lo: nat, hi: nat): set<int>
    requires ValidParts(ps, lo, hi) && lo <= hi < 64
  {
    if ps == [] then {} else BitsOf(ps[0], lo, hi) + AllBits(ps[1..], lo, hi)
  }

  function AllDenoted(ps: seq<Part>, lo: nat, hi: nat): set<int>
    requires ValidParts(ps, lo, hi)
  {
    if ps == [] then {} else Denotes(ps[0], lo, hi) + AllDenoted(ps[1..], lo, hi)
  }

  lemma DenotedInRange(p: Part, lo: nat, hi: nat)
    requires ValidPart(p, lo, hi)
    ensures forall v <- Denotes(p, lo, hi) :: lo <= v <= hi
  {
  }

  /** The first value of a part is always among its bits. */
  lemma PartNotEmpty(p: Part, lo: nat, hi: nat)
    requires ValidPart(p, lo, hi) && lo <= hi < 64
    ensures (if p.Every? then lo else if p.Range? then p.first else p.value) in BitsOf(p, lo, hi)
  {
  }

  /** A field whose steps all fit sets exactly the union of what its parts denote, inside [lo, hi]. */
  lemma {:induction false} FieldBitsExact(ps: seq<Part>, lo: nat, hi: nat)
    requires ValidParts(ps, lo, hi) && lo <= hi < 64
    requires forall i :: 0 <= i < |ps| ==> StepFits(ps[i], lo)
    ensures AllBits(ps, lo, hi) == AllDenoted(ps, lo, hi)
    ensures forall v <- AllBits(ps, lo, hi) :: lo <= v <= hi
  {
    if ps != [] {
      PartBitsExact(ps[0], lo, hi);
      DenotedInRange(ps[0], lo, hi);
      FieldBitsExact(ps[1..], lo, hi);
    }
  }

  /** A wrapped part sets bit 0, wherever it starts. */
  lemma WrappedPartSetsZero(p: Part, lo: nat, hi: nat)
    requires ValidPart(p, lo, hi) && lo <= hi < 64 && !StepFits(p, lo)
    ensures 0 in BitsOf(p, lo, hi)
  {
    match p
    case Every(s) => LoopBitsHugeStep(lo, hi, StepOf(s));
    case Range(first, last, s) => LoopBitsHugeStep(first, last, StepOf(s));
  }

  lemma {:induction false} WrappedFieldSetsZero(ps: seq<Part>, i: nat, lo: nat, hi: nat)
    requires ValidParts(ps, lo, hi) && lo <= hi < 64 && i < |ps| && !StepFits(ps[i], lo)
    ensures 0 in AllBits(ps, lo, hi)
  {
    hide StepFits, BitsOf, ValidPart;
    if i == 0 {
      WrappedPartSetsZero(ps[0], lo, hi);
    } else {
      WrappedFieldSetsZero(ps[1..], i - 1, lo, hi);
    }
  }

  lemma {:induction false} AllDenotedInRange(ps: seq<Part>, lo: nat, hi: nat)
    requires ValidParts(ps, lo, hi)
    ensures forall v <- AllDenoted(ps, lo, hi) :: lo <= v <= hi
  {
    if ps != [] {
      DenotedInRange(ps[0], lo, hi);
      AllDenotedInRange(ps[1..], lo, hi);
    }
  }

  /** Days of month and months start at 1: such a field is exact if and only if every step fits. */
  lemma FieldBitsExactFromOne(ps: seq<Part>, lo: nat, hi: nat)
    requires ValidParts(ps, lo, hi) && 1 <= lo <= hi < 64
    ensures AllBits(ps, lo, hi) == AllDenoted(ps, lo, hi) <==> forall i :: 0 <= i < |ps| ==> StepFits(ps[i], lo)
  {
    hide StepFits, AllBits, AllDenoted, ValidPart;
    if forall i :: 0 <= i < |ps| ==> StepFits(ps[i], lo) {
      FieldBitsExact(ps, lo, hi);
    } else {
      var i :| 0 <= i < |ps| && !StepFits(ps[i], lo);
      WrappedFieldSetsZero(ps, i, lo, hi);
      AllDenotedInRange(ps, lo, hi);
    }
  }

  /** A field always sets some bit between lo and hi, wrapped or not, and none above hi. */
  lemma {:induction false} FieldBitsBounds(ps: seq<Part>, lo: nat, hi: nat)
    requires ValidParts(ps, lo, hi) && lo <= hi < 64
    ensures forall v <- AllBits(ps, lo, hi) :: 0 <= v <= hi
    ensures ps != [] ==> exists v :: v in AllBits(ps, lo, hi) && lo <= v <= hi
  {
    if ps != [] {
      FieldBitsBounds(ps[1..], lo, hi);
      var p := ps[0];
      var v := if p.Every? then lo else if p.Range? then p.first else p.value;
      PartNotEmpty(p, lo, hi);
      assert v in AllBits(ps, lo, hi) && lo <= v <= hi;
    }
  }

  // --------------------------------------------------------------- printing

  function PrintStride(s: Stride): string
    requires ValidStride(s)
  {
    match s
    case EachOne => ""
    case By(n) => "/" + Digits(n)
  }

  function PrintHead(p: Part, lo: nat, hi: nat): string
    requires ValidPart(p, lo, hi)
  {
    match p
    case Every(_) => "*"
    case Range(first, last, _) => Digits(first) + "-" + Digits(last)
    case One(value, _) => Digits(value)
  }

  function PrintPart(p: Part, lo: nat, hi: nat): string
    requires ValidPart(p, lo, hi)
  {
    PrintHead(p, lo, hi) + PrintStride(p.stride)
  }

  function PrintParts(ps: seq<Part>, lo: nat, hi: nat): (r: seq<string>)
    requires ValidParts(ps, lo, hi)
    ensures |r| == |ps|
  {
    if ps == [] then [] else [PrintPart(ps[0], lo, hi)] + PrintParts(ps[1..], lo, hi)
  }

  function PrintField(ps: seq<Part>, lo: nat, hi: nat): string
    requires ps != [] && ValidParts(ps, lo, hi)
  {
    Join(PrintParts(ps, lo, hi), ',')
  }

  predicate PartChar(c: char) {
    IsDigit(c) || c == '*' || c == '-' || c == '/'
  }

  lemma PrintedPartChars(p: Part, lo: nat, hi: nat)
    requires ValidPart(p, lo, hi)
    ensures PrintPart(p, lo, hi) != ""
    ensures forall c <- PrintPart(p, lo, hi) :: PartChar(c)
    ensures '/' !in PrintHead(p, lo, hi)
  {
    DigitsAreDigits();
  }

  lemma DigitsAreDigits()
    ensures forall n: nat {:trigger Digits(n)} :: forall c <- Digits(n) :: IsDigit(c)
  {
  }

  lemma HeadIsRead(p: Part, lo: nat, hi: nat)
    requires ValidPart(p, lo, hi) && hi < 64
    ensures var head := PrintHead(p, lo, hi);
            var (a, b, isRange) := Cut(head, '-');
            && (head == "*" <==> p.Every?)
            && (p.Range? ==> isRange && Atoi(a) == Some(p.first) && Atoi(b) == Some(p.last))
            && (p.One? ==> !isRange && Atoi(head) == Some(p.value))
  {
    DigitsAreDigits();
    match p
    case Every(_) =>
    case Range(first, last, _) =>
      AtoiOfDigits(first);
      AtoiOfDigits(last);
      CutAtSeparator(Digits(first), '-', Digits(last));
    case One(value, _) =>
      AtoiOfDigits(value);
      CutWithoutSeparator(Digits(value), '-');
      assert value >= 10 || Digits(value) == [DigitChar(value)];
  }

  /** Reading undoes printing, part by part. */
  lemma PartRoundTrip(p: Part, lo: nat, hi: nat)
    requires ValidPart(p, lo, hi) && hi < 64
    ensures ReadPart(PrintPart(p, lo, hi), lo, hi) == Ok(p)
  {
    hide PrintHead, Atoi, Cut;
    var head := PrintHead(p, lo, hi);
    PrintedPartChars(p, lo, hi);
    HeadIsRead(p, lo, hi);
    match p.stride
    case EachOne =>
      assert PrintPart(p, lo, hi) == head;
      CutWithoutSeparator(head, '/');
    case By(n) =>
      assert PrintPart(p, lo, hi) == head + ['/'] + Digits(n);
      CutAtSeparator(head, '/', Digits(n));
      AtoiOfDigits(n);
  }

  lemma {:induction false} PartsRoundTrip(ps: seq<Part>, lo: nat, hi: nat)
    requires ValidParts(ps, lo, hi) && hi < 64
    ensures ReadParts(PrintParts(ps, lo, hi), lo, hi) == Ok(ps)
    ensures forall i :: 0 <= i < |ps| ==> PrintParts(ps, lo, hi)[i] == PrintPart(ps[i], lo, hi)
  {
    hide PrintPart, ReadPart, ValidPart;
    if ps != [] {
      PartRoundTrip(ps[0], lo, hi);
      PartsRoundTrip(ps[1..], lo, hi);
      assert PrintParts(ps, lo, hi)[1..] == PrintParts(ps[1..], lo, hi);
      assert [ps[0]] + ps[1..] == ps;
    }
  }

  /** Every list of valid parts is read back from its printed form. */
  lemma FieldRoundTrip(ps: seq<Part>, lo: nat, hi: nat)
    requires ps != [] && ValidParts(ps, lo, hi) && hi < 64
    ensures ReadField(PrintField(ps, lo, hi), lo, hi) == Ok(ps)
  {
    PartsRoundTrip(ps, lo, hi);
    forall i | 0 <= i < |ps|
      ensures ',' !in PrintParts(ps, lo, hi)[i]
    {
      PrintedPartChars(ps[i], lo, hi);
    }
    SplitOfJoin(PrintParts(ps, lo, hi), ',');
  }

  /** A printed field is one word of digits and the signs of the syntax. */
  lemma {:induction false} PrintedFieldIsWord(ps: seq<Part>, lo: nat, hi: nat)
    requires ps != [] && ValidParts(ps, lo, hi)
    ensures var f := PrintField(ps, lo, hi);
            f != "" && forall i :: 0 <= i < |f| ==> PartChar(f[i]) || f[i] == ','
    decreases |ps|
  {
    var first := PrintPart(ps[0], lo, hi);
    PrintedPartChars(ps[0], lo, hi);
    assert forall i :: 0 <= i < |first| ==> first[i] in first;
    assert PrintParts(ps, lo, hi)[0] == first;
    if |ps| > 1 {
      assert PrintParts(ps, lo, hi)[1..] == PrintParts(ps[1..], lo, hi);
      PrintedFieldIsWord(ps[1..], lo, hi);
      assert PrintField(ps, lo, hi) == first + [','] + PrintField(ps[1..], lo, hi);
    }
  }
}
