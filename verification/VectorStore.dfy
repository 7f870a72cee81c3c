/**
 The in-memory vector store: exhaustive cosine search over a map of embeddings.

 Scores are real numbers. The square root is a parameter, characterised by what it squares to.
 */
module VectorMemory {
  import opened Wrappers

  /** An entry as stored: its embedding is a slice, shared by whoever holds the entry. */
  datatype VectorEntry = VectorEntry(id: string, embedding: array<real>, payload: string, storedAt: int)

  /** An entry by value. */
  datatype Item = Item(embedding: seq<real>, payload: string, storedAt: int)

  datatype MemoryResult = MemoryResult(id: string, payload: string, score: real)

  ghost predicate IsSqrt(sqrt: real -> real) {
    forall x: real :: x >= 0.0 ==> sqrt(x) >= 0.0 && sqrt(x) * sqrt(x) == x
  }

  // ------------------------------------------------------------ cosine similarity

  function Dot(a: seq<real>, b: seq<real>): real
    requires |a| == |b|
  {
    if a == [] then 0.0 else Dot(a[..|a| - 1], b[..|b| - 1]) + a[|a| - 1] * b[|b| - 1]
  }

  function Norm(a: seq<real>): real {
    Dot(a, a)
  }

  lemma {:induction false} NormNotNegative(a: seq<real>)
    ensures Norm(a) >= 0.0
  {
    if a != [] {
      NormNotNegative(a[..|a| - 1]);
      SquareNotNegative(a[|a| - 1]);
    }
  }

  lemma SquareNotNegative(x: real)
    ensures x * x >= 0.0
  {
    if x < 0.0 {
      assert x * x == (-x) * (-x);
    }
  }

  lemma RootIsPositive(sqrt: real -> real, x: real)
    requires IsSqrt(sqrt) && x > 0.0
    ensures sqrt(x) > 0.0
  {
    assert sqrt(x) * sqrt(x) == x;
  }

  lemma Positive(x: real, y: real)
    requires x > 0.0 && y > 0.0
    ensures x * y > 0.0
  {
  }

  function Ratio(d: real, r: real, s: real): real
    requires r > 0.0 && s > 0.0
  {
    Positive(r, s);
    d / (r * s)
  }

  function Cosine(a: seq<real>, b: seq<real>, sqrt: real -> real): real
    requires |a| == |b| && IsSqrt(sqrt)
  {
    if Norm(a) == 0.0 || Norm(b) == 0.0 then 0.0
    else
      NormNotNegative(a);
      NormNotNegative(b);
      RootIsPositive(sqrt, Norm(a));
      RootIsPositive(sqrt, Norm(b));
      Ratio(Dot(a, b), sqrt(Norm(a)), sqrt(Norm(b)))
  }

  /** `cosineSimilarity`, accumulating the three sums in one pass. */
  method CosineSimilarity(a: array<real>, b: array<real>, sqrt: real -> real) returns (score: real)
    requires a.Length == b.Length && IsSqrt(sqrt)
    ensures score == Cosine(a[..], b[..], sqrt)
  {
    var dot, normA, normB := 0.0, 0.0, 0.0;
    for i := 0 to a.Length
      invariant dot == Dot(a[..i], b[..i]) && normA == Norm(a[..i]) && normB == Norm(b[..i])
    {
      dot := dot + a[i] * b[i];
      normA := normA + a[i] * a[i];
      normB := normB + b[i] * b[i];
      assert a[..i + 1][..i] == a[..i] && b[..i + 1][..i] == b[..i];
    }
    assert a[..a.Length] == a[..] && b[..a.Length] == b[..];
    if normA == 0.0 || normB == 0.0 { return 0.0; }
    NormNotNegative(a[..]);
    NormNotNegative(b[..]);
    RootIsPositive(sqrt, normA);
    RootIsPositive(sqrt, normB);
    score := dot / (sqrt(normA) * sqrt(normB));
  }

  // ------------------------------------------------------------- Cauchy-Schwarz

  lemma SquaresCompare(x: real, y: real)
    requires x * x <= y * y && y >= 0.0
    ensures -y <= x <= y
  {
    if x > y {
      SquareGrows(x, y);
    } else if x < -y {
      SquareGrows(-x, y);
    }
  }

  lemma SquareGrows(x: real, y: real)
    requires x > y >= 0.0
    ensures x * x > y * y
  {
    assert x * (x - y) > 0.0 && y * (x - y) >= 0.0;
    assert x * x - y * y == x * (x - y) + y * (x - y);
  }

  /** Twice the cross term is at most the mixed squares. */
  lemma CrossTerm(d: real, n: real, m: real, a: real, b: real)
    requires d * d <= n * m && n >= 0.0 && m >= 0.0
    ensures 2.0 * d * (a * b) <= n * (b * b) + m * (a * a)
  {
    var p, q := n * (b * b), m * (a * a);
    SquareNotNegative(a);
    SquareNotNegative(b);
    assert p >= 0.0 && q >= 0.0;
    var x, y := 2.0 * d * (a * b), p + q;
    var s := (a * b) * (a * b);
    SquareNotNegative(a * b);
    assert x * x == 4.0 * (d * d) * s;
    assert p * q == (n * m) * s;
    Scale(d * d, n * m, s);
    SquareNotNegative(p - q);
    assert (p - q) * (p - q) == y * y - 4.0 * (p * q);
    SquaresCompare(x, y);
  }

  lemma Scale(x: real, y: real, s: real)
    requires x <= y && s >= 0.0
    ensures x * s <= y * s
  {
  }

  /** For vectors of every length the accumulated sums satisfy dot * dot <= normA * normB. */
  lemma {:induction false} CauchySchwarz(a: seq<real>, b: seq<real>)
    requires |a| == |b|
    ensures Dot(a, b) * Dot(a, b) <= Norm(a) * Norm(b)
  {
    if a != [] {
      var a', b' := a[..|a| - 1], b[..|b| - 1];
      var x, y := a[|a| - 1], b[|b| - 1];
      CauchySchwarz(a', b');
      NormNotNegative(a');
      NormNotNegative(b');
      CrossTerm(Dot(a', b'), Norm(a'), Norm(b'), x, y);
      Expand(Dot(a', b'), Norm(a'), Norm(b'), x, y);
    }
  }

  lemma Expand(d: real, n: real, m: real, x: real, y: real)
    requires d * d <= n * m && 2.0 * d * (x * y) <= n * (y * y) + m * (x * x)
    ensures (d + x * y) * (d + x * y) <= (n + x * x) * (m + y * y)
  {
    var p := x * y;
    assert (d + p) * (d + p) == d * d + 2.0 * d * p + p * p;
    assert p * p == (x * x) * (y * y) by { Regroup(x, y); }
    var u, v := x * x, y * y;
    assert (n + u) * (m + v) == n * m + n * v + u * m + u * v;
  }

  lemma Regroup(x: real, y: real)
    ensures (x * y) * (x * y) == (x * x) * (y * y)
  {
    calc {
      (x * y) * (x * y);
      x * (y * (x * y));
      x * ((y * x) * y);
      x * ((x * y) * y);
      x * (x * (y * y));
      (x * x) * (y * y);
    }
  }

  /** A score always lies between -1 and 1. */
  lemma {:induction false} ScoreInRange(a: seq<real>, b: seq<real>, sqrt: real -> real)
    requires |a| == |b| && IsSqrt(sqrt)
    ensures -1.0 <= Cosine(a, b, sqrt) <= 1.0
  {
    if Norm(a) != 0.0 && Norm(b) != 0.0 {
      CauchySchwarz(a, b);
      NormNotNegative(a);
      NormNotNegative(b);
      RootIsPositive(sqrt, Norm(a));
      RootIsPositive(sqrt, Norm(b));
      hide Dot, Ratio;
      RatioInRange(Dot(a, b), Norm(a), Norm(b), sqrt(Norm(a)), sqrt(Norm(b)));
    }
  }

  lemma RatioInRange(d: real, n: real, m: real, r: real, s: real)
    requires r > 0.0 && s > 0.0 && r * r == n && s * s == m && d * d <= n * m
    ensures -1.0 <= Ratio(d, r, s) <= 1.0
  {
    Regroup(r, s);
    Positive(r, s);
    SquaresCompare(d, r * s);
    Quotient(d, r * s);
  }

  lemma Quotient(x: real, y: real)
    requires y > 0.0 && -y <= x <= y
    ensures -1.0 <= x / y <= 1.0
  {
    var q := x / y;
    assert q * y == x;
    if q > 1.0 {
      Grows(q, y);
    } else if q < -1.0 {
      Grows(-q, y);
    }
  }

  lemma Grows(q: real, y: real)
    requires q > 1.0 && y > 0.0
    ensures q * y > y
  {
  }

  /** A vector that is not zero is as similar to itself as can be. */
  lemma SelfScore(a: seq<real>, sqrt: real -> real)
    requires IsSqrt(sqrt) && Norm(a) != 0.0
    ensures Cosine(a, a, sqrt) == 1.0
  {
    NormNotNegative(a);
    RootIsPositive(sqrt, Norm(a));
    var n, r := Norm(a), sqrt(Norm(a));
    assert r * r == n;
    assert Cosine(a, a, sqrt) == Dot(a, a) / (r * r);
    DivideBySelf(n);
  }

  lemma DivideBySelf(n: real)
    requires n != 0.0
    ensures n / n == 1.0
  {
  }

  // ------------------------------------------------------ what a score measures

  lemma {:induction false} DotOfLast(a: seq<real>, b: seq<real>)
    requires |a| == |b| > 0
    ensures var n := |a| - 1; Dot(a, b) == Dot(a[..n], b[..n]) + a[n] * b[n]
  {
  }

  /** One more component adds the product of the two; this and the empty vectors determine every dot product. */
  lemma {:induction false} DotAppend(a: seq<real>, b: seq<real>, x: real, y: real)
    requires |a| == |b|
    ensures Dot([], []) == 0.0 && Dot(a + [x], b + [y]) == Dot(a, b) + x * y
  {
    assert Dot([], []) == 0.0;
    DotOfLast(a + [x], b + [y]);
    hide Dot;
    assert (a + [x])[..|a|] == a && (b + [y])[..|b|] == b;
    assert (a + [x])[|a|] == x && (b + [y])[|b|] == y;
  }

  /** Vectors that share no component have score 0. */
  lemma {:induction false} NothingShared(a: seq<real>, b: seq<real>)
    requires |a| == |b| && forall i :: 0 <= i < |a| ==> a[i] == 0.0 || b[i] == 0.0
    ensures Dot(a, b) == 0.0
  {
    if a != [] {
      NothingShared(a[..|a| - 1], b[..|b| - 1]);
    }
  }

  lemma OrthogonalScore(a: seq<real>, b: seq<real>, sqrt: real -> real)
    requires |a| == |b| && IsSqrt(sqrt)
    requires forall i :: 0 <= i < |a| ==> a[i] == 0.0 || b[i] == 0.0
    ensures Cosine(a, b, sqrt) == 0.0
  {
    NothingShared(a, b);
    hide Dot;
    if Norm(a) != 0.0 && Norm(b) != 0.0 {
      NormNotNegative(a);
      NormNotNegative(b);
      RootIsPositive(sqrt, Norm(a));
      RootIsPositive(sqrt, Norm(b));
      ZeroRatio(sqrt(Norm(a)), sqrt(Norm(b)));
    }
  }

  lemma ZeroRatio(r: real, s: real)
    requires r > 0.0 && s > 0.0
    ensures Ratio(0.0, r, s) == 0.0
  {
  }

  function Times(k: real, x: real): real {
    k * x
  }

  function Scaled(a: seq<real>, k: real): (r: seq<real>)
    ensures |r| == |a|
  {
    seq(|a|, i requires 0 <= i < |a| => Times(k, a[i]))
  }

  lemma ScaledPrefix(a: seq<real>, k: real, n: nat)
    requires n <= |a|
    ensures Scaled(a, k)[..n] == Scaled(a[..n], k)
  {
    hide Times;
  }

  lemma {:induction false} DotCommutes(a: seq<real>, b: seq<real>)
    requires |a| == |b|
    ensures Dot(a, b) == Dot(b, a)
  {
    if a != [] {
      var n := |a| - 1;
      DotOfLast(a, b);
      DotOfLast(b, a);
      DotCommutes(a[..n], b[..n]);
      hide Dot;
      assert a[n] * b[n] == b[n] * a[n];
    }
  }

  lemma {:induction false} DotOfScaledLeft(a: seq<real>, b: seq<real>, k: real)
    requires |a| == |b|
    ensures Dot(Scaled(a, k), b) == k * Dot(a, b)
  {
    if a != [] {
      var n := |a| - 1;
      DotOfScaledLeft(a[..n], b[..n], k);
      ScaledPrefix(a, k, n);
      DotOfLast(a, b);
      DotOfLast(Scaled(a, k), b);
      assert Scaled(a, k)[n] == Times(k, a[n]);
      hide Dot, Times, Scaled;
      TimesDistributes(k, Dot(a[..n], b[..n]), a[n], b[n]);
    }
  }

  lemma {:induction false} DotOfScaled(a: seq<real>, b: seq<real>, k: real)
    requires |a| == |b|
    ensures Dot(Scaled(a, k), b) == k * Dot(a, b) && Dot(a, Scaled(b, k)) == k * Dot(a, b)
  {
    DotOfScaledLeft(a, b, k);
    DotOfScaledLeft(b, a, k);
    hide Dot, Scaled;
    DotCommutes(a, b);
    DotCommutes(a, Scaled(b, k));
  }

  lemma TimesDistributes(k: real, d: real, x: real, y: real)
    ensures k * d + Times(k, x) * y == k * (d + x * y)
  {
    Distributes(k, d, x, y);
  }

  lemma Distributes(k: real, d: real, x: real, y: real)
    ensures k * d + (k * x) * y == k * (d + x * y) && k * d + x * (k * y) == k * (d + x * y)
  {
    assert (k * x) * y == k * (x * y) && x * (k * y) == k * (x * y);
  }

  lemma RootsAreUnique(x: real, y: real)
    requires x >= 0.0 && y >= 0.0 && x * x == y * y
    ensures x == y
  {
    SquaresCompare(x, y);
    SquaresCompare(y, x);
  }

  /** The length of a scaled vector, for a positive factor. */
  lemma RootOfScaled(a: seq<real>, k: real, sqrt: real -> real)
    requires IsSqrt(sqrt) && k > 0.0 && Norm(a) > 0.0
    ensures Norm(Scaled(a, k)) == k * (k * Norm(a)) && Norm(Scaled(a, k)) > 0.0
    ensures sqrt(Norm(Scaled(a, k))) == k * sqrt(Norm(a))
  {
    DotOfScaled(a, Scaled(a, k), k);
    DotOfScaled(a, a, k);
    hide Dot;
    var n := Norm(a);
    assert Norm(Scaled(a, k)) == k * (k * n);
    Positive(k, n);
    Positive(k, k * n);
    RootOfProduct(k, n, sqrt);
  }

  lemma RootOfProduct(k: real, n: real, sqrt: real -> real)
    requires IsSqrt(sqrt) && k > 0.0 && n > 0.0 && k * (k * n) > 0.0
    ensures sqrt(k * (k * n)) == k * sqrt(n)
  {
    var r, m := sqrt(n), k * (k * n);
    var root := sqrt(m);
    assert root >= 0.0 && root * root == m && r * r == n;
    RootIsPositive(sqrt, n);
    Positive(k, r);
    SquareOfProduct(k, r);
    assert (k * r) * (k * r) == k * (k * n);
    RootsAreUnique(root, k * r);
  }

  lemma SquareOfProduct(k: real, r: real)
    ensures (k * r) * (k * r) == k * (k * (r * r))
  {
    calc {
      (k * r) * (k * r);
      k * (r * (k * r));
      k * ((r * k) * r);
      k * ((k * r) * r);
      k * (k * (r * r));
    }
  }

  /** Scores do not depend on length: scaling a vector by a positive factor leaves them as they are. */
  lemma ScaledScore(a: seq<real>, b: seq<real>, k: real, sqrt: real -> real)
    requires |a| == |b| && IsSqrt(sqrt) && k > 0.0
    ensures Cosine(Scaled(a, k), b, sqrt) == Cosine(a, b, sqrt)
  {
    NormNotNegative(a);
    NormNotNegative(b);
    if Norm(a) == 0.0 {
      DotOfScaled(a, Scaled(a, k), k);
      DotOfScaled(a, a, k);
    } else if Norm(b) != 0.0 {
      RootOfScaled(a, k, sqrt);
      RootIsPositive(sqrt, Norm(a));
      RootIsPositive(sqrt, Norm(b));
      DotOfScaled(a, b, k);
      Positive(k, sqrt(Norm(a)));
      hide Dot, Scaled, Ratio;
      var d', r' := Dot(Scaled(a, k), b), sqrt(Norm(Scaled(a, k)));
      ScaledRatio(k, Dot(a, b), sqrt(Norm(a)), sqrt(Norm(b)), d', r');
      assert Cosine(Scaled(a, k), b, sqrt) == Ratio(d', r', sqrt(Norm(b)));
    }
  }

  lemma ScaledRatio(k: real, d: real, r: real, s: real, d': real, r': real)
    requires k > 0.0 && r > 0.0 && s > 0.0 && r' > 0.0 && d' == k * d && r' == k * r
    ensures Ratio(d', r', s) == Ratio(d, r, s)
  {
    Positive(r, s);
    Positive(r', s);
    var q := d / (r * s);
    assert q * (r * s) == d;
    assert (k * r) * s == k * (r * s);
    assert q * (k * (r * s)) == k * (q * (r * s));
    QuotientOf(d', r' * s, q);
  }

  lemma OppositeRatio(d: real, r: real, s: real)
    requires r > 0.0 && s > 0.0
    ensures Ratio(-d, r, s) == -Ratio(d, r, s)
  {
    Positive(r, s);
    var q := d / (r * s);
    assert q * (r * s) == d;
    QuotientOf(-d, r * s, -q);
  }

  lemma QuotientOf(x: real, y: real, q: real)
    requires y > 0.0 && q * y == x
    ensures x / y == q
  {
  }

  /** Opposite vectors have opposite scores; a vector that is not zero scores -1 against its opposite. */
  lemma OppositeScore(a: seq<real>, b: seq<real>, sqrt: real -> real)
    requires |a| == |b| && IsSqrt(sqrt)
    ensures Cosine(Scaled(a, -1.0), b, sqrt) == -Cosine(a, b, sqrt)
    ensures Norm(a) != 0.0 ==> Cosine(Scaled(a, -1.0), a, sqrt) == -1.0
  {
    OppositeOf(a, b, sqrt);
    OppositeOf(a, a, sqrt);
    if Norm(a) != 0.0 { SelfScore(a, sqrt); }
  }

  lemma OppositeOf(a: seq<real>, b: seq<real>, sqrt: real -> real)
    requires |a| == |b| && IsSqrt(sqrt)
    ensures Cosine(Scaled(a, -1.0), b, sqrt) == -Cosine(a, b, sqrt)
  {
    DotOfScaled(a, Scaled(a, -1.0), -1.0);
    DotOfScaled(a, a, -1.0);
    DotOfScaled(a, b, -1.0);
    hide Dot, Scaled, Ratio;
    if Norm(a) != 0.0 && Norm(b) != 0.0 {
      NormNotNegative(a);
      NormNotNegative(b);
      RootIsPositive(sqrt, Norm(a));
      RootIsPositive(sqrt, Norm(b));
      OppositeRatio(Dot(a, b), sqrt(Norm(a)), sqrt(Norm(b)));
    }
  }

  // ------------------------------------------------------------------ the search

  type View = map<string, Item>

  /** The entries whose dimension is that of the query. */
  function Candidates(v: View, q: seq<real>): set<string> {
    set id | id in v && |v[id].embedding| == |q|
  }

  function Scored(v: View, q: seq<real>, sqrt: real -> real, id: string): MemoryResult
    requires id in Candidates(v, q) && IsSqrt(sqrt)
  {
    MemoryResult(id, v[id].payload, Cosine(q, v[id].embedding, sqrt))
  }

  predicate Descending(rs: seq<MemoryResult>) {
    forall i, j :: 0 <= i < j < |rs| ==> rs[i].score >= rs[j].score
  }

  predicate DistinctIds(rs: seq<MemoryResult>) {
    forall i, j :: 0 <= i < j < |rs| ==> rs[i].id != rs[j].id
  }

  function Ids(rs: seq<MemoryResult>): set<string> {
    set i | 0 <= i < |rs| :: rs[i].id
  }

  /** Each result is the scored candidate of its ID. */
  ghost predicate AllScored(v: View, q: seq<real>, sqrt: real -> real, rs: seq<MemoryResult>)
    requires IsSqrt(sqrt)
  {
    forall i :: 0 <= i < |rs| ==> rs[i].id in Candidates(v, q) && rs[i] == Scored(v, q, sqrt, rs[i].id)
  }

  function Limit(v: View, q: seq<real>, topK: int): nat {
    if topK <= 0 || q == [] then 0
    else if topK > |Candidates(v, q)| then |Candidates(v, q)|
    else topK
  }

  /** The best `topK` candidates, each once, best first, with nothing better left out. */
  ghost predicate IsTopK(v: View, q: seq<real>, topK: int, sqrt: real -> real, rs: seq<MemoryResult>)
    requires IsSqrt(sqrt)
  {
    && AllScored(v, q, sqrt, rs) && DistinctIds(rs) && Descending(rs)
    && |rs| == Limit(v, q, topK)
    && forall id, i :: id in Candidates(v, q) && id !in Ids(rs) && 0 <= i < |rs| ==>
         rs[i].score >= Scored(v, q, sqrt, id).score
  }

  /**
   The answers to a query, spelled out: at most `topK` entries of the query's dimension, as many as there are,
   each once and with its own payload and score, best first, and no other entry scores better than any of them.
   */
  lemma TopKSpelledOut(v: View, q: seq<real>, topK: int, sqrt: real -> real, rs: seq<MemoryResult>)
    requires IsSqrt(sqrt)
    ensures IsTopK(v, q, topK, sqrt, rs) <==>
              var fitting := set id | id in v && |v[id].embedding| == |q|;
              && |rs| == (if topK <= 0 || |q| == 0 then 0 else if topK <= |fitting| then topK else |fitting|)
              && (forall i :: 0 <= i < |rs| ==>
                    && rs[i].id in v && |v[rs[i].id].embedding| == |q|
                    && rs[i].payload == v[rs[i].id].payload
                    && rs[i].score == Cosine(q, v[rs[i].id].embedding, sqrt))
              && (forall i, j :: 0 <= i < j < |rs| ==> rs[i].id != rs[j].id && rs[i].score >= rs[j].score)
              && (forall id, i :: id in fitting && 0 <= i < |rs| && (forall j :: 0 <= j < |rs| ==> rs[j].id != id) ==>
                    rs[i].score >= Cosine(q, v[id].embedding, sqrt))
  {
    hide Cosine;
    assert forall id :: id in Ids(rs) <==> exists j :: 0 <= j < |rs| && rs[j].id == id;
    assert Candidates(v, q) == set id | id in v && |v[id].embedding| == |q|;
  }

  lemma {:induction false} IdsAreDistinct(rs: seq<MemoryResult>)
    requires DistinctIds(rs)
    ensures |Ids(rs)| == |rs|
  {
    if rs != [] {
      var init, last := rs[..|rs| - 1], rs[|rs| - 1];
      assert init + [last] == rs;
      IdsAreDistinct(init);
      IdsAppend(init, last);
      assert last.id !in Ids(init);
      hide Ids;
    }
  }

  lemma FewerIds(a: seq<MemoryResult>, b: seq<MemoryResult>)
    requires DistinctIds(a) && DistinctIds(b) && Ids(a) <= Ids(b)
    ensures |a| <= |b|
  {
    IdsAreDistinct(a);
    IdsAreDistinct(b);
    SubsetSize(Ids(a), Ids(b));
  }

  lemma {:induction false} SubsetSize<T>(a: set<T>, b: set<T>)
    requires a <= b
    ensures |a| <= |b|
    decreases a
  {
    if x :| x in a {
      SubsetSize(a - {x}, b - {x});
    }
  }

  /** Whatever the iteration order and however ties fall, the scores returned are the same. */
  lemma TopKScoresAreDetermined(
    v: View, q: seq<real>, topK: int, sqrt: real -> real, rs: seq<MemoryResult>, ts: seq<MemoryResult>)
    requires IsSqrt(sqrt) && IsTopK(v, q, topK, sqrt, rs) && IsTopK(v, q, topK, sqrt, ts)
    ensures |rs| == |ts| && forall i :: 0 <= i < |rs| ==> rs[i].score == ts[i].score
  {
    forall i | 0 <= i < |rs|
      ensures rs[i].score == ts[i].score
    {
      if rs[i].score > ts[i].score { NoBetterAt(v, q, topK, sqrt, rs, ts, i); }
      if ts[i].score > rs[i].score { NoBetterAt(v, q, topK, sqrt, ts, rs, i); }
    }
  }

  lemma NoBetterAt(
    v: View, q: seq<real>, topK: int, sqrt: real -> real, rs: seq<MemoryResult>, ts: seq<MemoryResult>, i: nat)
    requires IsSqrt(sqrt) && IsTopK(v, q, topK, sqrt, rs) && IsTopK(v, q, topK, sqrt, ts)
    requires i < |rs| && i < |ts|
    ensures rs[i].score <= ts[i].score
  {
    hide Cosine;
    if rs[i].score > ts[i].score {
      var a, b := rs[..i + 1], ts[..i];
      forall id | id in Ids(a)
        ensures id in Ids(b)
      {
        var j :| 0 <= j < |a| && a[j].id == id;
        assert rs[j].score >= rs[i].score;
        assert id in Ids(ts);
        var k :| 0 <= k < |ts| && ts[k].id == id;
        assert ts[k] == rs[j];
        assert k < i;
        assert b[k].id == id;
      }
      FewerIds(a, b);
    }
  }

  /** A stored vector that is not zero, asked for by its own embedding, comes back with the top score 1. */
  lemma SelfQueryScoresOne(v: View, id: string, topK: int, sqrt: real -> real, rs: seq<MemoryResult>)
    requires id in v && v[id].embedding != [] && Norm(v[id].embedding) != 0.0 && topK > 0
    requires IsSqrt(sqrt) && IsTopK(v, v[id].embedding, topK, sqrt, rs)
    ensures rs != [] && rs[0].score == 1.0
  {
    var q := v[id].embedding;
    assert id in Candidates(v, q);
    SelfScore(q, sqrt);
    assert rs != [];
    ScoreInRange(q, v[rs[0].id].embedding, sqrt);
    hide Cosine;
    if id in Ids(rs) {
      var i :| 0 <= i < |rs| && rs[i].id == id;
      assert rs[0].score >= rs[i].score;
    }
  }

  // ---------------------------------------------------------------- the store

  /** `sort.Slice` with the store's comparison: some descending permutation. */
  method SortByScore(rs: seq<MemoryResult>) returns (sorted: seq<MemoryResult>)
    ensures Descending(sorted) && multiset(sorted) == multiset(rs)
  {
    sorted := [];
    for i := 0 to |rs|
      invariant Descending(sorted) && multiset(sorted) == multiset(rs[..i])
    {
      sorted := Insert(sorted, rs[i]);
      assert rs[..i + 1] == rs[..i] + [rs[i]];
    }
    assert rs[..|rs|] == rs;
  }

  method Insert(rs: seq<MemoryResult>, r: MemoryResult) returns (s: seq<MemoryResult>)
    requires Descending(rs)
    ensures Descending(s) && multiset(s) == multiset(rs) + multiset{r}
  {
    hide Descending;
    var i := 0;
    while i < |rs| && rs[i].score > r.score
      invariant i <= |rs| && forall k :: 0 <= k < i ==> rs[k].score > r.score
    {
      i := i + 1;
    }
    s := rs[..i] + [r] + rs[i..];
    InsertedInOrder(rs, i, r);
    InsertedOnce(rs, i, r);
  }

  lemma InsertedInOrder(rs: seq<MemoryResult>, i: nat, r: MemoryResult)
    requires i <= |rs| && Descending(rs)
    requires forall k :: 0 <= k < i ==> rs[k].score > r.score
    requires i < |rs| ==> rs[i].score <= r.score
    ensures Descending(rs[..i] + [r] + rs[i..])
  {
  }

  lemma InsertedOnce(rs: seq<MemoryResult>, i: nat, r: MemoryResult)
    requires i <= |rs|
    ensures multiset(rs[..i] + [r] + rs[i..]) == multiset(rs) + multiset{r}
  {
    assert rs == rs[..i] + rs[i..];
  }

  class VectorStore {
    const sqrt: real -> real
    var entries: map<string, VectorEntry>

    constructor (sqrt: real -> real)
      requires IsSqrt(sqrt)
      ensures Valid() && Now() == map[] && this.sqrt == sqrt
    {
      this.sqrt := sqrt;
      entries := map[];
    }

    ghost predicate Valid()
      reads this
    {
      IsSqrt(sqrt) && OwnSlices() && forall id :: id in entries ==> entries[id].id == id
    }

    /** No two entries share a slice. */
    ghost predicate OwnSlices()
      reads this
    {
      forall a, b :: a in entries && b in entries && a != b ==> entries[a].embedding != entries[b].embedding
    }

    function Slices(): set<object>
      reads this
    {
      set id | id in entries :: entries[id].embedding
    }

    /** The store by value. */
    function Now(): View
      reads this, Slices()
    {
      map id | id in entries :: Item(entries[id].embedding[..], entries[id].payload, entries[id].storedAt)
    }

    /** Inserts or replaces, copying the embedding: later writes to the argument do not reach the store. */
    method Store(id: string, embedding: array<real>, payload: string, now: int)
      requires Valid()
      modifies this`entries
      ensures Valid() && id in entries && fresh(entries[id].embedding)
      ensures Now() == old(Now())[id := Item(embedding[..], payload, now)]
    {
      var emb := new real[embedding.Length](i requires 0 <= i < embedding.Length reads embedding => embedding[i]);
      assert emb[..] == embedding[..];
      assert forall a :: a in entries ==> entries[a].embedding != emb;
      entries := entries[id := VectorEntry(id, emb, payload, now)];
      assert OwnSlices();
      hide OwnSlices, IsSqrt;
    }

    method Delete(id: string) returns (ok: bool)
      requires Valid()
      modifies this`entries
      ensures Valid() && ok == (id in old(entries)) && Now() == old(Now()) - {id}
    {
      ok := id in entries;
      if ok {
        entries := entries - {id};
      }
    }

    /** Returns the entry itself, not a copy of its slice. */
    method Get(id: string) returns (e: Option<VectorEntry>)
      requires Valid()
      ensures e == if id in entries then Some(entries[id]) else None
    {
      e := if id in entries then Some(entries[id]) else None;
    }

    method Query(embedding: array<real>, topK: int) returns (rs: seq<MemoryResult>)
      requires Valid()
      ensures IsTopK(Now(), embedding[..], topK, sqrt, rs)
    {
      hide OwnSlices, Scored, Descending, AllScored, DistinctIds, Ids, Candidates;
      ghost var v, q := Now(), embedding[..];
      if topK <= 0 || embedding.Length == 0 {
        NothingIsTopK(v, q, topK, sqrt);
        return [];
      }
      var candidates := Score(embedding);
      assert Now() == v && embedding[..] == q;
      var sorted := SortByScore(candidates);
      SortedIsComplete(v, q, sqrt, candidates, sorted);
      var k := topK;
      if k > |sorted| {
        k := |sorted|;
      }
      rs := sorted[..k];
      PrefixIsTopK(v, q, topK, sqrt, sorted);
      assert Now() == v && embedding[..] == q;
    }

    /** The scan over the map, in any order. */
    method Score(embedding: array<real>) returns (candidates: seq<MemoryResult>)
      requires Valid()
      ensures AllScored(Now(), embedding[..], sqrt, candidates) && DistinctIds(candidates)
      ensures Ids(candidates) == Candidates(Now(), embedding[..])
    {
      hide Cosine, OwnSlices, Scanned, AllScored, DistinctIds, Ids, Candidates;
      ghost var v, q := Now(), embedding[..];
      candidates := [];
      ScanStarts(v, q, sqrt);
      var ids := entries.Keys;
      assert ids == v.Keys;
      while ids != {}
        invariant ids <= entries.Keys && Scanned(v, q, sqrt, candidates, ids)
        decreases |ids|
      {
        var id :| id in ids;
        var e := entries[id];
        if e.embedding.Length == embedding.Length {
          var score := CosineSimilarity(embedding, e.embedding, sqrt);
          var r := MemoryResult(e.id, e.payload, score);
          ScanAdds(v, q, sqrt, candidates, ids, r);
          candidates := candidates + [r];
        } else {
          ScanSkips(v, q, sqrt, candidates, ids, id);
        }
        ids := ids - {id};
      }
      ScanEnds(v, q, sqrt, candidates);
      assert Now() == v && embedding[..] == q;
    }
  }

  /** The scan so far: exactly the candidates that are not in `pending` have been scored, each once. */
  ghost predicate Scanned(v: View, q: seq<real>, sqrt: real -> real, rs: seq<MemoryResult>, pending: set<string>)
    requires IsSqrt(sqrt)
  {
    AllScored(v, q, sqrt, rs) && DistinctIds(rs) && Ids(rs) == Candidates(v, q) - pending
  }

  lemma ScanStarts(v: View, q: seq<real>, sqrt: real -> real)
    requires IsSqrt(sqrt)
    ensures Scanned(v, q, sqrt, [], v.Keys)
  {
  }

  lemma ScanAdds(
    v: View, q: seq<real>, sqrt: real -> real, rs: seq<MemoryResult>, pending: set<string>, r: MemoryResult)
    requires IsSqrt(sqrt) && Scanned(v, q, sqrt, rs, pending) && r.id in pending && r.id in v
    requires |v[r.id].embedding| == |q|
    requires r.payload == v[r.id].payload && r.score == Cosine(q, v[r.id].embedding, sqrt)
    ensures Scanned(v, q, sqrt, rs + [r], pending - {r.id})
  {
    IdsAppend(rs, r);
    hide Cosine, Ids, DistinctIds;
  }

  lemma ScanSkips(
    v: View, q: seq<real>, sqrt: real -> real, rs: seq<MemoryResult>, pending: set<string>, id: string)
    requires IsSqrt(sqrt) && Scanned(v, q, sqrt, rs, pending) && id in v && |v[id].embedding| != |q|
    ensures Scanned(v, q, sqrt, rs, pending - {id})
  {
    hide Ids, DistinctIds, AllScored;
  }

  lemma ScanEnds(v: View, q: seq<real>, sqrt: real -> real, rs: seq<MemoryResult>)
    requires IsSqrt(sqrt) && Scanned(v, q, sqrt, rs, {})
    ensures AllScored(v, q, sqrt, rs) && DistinctIds(rs) && Ids(rs) == Candidates(v, q)
  {
  }

  lemma IdsAppend(rs: seq<MemoryResult>, r: MemoryResult)
    ensures Ids(rs + [r]) == Ids(rs) + {r.id}
    ensures DistinctIds(rs) && r.id !in Ids(rs) ==> DistinctIds(rs + [r])
  {
    var s := rs + [r];
    assert s[|rs|] == r && forall i :: 0 <= i < |rs| ==> s[i] == rs[i];
    assert forall i :: 0 <= i < |rs| ==> rs[i].id in Ids(rs);
    assert r.id in Ids(s);
  }

  /** Sorting neither loses nor doubles a candidate. */
  lemma SortedIsComplete(
    v: View, q: seq<real>, sqrt: real -> real, rs: seq<MemoryResult>, sorted: seq<MemoryResult>)
    requires IsSqrt(sqrt) && AllScored(v, q, sqrt, rs) && DistinctIds(rs) && Ids(rs) == Candidates(v, q)
    requires multiset(sorted) == multiset(rs)
    ensures AllScored(v, q, sqrt, sorted) && DistinctIds(sorted) && Ids(sorted) == Candidates(v, q)
  {
    hide Cosine;
    forall i | 0 <= i < |sorted|
      ensures sorted[i] in rs
    {
      assert sorted[i] in multiset(sorted);
    }
    forall i | 0 <= i < |rs|
      ensures rs[i] in sorted
    {
      assert rs[i] in multiset(rs);
    }
    assert Ids(sorted) == Ids(rs);
    assert |sorted| == |rs|;
    IdsAreDistinct(rs);
    FullIdsAreDistinct(sorted);
  }

  lemma {:induction false} FullIdsAreDistinct(rs: seq<MemoryResult>)
    requires |Ids(rs)| == |rs|
    ensures DistinctIds(rs)
  {
    if rs != [] {
      var init, last := rs[..|rs| - 1], rs[|rs| - 1];
      assert init + [last] == rs;
      IdsAppend(init, last);
      IdsAtMost(init);
      FullIdsAreDistinct(init);
    }
  }

  lemma {:induction false} IdsAtMost(rs: seq<MemoryResult>)
    ensures |Ids(rs)| <= |rs|
  {
    if rs != [] {
      var init, last := rs[..|rs| - 1], rs[|rs| - 1];
      assert init + [last] == rs;
      IdsAppend(init, last);
      IdsAtMost(init);
    }
  }

  lemma NothingIsTopK(v: View, q: seq<real>, topK: int, sqrt: real -> real)
    requires IsSqrt(sqrt) && (topK <= 0 || q == [])
    ensures IsTopK(v, q, topK, sqrt, [])
  {
  }

  lemma {:induction false} PrefixIsTopK(v: View, q: seq<real>, topK: int, sqrt: real -> real, sorted: seq<MemoryResult>)
    requires IsSqrt(sqrt) && AllScored(v, q, sqrt, sorted) && DistinctIds(sorted) && Descending(sorted)
    requires Ids(sorted) == Candidates(v, q) && topK > 0 && q != []
    ensures |sorted| == |Candidates(v, q)| && Limit(v, q, topK) <= |sorted|
    ensures IsTopK(v, q, topK, sqrt, sorted[..Limit(v, q, topK)])
  {
    IdsAreDistinct(sorted);
    var k := Limit(v, q, topK);
    var rs := sorted[..k];
    hide Cosine, Limit, Scored;
    forall id, i | id in Candidates(v, q) && id !in Ids(rs) && 0 <= i < |rs|
      ensures rs[i].score >= Scored(v, q, sqrt, id).score
    {
      LeftOutIsNoBetter(v, q, sqrt, sorted, k, id, i);
    }
  }

  lemma LeftOutIsNoBetter(
    v: View, q: seq<real>, sqrt: real -> real, sorted: seq<MemoryResult>, k: nat, id: string, i: nat)
    requires IsSqrt(sqrt) && AllScored(v, q, sqrt, sorted) && Descending(sorted)
    requires k <= |sorted| && Ids(sorted) == Candidates(v, q) && id in Candidates(v, q)
    requires id !in Ids(sorted[..k]) && i < k
    ensures sorted[i].score >= Scored(v, q, sqrt, id).score
  {
    hide Scored, Candidates;
    assert id in Ids(sorted);
    var j :| 0 <= j < |sorted| && sorted[j].id == id;
    if j < k { PrefixIds(sorted, k, j); }
  }

  lemma PrefixIds(rs: seq<MemoryResult>, k: nat, j: nat)
    requires j < k <= |rs|
    ensures rs[j].id in Ids(rs[..k])
  {
    assert rs[..k][j] == rs[j];
  }

  /** One component of one stored embedding replaced, if there is such a component. */
  function AfterWrite(v: View, id: string, i: nat, x: real): View {
    if id in v && i < |v[id].embedding| then v[id := v[id].(embedding := v[id].embedding[i := x])] else v
  }

  /**
   The copy that `Get` returns is shallow: writing into its embedding writes into the store, whatever
   the comment in the source promises. It reaches that one component and no other entry.
   */
  method WriteThroughGet(vs: VectorStore, id: string, i: nat, x: real) returns (ok: bool)
    requires vs.Valid()
    modifies vs.Slices()
    ensures vs.Valid() && vs.entries == old(vs.entries)
    ensures ok <==> id in old(vs.Now()) && i < |old(vs.Now())[id].embedding|
    ensures vs.Now() == AfterWrite(old(vs.Now()), id, i, x)
  {
    var e := vs.Get(id);
    if e.None? || i >= e.value.embedding.Length { return false; }
    e.value.embedding[i] := x;
    assert vs.Now()[id].embedding == old(vs.Now())[id].embedding[i := x];
    ok := true;
  }

  /** A caller of `Get` can change the store exactly if the entry exists and its embedding is not empty. */
  lemma GetLeaksExactly(v: View, id: string)
    ensures (exists i: nat, x :: AfterWrite(v, id, i, x) != v) <==> id in v && v[id].embedding != []
  {
    if id in v && v[id].embedding != [] {
      var x := v[id].embedding[0] + 1.0;
      assert AfterWrite(v, id, 0, x)[id].embedding[0] == x;
      assert AfterWrite(v, id, 0, x) != v;
    }
  }
}
