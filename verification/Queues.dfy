/** Replacement as a queue of pages: least recently used and first-in first-out over plain page
    sequences, and what any demand-paging policy must pay on the same sequence. */
module Queues {
  import opened Prelude
  import opened Paging

  datatype Kind = LruKind | FifoKind

  /** One reference: front of the queue is the next victim. */
  function QStep(kind: Kind, q: seq<nat>, m: nat, p: nat): seq<nat> {
    if p in q then (if kind.LruKind? then Without(q, p) + [p] else q)
    else if |q| < m then q + [p]
    else if q == [] then q
    else q[1..] + [p]
  }

  function QRun(kind: Kind, q: seq<nat>, m: nat, ps: seq<nat>): seq<nat> {
    if ps == [] then q else QStep(kind, QRun(kind, q, m, ps[..|ps| - 1]), m, ps[|ps| - 1])
  }

  /** The pages that missed, in order. */
  function QMissed(kind: Kind, q: seq<nat>, m: nat, ps: seq<nat>): seq<nat> {
    if ps == [] then []
    else
      var n := |ps| - 1;
      QMissed(kind, q, m, ps[..n]) + if ps[n] in QRun(kind, q, m, ps[..n]) then [] else [ps[n]]
  }

  /** The last n elements, or all of them. */
  function LastN<T>(s: seq<T>, n: nat): (r: seq<T>)
    ensures |r| == if n < |s| then n else |s|
  {
    if n < |s| then s[|s| - n..] else s
  }

  predicate QOk(q: seq<nat>, m: nat) {
    NoDup(q) && |q| <= m
  }

  lemma {:induction false} WithoutLength(q: seq<nat>, p: nat)
    requires NoDup(q)
    ensures |Without(q, p)| == |q| - if p in q then 1 else 0
  {
    if q == [] {
    } else {
      assert NoDup(q[1..]) && q[0] !in q[1..];
      WithoutLength(q[1..], p);
    }
  }

  lemma {:induction false} WithoutConcat(a: seq<nat>, b: seq<nat>, p: nat)
    ensures Without(a + b, p) == Without(a, p) + Without(b, p)
  {
    if a == [] {
      assert a + b == b;
    } else {
      assert (a + b)[1..] == a[1..] + b;
      WithoutConcat(a[1..], b, p);
    }
  }

  lemma QStepOk(kind: Kind, q: seq<nat>, m: nat, p: nat)
    requires m > 0 && QOk(q, m)
    ensures QOk(QStep(kind, q, m, p), m) && p in QStep(kind, q, m, p)
  {
    if kind.LruKind? && p in q {
      WithoutNoDup(q, p);
      WithoutLength(q, p);
    }
  }

  lemma {:induction false} QRunOk(kind: Kind, q: seq<nat>, m: nat, ps: seq<nat>)
    requires m > 0 && QOk(q, m)
    ensures QOk(QRun(kind, q, m, ps), m)
  {
    if ps == [] {
    } else {
      QRunOk(kind, q, m, ps[..|ps| - 1]);
      QStepOk(kind, QRun(kind, q, m, ps[..|ps| - 1]), m, ps[|ps| - 1]);
    }
  }

  // ---------- recency ----------

  /** The distinct pages of the sequence in the order of their last use, oldest first. */
  function Recency(ps: seq<nat>): seq<nat> {
    if ps == [] then [] else Without(Recency(ps[..|ps| - 1]), ps[|ps| - 1]) + [ps[|ps| - 1]]
  }

  /** The index of the last use of p. */
  function LastUse(ps: seq<nat>, p: nat): (i: nat)
    requires p in ps
    ensures i < |ps| && ps[i] == p && forall j :: i < j < |ps| ==> ps[j] != p
  {
    if ps[|ps| - 1] == p then |ps| - 1 else LastUse(ps[..|ps| - 1], p)
  }

  /** Recency lists exactly the pages used, each once, by increasing last use. */
  lemma {:induction false} RecencyMeaning(ps: seq<nat>)
    ensures NoDup(Recency(ps))
    ensures forall p :: p in Recency(ps) <==> p in ps
    ensures forall i, j :: 0 <= i < j < |Recency(ps)| ==> LastUse(ps, Recency(ps)[i]) < LastUse(ps, Recency(ps)[j])
  {
    if ps == [] {
    } else {
      var n := |ps| - 1;
      var ps0, p := ps[..n], ps[n];
      assert ps == ps0 + [p];
      RecencyMeaning(ps0);
      var old_, rest := Recency(ps0), Without(Recency(ps0), p);
      WithoutNoDup(old_, p);
      forall i, j | 0 <= i < j < |Recency(ps)|
        ensures LastUse(ps, Recency(ps)[i]) < LastUse(ps, Recency(ps)[j])
      {
        assert Recency(ps)[i] == rest[i] && rest[i] in rest;
        if j < |rest| {
          assert rest[j] in rest;
          WithoutKeepsOrder(old_, p, i, j);
        }
      }
    }
  }

  /** Removing an element keeps the relative order of the others. */
  lemma {:induction false} WithoutKeepsOrder(q: seq<nat>, p: nat, i: nat, j: nat)
    requires i < j < |Without(q, p)|
    ensures exists i', j' :: 0 <= i' < j' < |q| && q[i'] == Without(q, p)[i] && q[j'] == Without(q, p)[j]
  {
    var t := q[1..];
    if q[0] == p {
      WithoutKeepsOrder(t, p, i, j);
      var i', j' :| 0 <= i' < j' < |t| && t[i'] == Without(t, p)[i] && t[j'] == Without(t, p)[j];
      assert q[i' + 1] == t[i'] && q[j' + 1] == t[j'];
    } else if i == 0 {
      assert Without(q, p)[j] == Without(t, p)[j - 1] && Without(t, p)[j - 1] in t;
      var j' :| 0 <= j' < |t| && t[j'] == Without(t, p)[j - 1];
      assert q[0] == Without(q, p)[0] && q[j' + 1] == Without(q, p)[j];
    } else {
      WithoutKeepsOrder(t, p, i - 1, j - 1);
      var i', j' :| 0 <= i' < j' < |t| && t[i'] == Without(t, p)[i - 1] && t[j'] == Without(t, p)[j - 1];
      assert q[i' + 1] == t[i'] && q[j' + 1] == t[j'];
    }
  }

  lemma SuffixHit(front: seq<nat>, back: seq<nat>, p: nat)
    requires NoDup(front + back) && p in back
    ensures Without(front + back, p) + [p] == front + (Without(back, p) + [p])
    ensures |Without(back, p) + [p]| == |back|
  {
    WithoutConcat(front, back, p);
    assert NoDup(back) by { assert forall i :: 0 <= i < |back| ==> back[i] == (front + back)[|front| + i]; }
    WithoutLength(back, p);
    forall i | 0 <= i < |front| ensures front[i] != p {
      var k :| 0 <= k < |back| && back[k] == p;
      assert (front + back)[i] == front[i] && (front + back)[|front| + k] == p;
    }
    WithoutNone(front, p);
  }

  lemma SuffixMiss(front: seq<nat>, back: seq<nat>, p: nat)
    requires p !in back
    ensures Without(front + back, p) + [p] == Without(front, p) + (back + [p])
  {
    WithoutConcat(front, back, p);
    WithoutNone(back, p);
  }

  lemma LastNOfConcat<T>(front: seq<T>, back: seq<T>, n: nat)
    requires n <= |back|
    ensures LastN(front + back, n) == LastN(back, n)
  {}

  lemma FullStep(front: seq<nat>, back: seq<nat>, p: nat)
    requires NoDup(front + back) && back != []
    ensures QStep(LruKind, back, |back|, p) == LastN(Without(front + back, p) + [p], |back|)
  {
    if p in back {
      SuffixHit(front, back, p);
      LastNOfConcat(front, Without(back, p) + [p], |back|);
    } else {
      SuffixMiss(front, back, p);
      LastNOfConcat(Without(front, p), back + [p], |back|);
      assert LastN(back + [p], |back|) == back[1..] + [p];
    }
  }

  /** Taking the last m of the recency order commutes with a reference. */
  lemma LastNStep(rec: seq<nat>, m: nat, p: nat)
    requires NoDup(rec) && m > 0
    ensures QStep(LruKind, LastN(rec, m), m, p) == LastN(Without(rec, p) + [p], m)
  {
    if |rec| >= m {
      assert rec == rec[..|rec| - m] + LastN(rec, m);
      FullStep(rec[..|rec| - m], LastN(rec, m), p);
    } else if p in rec {
      WithoutLength(rec, p);
    } else {
      WithoutNone(rec, p);
    }
  }

  /** An LRU memory of m frames always holds the m most recently used pages, in that order. */
  lemma {:induction false} LruIsRecency(m: nat, ps: seq<nat>)
    requires m > 0
    ensures QRun(LruKind, [], m, ps) == LastN(Recency(ps), m)
  {
    if ps == [] {
    } else {
      LruIsRecency(m, ps[..|ps| - 1]);
      RecencyMeaning(ps[..|ps| - 1]);
      LastNStep(Recency(ps[..|ps| - 1]), m, ps[|ps| - 1]);
    }
  }

  // ---------- a stretch with few distinct pages ----------

  /** The last j pages of the queue all belong to d; for LRU they are exactly d. */
  ghost predicate Recent(kind: Kind, q: seq<nat>, d: set<nat>, j: nat) {
    && j <= |q|
    && Elements(LastN(q, j)) <= d
    && (kind.LruKind? ==> Elements(LastN(q, j)) == d)
  }

  lemma MissAppends(kind: Kind, q: seq<nat>, m: nat, j: nat, p: nat)
    requires QOk(q, m) && j <= |q| && j < m && p !in q
    ensures LastN(QStep(kind, q, m, p), j + 1) == LastN(q, j) + [p]
  {
    if |q| < m {
      LastNPush(q, j, p);
    } else {
      LastNPush(q[1..], j, p);
      assert LastN(q[1..], j) == LastN(q, j);
    }
  }

  lemma LastNPush(s: seq<nat>, n: nat, x: nat)
    requires n <= |s|
    ensures LastN(s + [x], n + 1) == LastN(s, n) + [x]
  {
    assert (s + [x])[|s| - n..] == s[|s| - n..] + [x];
  }

  lemma SetAppends(back: seq<nat>, d: set<nat>, p: nat)
    requires NoDup(back) && p !in back && Elements(back) <= d
    ensures Elements(back + [p]) == Elements(back) + {p} && |back| + 1 <= |d + {p}|
  {
    NoDupSize(back);
    assert |Elements(back) + {p}| == |back| + 1;
    SubsetSize(Elements(back) + {p}, d + {p});
  }

  lemma RecentMiss(kind: Kind, q: seq<nat>, m: nat, d: set<nat>, j: nat, p: nat)
    requires m > 0 && QOk(q, m) && Recent(kind, q, d, j) && |d + {p}| <= m && p !in q
    ensures var q' := QStep(kind, q, m, p);
      && Recent(kind, q', d + {p}, j + 1) && LastN(q', j + 1) == LastN(q, j) + [p] && j + 1 <= |d + {p}|
      && Elements(LastN(q, j)) <= Elements(LastN(q', j + 1)) && p in LastN(q', j + 1)
  {
    hide QStep;
    var back := LastN(q, j);
    assert q == q[..|q| - j] + back;
    SetAppends(back, d, p);
    MissAppends(kind, q, m, j, p);
  }

  lemma RecentLruHit(q: seq<nat>, m: nat, d: set<nat>, j: nat, p: nat) returns (j': nat)
    requires m > 0 && QOk(q, m) && Recent(LruKind, q, d, j) && p in q
    ensures Recent(LruKind, QStep(LruKind, q, m, p), d + {p}, j') && j <= j'
  {
    var front, back := q[..|q| - j], LastN(q, j);
    assert q == front + back;
    if p in back {
      SuffixHit(front, back, p);
      j' := j;
      assert LastN(QStep(LruKind, q, m, p), j) == Without(back, p) + [p];
      assert Elements(Without(back, p) + [p]) == d + {p};
    } else {
      SuffixMiss(front, back, p);
      j' := j + 1;
      assert LastN(QStep(LruKind, q, m, p), j') == back + [p];
      assert Elements(back + [p]) == d + {p};
    }
  }

  /** While at most m distinct pages are referenced none of them is evicted: the recent pages
      stay at the back of the queue, joined by each page that misses. */
  lemma RecentStep(kind: Kind, q: seq<nat>, m: nat, d: set<nat>, j: nat, p: nat) returns (j': nat)
    requires m > 0 && QOk(q, m) && Recent(kind, q, d, j) && |d + {p}| <= m
    ensures var q' := QStep(kind, q, m, p);
      && Recent(kind, q', d + {p}, j')
      && Elements(LastN(q, j)) <= Elements(LastN(q', j'))
      && (p !in q ==> p in LastN(q', j') && j' == j + 1)
      && j <= j' <= |d + {p}|
  {
    hide QStep, LastN, Elements, QOk;
    if p !in q {
      RecentMiss(kind, q, m, d, j, p);
      j' := j + 1;
    } else if kind.LruKind? {
      j' := RecentLruHit(q, m, d, j, p);
    } else {
      j' := j;
      FifoHit(q, m, p);
    }
    QStepOk(kind, q, m, p);
    RecentSize(kind, QStep(kind, q, m, p), m, d + {p}, j');
  }

  lemma FifoHit(q: seq<nat>, m: nat, p: nat)
    requires m > 0 && QOk(q, m) && p in q
    ensures QStep(FifoKind, q, m, p) == q
  {}

  lemma RecentSize(kind: Kind, q: seq<nat>, m: nat, d: set<nat>, j: nat)
    requires QOk(q, m) && Recent(kind, q, d, j)
    ensures j <= |d|
  {
    assert q == q[..|q| - j] + LastN(q, j);
    NoDupSize(LastN(q, j));
    SubsetSize(Elements(LastN(q, j)), d);
  }

  function PageSet(ps: seq<nat>): set<nat> {
    set p | p in ps
  }

  /** LRU and FIFO are conservative: from any memory contents, a stretch of references to at
      most m distinct pages misses at most once on each of them. */
  lemma {:induction false} Conservative(kind: Kind, q: seq<nat>, m: nat, ps: seq<nat>) returns (j: nat)
    requires m > 0 && QOk(q, m) && |PageSet(ps)| <= m
    ensures Recent(kind, QRun(kind, q, m, ps), PageSet(ps), j)
    ensures Elements(QMissed(kind, q, m, ps)) <= Elements(LastN(QRun(kind, q, m, ps), j))
    ensures NoDup(QMissed(kind, q, m, ps)) && |QMissed(kind, q, m, ps)| <= |PageSet(ps)|
  {
    hide QStep, QOk;
    if ps == [] {
      j := 0;
    } else {
      var n := |ps| - 1;
      assert PageSet(ps) == PageSet(ps[..n]) + {ps[n]};
      SubsetSize(PageSet(ps[..n]), PageSet(ps));
      var j0 := Conservative(kind, q, m, ps[..n]);
      QRunOk(kind, q, m, ps[..n]);
      j := RecentStep(kind, QRun(kind, q, m, ps[..n]), m, PageSet(ps[..n]), j0, ps[n]);
      MissedStep(kind, q, m, ps, j0, j);
      NoDupSize(QMissed(kind, q, m, ps));
      SubsetSize(Elements(QMissed(kind, q, m, ps)), PageSet(ps));
    }
  }

  lemma MissedStep(kind: Kind, q: seq<nat>, m: nat, ps: seq<nat>, j0: nat, j: nat)
    requires ps != []
    requires var q0, q1, p := QRun(kind, q, m, ps[..|ps| - 1]), QRun(kind, q, m, ps), ps[|ps| - 1];
      && Elements(LastN(q0, j0)) <= Elements(LastN(q1, j)) && j0 <= |q0|
      && (p !in q0 ==> p in LastN(q1, j))
      && Elements(QMissed(kind, q, m, ps[..|ps| - 1])) <= Elements(LastN(q0, j0))
      && NoDup(QMissed(kind, q, m, ps[..|ps| - 1]))
    ensures Elements(QMissed(kind, q, m, ps)) <= Elements(LastN(QRun(kind, q, m, ps), j))
    ensures NoDup(QMissed(kind, q, m, ps))
  {
    var q0, q1, p := QRun(kind, q, m, ps[..|ps| - 1]), QRun(kind, q, m, ps), ps[|ps| - 1];
    var before, after := QMissed(kind, q, m, ps[..|ps| - 1]), QMissed(kind, q, m, ps);
    forall x | x in before ensures x in LastN(q1, j) && x in q0 {
      assert x in Elements(before) && x in Elements(LastN(q0, j0)) && x in Elements(LastN(q1, j));
    }
  }

  // ---------- phases and competitiveness ----------

  /** The greedy partition into phases of at most m distinct pages: how many phases there are,
      and the distinct pages of the last one. */
  function Phase(ps: seq<nat>, m: nat): (nat, set<nat>) {
    if ps == [] then (0, {})
    else
      var (n, d) := Phase(ps[..|ps| - 1], m);
      var p := ps[|ps| - 1];
      if n > 0 && |d + {p}| <= m then (n, d + {p}) else (n + 1, {p})
  }

  lemma {:induction false} PhaseOk(ps: seq<nat>, m: nat)
    requires m > 0
    ensures Phase(ps, m).0 > 0 <==> ps != []
    ensures |Phase(ps, m).1| <= m
  {
    if ps == [] {
    } else {
      PhaseOk(ps[..|ps| - 1], m);
    }
  }

  lemma PhaseStart(kind: Kind, q: seq<nat>, m: nat, p: nat) returns (j: nat)
    requires m > 0 && QOk(q, m)
    ensures Recent(kind, QStep(kind, q, m, p), {p}, j)
    ensures j <= 1 && (p !in q ==> j == 1)
  {
    assert LastN(q, 0) == [];
    assert {} + {p} == {p};
    j := RecentStep(kind, q, m, {}, 0, p);
  }

  /** The misses allowed in n phases. */
  function Budget(m: nat, n: nat): nat {
    m * n
  }

  lemma OneMorePhase(m: nat, n: nat)
    requires n > 0
    ensures Budget(m, 0) == 0 && Budget(m, n - 1) + m == Budget(m, n)
  {}

  ghost predicate WithinPhases(kind: Kind, m: nat, ps: seq<nat>, j: nat)
    requires m > 0
  {
    var (n, d) := Phase(ps, m);
    && n > 0 && |d| <= m
    && Recent(kind, QRun(kind, [], m, ps), d, j) && j <= |d|
    && |QMissed(kind, [], m, ps)| <= Budget(m, n - 1) + j
  }

  lemma OneReference(kind: Kind, m: nat, ps: seq<nat>)
    requires m > 0 && ps != []
    ensures var k, p := |ps| - 1, ps[|ps| - 1];
      var q := QRun(kind, [], m, ps[..k]);
    var (n, d) := Phase(ps[..k], m);
      && QOk(q, m)
      && QRun(kind, [], m, ps) == QStep(kind, q, m, p)
      && |QMissed(kind, [], m, ps)| == |QMissed(kind, [], m, ps[..k])| + (if p in q then 0 else 1)
      && Phase(ps, m) == (if n > 0 && |d + {p}| <= m then (n, d + {p}) else (n + 1, {p}))
  {
    hide QStep, Recent, Elements;
    QRunOk(kind, [], m, ps[..|ps| - 1]);
    PhaseLast(m, ps);
  }

  lemma PhaseLast(m: nat, ps: seq<nat>)
    requires ps != []
    ensures var (n, d) := Phase(ps[..|ps| - 1], m);
      Phase(ps, m) == (if n > 0 && |d + {ps[|ps| - 1]}| <= m then (n, d + {ps[|ps| - 1]}) else (n + 1, {ps[|ps| - 1]}))
  {}

  lemma PhaseGoesOn(kind: Kind, m: nat, ps: seq<nat>, j0: nat) returns (j: nat)
    requires m > 0 && |ps| > 1 && WithinPhases(kind, m, ps[..|ps| - 1], j0)
    requires |Phase(ps[..|ps| - 1], m).1 + {ps[|ps| - 1]}| <= m
    ensures WithinPhases(kind, m, ps, j)
  {
    hide QStep, Recent, QOk, Budget, Phase, QRun, QMissed, Elements, LastN;
    OneReference(kind, m, ps);
    var k := |ps| - 1;
    j := RecentStep(kind, QRun(kind, [], m, ps[..k]), m, Phase(ps[..k], m).1, j0, ps[k]);
  }

  lemma PhaseBegins(kind: Kind, m: nat, ps: seq<nat>, j0: nat) returns (j: nat)
    requires m > 0 && |ps| > 1 && WithinPhases(kind, m, ps[..|ps| - 1], j0)
    requires |Phase(ps[..|ps| - 1], m).1 + {ps[|ps| - 1]}| > m
    ensures WithinPhases(kind, m, ps, j)
  {
    hide QStep, Recent, QOk, Budget, Phase, QRun, QMissed, Elements, LastN;
    OneReference(kind, m, ps);
    var k, p := |ps| - 1, ps[|ps| - 1];
    j := PhaseStart(kind, QRun(kind, [], m, ps[..k]), m, p);
    OneMorePhase(m, Phase(ps[..k], m).0);
  }

  /** Upper bound: LRU and FIFO miss at most m times in each completed phase, and at most once
      per distinct page in the last one. */
  lemma {:induction false} MissesPerPhase(kind: Kind, m: nat, ps: seq<nat>) returns (j: nat)
    requires m > 0 && ps != []
    ensures WithinPhases(kind, m, ps, j)
  {
    if |ps| == 1 {
      assert ps[..0] == [];
      OneReference(kind, m, ps);
      OneMorePhase(m, 1);
      j := PhaseStart(kind, [], m, ps[0]);
    } else {
      hide WithinPhases;
      var j0 := MissesPerPhase(kind, m, ps[..|ps| - 1]);
      if |Phase(ps[..|ps| - 1], m).1 + {ps[|ps| - 1]}| <= m {
        j := PhaseGoesOn(kind, m, ps, j0);
      } else {
        j := PhaseBegins(kind, m, ps, j0);
      }
    }
  }
}
