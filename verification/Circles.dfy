/** When a recursion along the arrows of a finite graph ends. */
module Circles {
  import opened Sequences

  /** From `x` there are `n` arrows to follow, one after the other. */
  ghost predicate Descends<T>(g: map<T, set<T>>, x: T, n: nat) {
    n == 0 || (x in g && exists y :: y in g[x] && Descends(g, y, n - 1))
  }

  /** The ways from `x` are bounded in length: a recursion along the arrows ends. */
  ghost predicate Stops<T>(g: map<T, set<T>>, x: T) {
    exists n: nat :: !Descends(g, x, n)
  }

  ghost function LeastNot<T>(g: map<T, set<T>>, x: T, n: nat): (d: nat)
    requires !Descends(g, x, n)
    ensures !Descends(g, x, d) && forall m: nat | m < d :: Descends(g, x, m)
  {
    if m: nat :| m < n && !Descends(g, x, m) then LeastNot(g, x, m) else n
  }

  /** The length of the longest way from `x`, and one more. */
  ghost function Height<T>(g: map<T, set<T>>, x: T): (d: nat)
    requires Stops(g, x)
    ensures !Descends(g, x, d) && forall m: nat | m < d :: Descends(g, x, m)
  {
    var n: nat :| !Descends(g, x, n);
    LeastNot(g, x, n)
  }

  /** Along every arrow the height falls. */
  lemma HeightFalls<T>(g: map<T, set<T>>, x: T, y: T)
    requires Stops(g, x) && x in g && y in g[x]
    ensures Stops(g, y) && Height(g, y) < Height(g, x)
  {
    var h := Height(g, x);
    assert h > 0;
    assert !Descends(g, y, h - 1);
  }

  /** `n` arrows lead from `x` to `y`. */
  ghost predicate Leads<T>(g: map<T, set<T>>, x: T, y: T, n: nat) {
    if n == 0 then x == y else x in g && exists z :: z in g[x] && Leads(g, z, y, n - 1)
  }

  /** A circle can be reached from `x`. */
  ghost predicate ReachesCircle<T>(g: map<T, set<T>>, x: T) {
    exists y, n: nat, m: nat :: y in g && m > 0 && Leads(g, x, y, n) && Leads(g, y, y, m)
  }

  lemma {:induction false} LeadsDescends<T>(g: map<T, set<T>>, x: T, y: T, n: nat, m: nat)
    requires Leads(g, x, y, n) && Descends(g, y, m)
    ensures Descends(g, x, n + m)
    decreases n
  {
    if n > 0 {
      var z :| z in g[x] && Leads(g, z, y, n - 1);
      LeadsDescends(g, z, y, n - 1, m);
    }
  }

  lemma {:induction false} DescendsLess<T>(g: map<T, set<T>>, x: T, n: nat, m: nat)
    requires Descends(g, x, n) && m <= n
    ensures Descends(g, x, m)
  {
    if m > 0 {
      var y :| y in g[x] && Descends(g, y, n - 1);
      DescendsLess(g, y, n - 1, m - 1);
    }
  }

  /** Round and round: the ways are longer than any number. */
  lemma {:induction false} CircleDescends<T>(g: map<T, set<T>>, y: T, m: nat, n: nat)
    requires m > 0 && Leads(g, y, y, m)
    ensures Descends(g, y, n)
    decreases n
  {
    if n > 0 {
      var rest := if n < m then 0 else n - m;
      CircleDescends(g, y, m, rest);
      LeadsDescends(g, y, y, m, rest);
      DescendsLess(g, y, m + rest, n);
    }
  }

  /** The nodes on a way along the arrows. */
  lemma {:induction false} DescendsWay<T>(g: map<T, set<T>>, x: T, n: nat) returns (s: seq<T>)
    requires Descends(g, x, n)
    ensures |s| == n + 1 && s[0] == x
    ensures forall i, j | 0 <= i <= j <= n :: Leads(g, s[i], s[j], j - i)
    ensures forall i | 0 <= i < n :: s[i] in g
  {
    s := [x];
    if n > 0 {
      var y :| y in g[x] && Descends(g, y, n - 1);
      var rest := DescendsWay(g, y, n - 1);
      s := s + rest;
      forall i, j | 0 <= i <= j <= n ensures Leads(g, s[i], s[j], j - i) {
        if i > 0 {
          assert Leads(g, rest[i - 1], rest[j - 1], j - i);
        } else if j > 0 {
          assert Leads(g, rest[0], rest[j - 1], j - 1);
        }
      }
    }
  }

  /** Without a node twice, a sequence is no longer than there are nodes. */
  lemma {:induction false} Pigeons<T>(s: seq<T>, all: set<T>)
    requires NoDup(s) && forall x | x in s :: x in all
    ensures |s| <= |all|
  {
    if s != [] {
      forall x | x in s[1..] ensures x in all - {s[0]} {
        assert x in s;
      }
      Pigeons(s[1..], all - {s[0]});
    }
  }

  /** A way longer than there are nodes comes to one of them twice. */
  lemma EndlessCircle<T>(g: map<T, set<T>>, x: T)
    requires Descends(g, x, |g.Keys| + 1)
    ensures ReachesCircle(g, x)
  {
    var n := |g.Keys| + 1;
    var s := DescendsWay(g, x, n);
    var front := s[..n];
    assert !NoDup(front) by {
      if NoDup(front) { Pigeons(front, g.Keys); }
    }
    var i, j :| 0 <= i < j < |front| && front[i] == front[j];
    assert Leads(g, s[0], s[i], i) && Leads(g, s[i], s[j], j - i);
  }

  /** The recursion ends if and only if no circle can be reached. */
  lemma StopsIffNoCircle<T>(g: map<T, set<T>>, x: T)
    ensures Stops(g, x) <==> !ReachesCircle(g, x)
  {
    if ReachesCircle(g, x) {
      var y, n: nat, m: nat :| y in g && m > 0 && Leads(g, x, y, n) && Leads(g, y, y, m);
      forall l: nat ensures Descends(g, x, l) {
        CircleDescends(g, y, m, l);
        LeadsDescends(g, x, y, n, l);
        DescendsLess(g, x, n + l, l);
      }
    }
    if Descends(g, x, |g.Keys| + 1) { EndlessCircle(g, x); }
  }

  /** A recursion ends if all the recursions it starts end. */
  lemma AllStop<T>(g: map<T, set<T>>, x: T)
    requires x in g ==> forall y | y in g[x] :: Stops(g, y)
    ensures Stops(g, x)
  {
    var n := |g.Keys| + 2;
    if Descends(g, x, n) {
      var y :| y in g[x] && Descends(g, y, n - 1);
      EndlessCircle(g, y);
      StopsIffNoCircle(g, y);
    }
  }

  /** Ranks fall along the arrows from the nodes of `s`, and the arrows stay in `s`. */
  ghost predicate Ranked<T>(g: map<T, set<T>>, s: set<T>, rank: map<T, nat>) {
    s <= rank.Keys && forall y, z {:trigger z in g[y]} | y in s && y in g && z in g[y] :: z in s && rank[z] < rank[y]
  }

  lemma {:induction false} RanksBound<T>(g: map<T, set<T>>, s: set<T>, rank: map<T, nat>, x: T, n: nat)
    requires Ranked(g, s, rank) && x in s && Descends(g, x, n)
    ensures n <= rank[x]
  {
    if n > 0 {
      var y :| y in g[x] && Descends(g, y, n - 1);
      assert rank[y] < rank[x];
      RanksBound(g, s, rank, y, n - 1);
    }
  }

  /** Ranks for what can be reached from `x` prove that the recursion ends; and if it does, the
      heights are such ranks. */
  lemma RanksProveEnd<T>(g: map<T, set<T>>, s: set<T>, rank: map<T, nat>, x: T)
    requires Ranked(g, s, rank) && x in s
    ensures Stops(g, x)
  {
    if Descends(g, x, rank[x] + 1) { RanksBound(g, s, rank, x, rank[x] + 1); }
  }

  lemma HeightsAreRanks<T>(g: map<T, set<T>>, s: set<T>)
    requires (forall y | y in s :: Stops(g, y)) && forall y, z | y in s && y in g && z in g[y] :: z in s
    ensures Ranked(g, s, map y | y in s :: Height(g, y))
  {
    forall y, z | y in s && y in g && z in g[y] ensures Height(g, z) < Height(g, y) { HeightFalls(g, y, z); }
  }
}
