/** What the methods of a node do to the whole forest, as functions on one value of it: the
    parent pointer and the child array of every node, and the set of nodes marked as changed. */
module Forests {
  import opened Sequences
  import opened Chains

  datatype Forest<T(==)> = Forest(parent: map<T, Option<T>>, kids: map<T, seq<T>>, changed: set<T>)

  /** Whoever has a parent is in the child array of that parent. */
  ghost predicate Listed<T>(f: Forest<T>) {
    forall c {:trigger f.parent[c]} | c in f.parent && f.parent[c].Some? ::
      f.parent[c].value in f.kids && c in f.kids[f.parent[c].value]
  }

  /** Whoever is in a child array has the owner of that array as parent. */
  ghost predicate Owned<T>(f: Forest<T>) {
    forall p, c {:trigger c in f.kids[p]} | p in f.kids && c in f.kids[p] :: c in f.parent && f.parent[c] == Some(p)
  }

  /** `c` is in the child array of `p`, and then once, exactly when `p` is the parent of `c`. */
  ghost predicate Linked<T>(f: Forest<T>) {
    && f.parent.Keys == f.kids.Keys
    && f.changed <= f.kids.Keys
    && Listed(f)
    && Owned(f)
    && forall p | p in f.kids :: NoDup(f.kids[p])
  }

  ghost predicate WellFormed<T>(f: Forest<T>) {
    Linked(f) && Acyclic(f.parent)
  }

  // ---------- detaching from the parent, appending one child ----------

  /** Out of the child array of the parent, which the node still takes for its parent. */
  ghost function LeaveKids<T>(f: Forest<T>, n: T): Forest<T>
    requires Linked(f) && n in f.parent
  {
    match f.parent[n]
    case None => f
    case Some(p) => Forest(f.parent, f.kids[p := Without(f.kids[p], n)], f.changed + {p})
  }

  ghost function DetachParent<T>(f: Forest<T>, n: T): (g: Forest<T>)
    requires Linked(f) && n in f.parent
  {
    match f.parent[n]
    case None => f.(changed := f.changed + {n})
    case Some(p) => Forest(f.parent[n := None], f.kids[p := Without(f.kids[p], n)], f.changed + {p, n})
  }

  lemma DetachParentLinked<T>(f: Forest<T>, n: T)
    requires Linked(f) && n in f.parent
    ensures Linked(DetachParent(f, n))
    ensures DetachParent(f, n).parent == f.parent[n := None]
    ensures forall p | p in f.kids :: n !in DetachParent(f, n).kids[p]
  {
    var g := DetachParent(f, n);
    if f.parent[n].Some? {
      var p := f.parent[n].value;
      WithoutNoDup(f.kids[p], n);
      forall c | c in g.parent && g.parent[c].Some? ensures c in g.kids[g.parent[c].value] {
        WithoutIn(f.kids[p], n, c);
      }
      forall q, c | q in g.kids && c in g.kids[q] ensures c != n && c in f.kids[q] {
        if q == p { WithoutIn(f.kids[p], n, c); }
      }
    } else {
      assert g.parent == f.parent;
    }
  }

  /** Hanging a loose node under `p`, at the end of the child array. */
  ghost function Hang<T>(g: Forest<T>, p: T, c: T): Forest<T>
    requires p in g.kids
  {
    Forest(g.parent[c := Some(p)], g.kids[p := g.kids[p] + [c]], g.changed + {p})
  }

  ghost function AppendChild<T>(f: Forest<T>, p: T, c: T): Forest<T>
    requires Linked(f) && p in f.kids && c in f.kids
  {
    Hang(DetachParent(f, c), p, c)
  }

  lemma HangOwned<T>(g: Forest<T>, p: T, c: T)
    requires Owned(g) && p in g.kids && c in g.parent && g.parent[c].None?
    ensures Owned(Hang(g, p, c))
  {
    var h := Hang(g, p, c);
    forall q, d | q in h.kids && d in h.kids[q] ensures d in h.parent && h.parent[d] == Some(q) {
      if q != p || d != c { assert d in g.kids[q]; }
    }
  }

  lemma HangLinked<T>(g: Forest<T>, p: T, c: T)
    requires Linked(g) && p in g.kids && c in g.kids && g.parent[c].None?
    ensures Linked(Hang(g, p, c))
  {
    assert c !in g.kids[p];
    NoDupAppended(g.kids[p], c);
    HangOwned(g, p, c);
    assert Listed(Hang(g, p, c));
  }

  /** Appending keeps parents and child arrays in step, whatever is appended to what. */
  lemma AppendChildLinked<T>(f: Forest<T>, p: T, c: T)
    requires Linked(f) && p in f.kids && c in f.kids
    ensures Linked(AppendChild(f, p, c))
    ensures AppendChild(f, p, c).parent == f.parent[c := Some(p)]
  {
    DetachParentLinked(f, c);
    HangLinked(DetachParent(f, c), p, c);
  }

  /** Appending keeps the forest free of circles exactly when the target is not the appended
      node or below it, which is what `validateNesting` asks. */
  lemma AppendChildWellFormed<T>(f: Forest<T>, p: T, c: T)
    requires WellFormed(f) && p in f.kids && c in f.kids
    ensures WellFormed(AppendChild(f, p, c)) <==> !Under(f.parent, p, c)
  {
    AppendChildLinked(f, p, c);
    var h := AppendChild(f, p, c);
    if Under(f.parent, p, c) {
      if Acyclic(h.parent) {
        AppendedCircle(f, p, c, p);
        ParentNotUnder(h.parent, c);
      }
    } else {
      AppendUnder(f, p, c, c, c);
    }
  }

  lemma {:induction false} AppendedCircle<T>(f: Forest<T>, p: T, c: T, n: T)
    requires WellFormed(f) && p in f.kids && c in f.kids && n in f.kids
    requires Under(f.parent, n, c) && Acyclic(f.parent[c := Some(p)])
    ensures Under(f.parent[c := Some(p)], n, c)
    decreases Depth(f.parent, n)
  {
    var h := f.parent[c := Some(p)];
    UnderStep(f.parent, n, c);
    UnderStep(h, n, c);
    if n != c {
      DepthOfParent(f.parent, n);
      AppendedCircle(f, p, c, f.parent[n].value);
    }
  }

  /** Who is below whom after an append. */
  lemma AppendUnder<T>(f: Forest<T>, p: T, c: T, n: T, a: T)
    requires WellFormed(f) && p in f.kids && c in f.kids && n in f.kids
    requires !Under(f.parent, p, c)
    ensures Acyclic(f.parent[c := Some(p)])
    ensures Under(f.parent[c := Some(p)], n, a) <==>
      if Under(f.parent, n, c)
      then (Under(f.parent, n, a) && a in f.parent && Under(f.parent, a, c)) || Under(f.parent, p, a)
      else Under(f.parent, n, a)
  {
    var cut := f.parent[c := None];
    assert cut[c := Some(p)] == f.parent[c := Some(p)];
    UnderStep(f.parent, c, c);
    CutUnder(f.parent, c, p, c);
    CutUnder(f.parent, c, n, c);
    CutUnder(f.parent, c, p, a);
    CutUnder(f.parent, c, n, a);
    HangUnder(cut, p, c, n, a);
  }

  // ---------- detaching a whole subtree ----------

  /** No node of `gone` keeps a parent or a child, and all of them are marked. */
  ghost function Scatter<T>(f: Forest<T>, gone: set<T>): Forest<T> {
    Forest(
      map m | m in f.parent :: if m in gone then None else f.parent[m],
      map m | m in f.kids :: if m in gone then [] else f.kids[m],
      f.changed + gone)
  }

  /** The forest once everything below `n` is taken apart: no node of the old subtree keeps a
      parent or a child, all of them and the old parent are marked, `n` is gone from the old
      parent's array, and nothing else is different. */
  ghost function Isolate<T>(f: Forest<T>, n: T): Forest<T>
    requires WellFormed(f) && n in f.kids
  {
    var g := Scatter(f, Subtree(f.parent, n));
    match f.parent[n]
    case None => g
    case Some(p) => Forest(g.parent, g.kids[p := Without(f.kids[p], n)], g.changed + {p})
  }

  lemma ScatterTwice<T>(f: Forest<T>, a: set<T>, b: set<T>)
    ensures Scatter(Scatter(f, a), b) == Scatter(f, a + b)
  {
    var g, h := Scatter(Scatter(f, a), b), Scatter(f, a + b);
    assert g.parent == h.parent && g.kids == h.kids && g.changed == h.changed;
  }

  lemma ScatterBeside<T>(f: Forest<T>, a: set<T>, n: T, kids: seq<T>, marks: set<T>)
    requires n in f.kids && n !in a
    ensures Scatter(Forest(f.parent, f.kids[n := kids], f.changed + marks), a) ==
      (var g := Scatter(f, a); Forest(g.parent, g.kids[n := kids], g.changed + marks))
  {
    var g, h := Scatter(Forest(f.parent, f.kids[n := kids], f.changed + marks), a), Scatter(f, a);
    assert g.parent == h.parent;
    assert g.kids == h.kids[n := kids];
  }

  lemma SiblingsNotUnder<T>(up: map<T, Option<T>>, c: T, d: T)
    requires Acyclic(up) && c in up && d in up && c != d && up[c].Some? && up[c] == up[d]
    ensures !Under(up, c, d)
  {
    UnderStep(up, c, d);
    ParentNotUnder(up, d);
  }

  lemma SiblingsApart<T>(up: map<T, Option<T>>, c: T, d: T, m: T)
    requires Acyclic(up) && c in up && d in up && c != d && up[c].Some? && up[c] == up[d] && m in up
    ensures !(Under(up, m, c) && Under(up, m, d))
  {
    if Under(up, m, c) && Under(up, m, d) {
      AncestorsComparable(up, m, c, d);
      SiblingsNotUnder(up, c, d);
      SiblingsNotUnder(up, d, c);
    }
  }

  /** The nodes at or below the first `i` children of `n`. */
  ghost function Below<T>(f: Forest<T>, n: T, i: nat): set<T>
    requires WellFormed(f) && n in f.kids && i <= |f.kids[n]|
  {
    set m | m in f.kids && exists j :: 0 <= j < i && Under(f.parent, m, f.kids[n][j])
  }

  /** The first `i` children of `n` taken apart, `n` itself still in place. */
  ghost function IsolateKids<T>(f: Forest<T>, n: T, i: nat): Forest<T>
    requires WellFormed(f) && n in f.kids && i <= |f.kids[n]|
  {
    var g := Scatter(f, Below(f, n, i));
    Forest(g.parent, g.kids[n := f.kids[n][i..]], g.changed + if i > 0 then {n} else {})
  }

  lemma BelowIsUnder<T>(f: Forest<T>, n: T, i: nat, m: T)
    requires WellFormed(f) && n in f.kids && i <= |f.kids[n]| && m in Below(f, n, i)
    ensures Under(f.parent, m, n) && m != n
  {
    var j :| 0 <= j < i && Under(f.parent, m, f.kids[n][j]);
    var c := f.kids[n][j];
    assert c in f.kids[n];
    UnderStep(f.parent, n, n);
    UnderStep(f.parent, c, n);
    UnderTransitive(f.parent, m, c, n);
    ParentNotUnder(f.parent, c);
  }

  /** Everything strictly below `n` is below one of its children. */
  lemma BelowAll<T>(f: Forest<T>, n: T, m: T)
    requires WellFormed(f) && n in f.kids && m in f.kids
    ensures m in Below(f, n, |f.kids[n]|) <==> Under(f.parent, m, n) && m != n
  {
    if Under(f.parent, m, n) && m != n {
      var c := ChildAbove(f.parent, m, n);
      assert c in f.kids[n];
      var j :| 0 <= j < |f.kids[n]| && f.kids[n][j] == c;
    } else if m in Below(f, n, |f.kids[n]|) {
      BelowIsUnder(f, n, |f.kids[n]|, m);
    }
  }

  /** A child of a node below the first `i` children is below them too, and vice versa unless it
      is itself one of these children. */
  lemma BelowStep<T>(f: Forest<T>, n: T, i: nat, m: T)
    requires WellFormed(f) && n in f.kids && i <= |f.kids[n]| && m in f.kids && f.parent[m].Some?
    ensures f.parent[m].value in f.kids
    ensures m in Below(f, n, i) <==>
      f.parent[m].value in Below(f, n, i) || (exists j :: 0 <= j < i && m == f.kids[n][j])
  {
    forall j | 0 <= j < i ensures Under(f.parent, m, f.kids[n][j]) <==>
      m == f.kids[n][j] || Under(f.parent, f.parent[m].value, f.kids[n][j])
    {
      UnderStep(f.parent, m, f.kids[n][j]);
    }
  }

  lemma IsolateKidsAcyclic<T>(f: Forest<T>, n: T, i: nat)
    requires WellFormed(f) && n in f.kids && i <= |f.kids[n]|
    ensures Pruned(f.parent, IsolateKids(f, n, i).parent) && Acyclic(IsolateKids(f, n, i).parent)
  {
    PrunedAcyclic(f.parent, IsolateKids(f, n, i).parent);
  }

  lemma IsolateKidsListed<T>(f: Forest<T>, n: T, i: nat)
    requires WellFormed(f) && n in f.kids && i <= |f.kids[n]|
    ensures Listed(IsolateKids(f, n, i))
  {
    var g := IsolateKids(f, n, i);
    forall c | c in g.parent && g.parent[c].Some?
      ensures g.parent[c].value in g.kids && c in g.kids[g.parent[c].value]
    {
      BelowStep(f, n, i, c);
      var q := f.parent[c].value;
      if q == n {
        var j :| 0 <= j < |f.kids[n]| && f.kids[n][j] == c;
        assert f.kids[n][i..][j - i] == c;
      }
    }
  }

  lemma KeptKid<T>(f: Forest<T>, n: T, i: nat, q: T, c: T)
    requires WellFormed(f) && n in f.kids && i <= |f.kids[n]| && q in f.kids && c in f.kids[q]
    requires q !in Below(f, n, i) && (q == n ==> c in f.kids[n][i..])
    ensures c in f.parent && f.parent[c] == Some(q) && c !in Below(f, n, i)
  {
    if q == n { NotBefore(f.kids[n], i, c); }
    BelowStep(f, n, i, c);
    assert forall j :: 0 <= j < i ==> f.kids[n][j] in f.kids[n];
  }

  lemma NotBelowSelf<T>(f: Forest<T>, n: T, i: nat)
    requires WellFormed(f) && n in f.kids && i <= |f.kids[n]|
    ensures n !in Below(f, n, i)
  {
    if n in Below(f, n, i) { BelowIsUnder(f, n, i, n); }
  }

  lemma IsolateKidsOwn<T>(f: Forest<T>, n: T, i: nat, q: T, c: T)
    requires WellFormed(f) && n in f.kids && i <= |f.kids[n]| && q in f.kids && c in IsolateKids(f, n, i).kids[q]
    ensures c in f.parent && IsolateKids(f, n, i).parent[c] == Some(q)
  {
    NotBelowSelf(f, n, i);
    if q == n {
      assert c in f.kids[n][i..];
      assert c in f.kids[n];
    }
    KeptKid(f, n, i, q, c);
  }

  lemma IsolateKidsOwned<T>(f: Forest<T>, n: T, i: nat)
    requires WellFormed(f) && n in f.kids && i <= |f.kids[n]|
    ensures Owned(IsolateKids(f, n, i))
  {
    var g := IsolateKids(f, n, i);
    forall q | q in g.kids ensures forall c | c in g.kids[q] :: c in g.parent && g.parent[c] == Some(q) {
      forall c | c in g.kids[q] ensures c in g.parent && g.parent[c] == Some(q) {
        IsolateKidsOwn(f, n, i, q, c);
      }
    }
  }

  lemma IsolateKidsWellFormed<T>(f: Forest<T>, n: T, i: nat)
    requires WellFormed(f) && n in f.kids && i <= |f.kids[n]|
    ensures WellFormed(IsolateKids(f, n, i))
  {
    var g := IsolateKids(f, n, i);
    IsolateKidsAcyclic(f, n, i);
    IsolateKidsListed(f, n, i);
    IsolateKidsOwned(f, n, i);
    assert NoDup(f.kids[n][i..]);
    assert g.changed <= g.kids.Keys;
  }

  lemma NextBelow<T>(f: Forest<T>, n: T, i: nat, m: T)
    requires WellFormed(f) && n in f.kids && i < |f.kids[n]| && m in f.kids
    requires Under(f.parent, m, f.kids[n][i])
    ensures m !in Below(f, n, i)
  {
    var c := f.kids[n][i];
    assert c in f.kids[n];
    forall j | 0 <= j < i ensures !Under(f.parent, m, f.kids[n][j]) {
      var d := f.kids[n][j];
      assert d in f.kids[n];
      SiblingsApart(f.parent, c, d, m);
    }
  }

  /** The subtree of the next child is still whole. */
  lemma NextSubtree<T>(f: Forest<T>, n: T, i: nat)
    requires WellFormed(f) && n in f.kids && i < |f.kids[n]|
    ensures Acyclic(IsolateKids(f, n, i).parent)
    ensures Subtree(IsolateKids(f, n, i).parent, f.kids[n][i]) == Subtree(f.parent, f.kids[n][i])
  {
    IsolateKidsAcyclic(f, n, i);
    var low, c := IsolateKids(f, n, i).parent, f.kids[n][i];
    forall m | m in Subtree(f.parent, c) ensures low[m] == f.parent[m] {
      NextBelow(f, n, i, m);
    }
    forall m | m in f.parent ensures Under(low, m, c) <==> Under(f.parent, m, c) {
      if Under(f.parent, m, c) {
        PrunedKeeps(f.parent, low, m, c);
      } else if Under(low, m, c) {
        PrunedUnder(f.parent, low, m, c);
      }
    }
  }

  lemma BelowNext<T>(f: Forest<T>, n: T, i: nat)
    requires WellFormed(f) && n in f.kids && i < |f.kids[n]|
    ensures Below(f, n, i + 1) == Below(f, n, i) + Subtree(f.parent, f.kids[n][i])
    ensures n !in Below(f, n, i + 1)
  {
    if n in Below(f, n, i + 1) { BelowIsUnder(f, n, i + 1, n); }
  }

  lemma IsolateNone<T>(f: Forest<T>, n: T)
    requires WellFormed(f) && n in f.kids
    ensures IsolateKids(f, n, 0) == f
  {
    var g := IsolateKids(f, n, 0);
    assert g.parent == f.parent && g.kids == f.kids && g.changed == f.changed;
  }

  /** One turn of the loop over the children: the next child is isolated. */
  lemma IsolateNext<T>(f: Forest<T>, n: T, i: nat)
    requires WellFormed(f) && n in f.kids && i < |f.kids[n]|
    requires WellFormed(IsolateKids(f, n, i))
    ensures f.kids[n][i] in f.kids
    ensures Isolate(IsolateKids(f, n, i), f.kids[n][i]) == IsolateKids(f, n, i + 1)
  {
    NextStillThere(f, n, i);
    NextSubtree(f, n, i);
    BelowNext(f, n, i);
    IsolateNextEqual(f, Below(f, n, i), Subtree(f.parent, f.kids[n][i]), n, f.kids[n][i..], if i > 0 then {n} else {});
    assert f.kids[n][i..][1..] == f.kids[n][i + 1..];
  }

  lemma IsolateNextEqual<T>(f: Forest<T>, a: set<T>, b: set<T>, n: T, kids: seq<T>, marks: set<T>)
    requires n in f.kids && n !in a + b && |kids| > 0 && marks <= {n}
    ensures var s, u := Scatter(f, a), Scatter(f, a + b);
      var t := Scatter(Forest(s.parent, s.kids[n := kids], s.changed + marks), b);
      Forest(t.parent, t.kids[n := Without(kids, kids[0])], t.changed + {n})
      == Forest(u.parent, u.kids[n := kids[1..]], u.changed + {n})
  {
    ScatterTwice(f, a, b);
    ScatterBeside(Scatter(f, a), b, n, kids, marks);
  }

  lemma NextStillThere<T>(f: Forest<T>, n: T, i: nat)
    requires WellFormed(f) && n in f.kids && i < |f.kids[n]|
    ensures f.kids[n][i] in f.kids && IsolateKids(f, n, i).parent[f.kids[n][i]] == Some(n)
    ensures IsolateKids(f, n, i).kids[n] == f.kids[n][i..]
  {
    var c := f.kids[n][i];
    assert c in f.kids[n];
    UnderStep(f.parent, c, c);
    NextBelow(f, n, i, c);
  }

  lemma BelowLast<T>(f: Forest<T>, n: T)
    requires WellFormed(f) && n in f.kids
    ensures Subtree(f.parent, n) == Below(f, n, |f.kids[n]|) + {n} && n !in Below(f, n, |f.kids[n]|)
    ensures f.parent[n].Some? ==> f.parent[n].value !in Subtree(f.parent, n)
  {
    UnderStep(f.parent, n, n);
    forall m | m in f.kids ensures m in Subtree(f.parent, n) <==> m == n || m in Below(f, n, |f.kids[n]|) {
      BelowAll(f, n, m);
    }
    BelowAll(f, n, n);
    if f.parent[n].Some? { ParentNotUnder(f.parent, n); }
  }

  /** After the last child only the link to the parent is left to cut. */
  lemma IsolateLast<T>(f: Forest<T>, n: T)
    requires WellFormed(f) && n in f.kids
    ensures WellFormed(IsolateKids(f, n, |f.kids[n]|))
    ensures DetachParent(IsolateKids(f, n, |f.kids[n]|), n) == Isolate(f, n)
    ensures WellFormed(Isolate(f, n))
  {
    var i := |f.kids[n]|;
    var g := IsolateKids(f, n, i);
    IsolateKidsWellFormed(f, n, i);
    BelowLast(f, n);
    IsolateLastEqual(f, g, Below(f, n, i), Subtree(f.parent, n), n, if i > 0 then {n} else {});
    var h := DetachParent(g, n);
    DetachParentLinked(g, n);
    PrunedAcyclic(g.parent, h.parent);
  }

  lemma ScatterKids<T>(f: Forest<T>, below: set<T>, all: set<T>, n: T)
    requires n in f.kids && all == below + {n}
    ensures Scatter(f, below).kids[n := []] == Scatter(f, all).kids
    ensures f.parent.Keys == f.kids.Keys ==> Scatter(f, below).parent[n := None] == Scatter(f, all).parent
  {}

  lemma IsolateLastEqual<T>(f: Forest<T>, g: Forest<T>, below: set<T>, all: set<T>, n: T, marks: set<T>)
    requires Linked(f) && n in f.kids && all == below + {n} && n !in below && marks <= {n} && Linked(g)
    requires f.parent[n].Some? ==> f.parent[n].value !in all
    requires var s := Scatter(f, below); g == Forest(s.parent, s.kids[n := []], s.changed + marks)
    ensures DetachParent(g, n) == (var s := Scatter(f, all);
      match f.parent[n]
      case None => s
      case Some(p) => Forest(s.parent, s.kids[p := Without(f.kids[p], n)], s.changed + {p}))
  {
    ScatterKids(f, below, all, n);
    assert g.parent[n] == f.parent[n];
    match f.parent[n]
    case None => assert g.parent[n := None] == g.parent;
    case Some(p) => assert g.kids[p] == f.kids[p];
  }

  // ---------- walking a subtree ----------

  lemma ChildSubtree<T>(f: Forest<T>, n: T, i: nat)
    requires WellFormed(f) && n in f.kids && i < |f.kids[n]|
    ensures f.kids[n][i] in f.kids && Subtree(f.parent, f.kids[n][i]) < Subtree(f.parent, n)
    ensures n !in Subtree(f.parent, f.kids[n][i])
  {
    var c := f.kids[n][i];
    assert c in f.kids[n];
    UnderStep(f.parent, n, n);
    UnderStep(f.parent, c, n);
    ParentNotUnder(f.parent, c);
    forall m | m in Subtree(f.parent, c) ensures m in Subtree(f.parent, n) {
      UnderTransitive(f.parent, m, c, n);
    }
    assert n in Subtree(f.parent, n) && n !in Subtree(f.parent, c);
  }

  /** `n`, then its children in order, each followed by its own descendants. */
  ghost function Preorder<T>(f: Forest<T>, n: T): (s: seq<T>)
    requires WellFormed(f) && n in f.kids
    ensures forall m | m in s :: m in f.kids
    decreases Subtree(f.parent, n), |f.kids[n]| + 1
  {
    [n] + PreorderKids(f, n, 0)
  }

  ghost function PreorderKids<T>(f: Forest<T>, n: T, i: nat): (s: seq<T>)
    requires WellFormed(f) && n in f.kids && i <= |f.kids[n]|
    ensures forall m | m in s :: m in f.kids
    decreases Subtree(f.parent, n), |f.kids[n]| - i
  {
    if i == |f.kids[n]| then [] else
      ChildSubtree(f, n, i);
      Preorder(f, f.kids[n][i]) + PreorderKids(f, n, i + 1)
  }

  /** The walk visits what is below `n`, each node once, and nothing else: looking down from `n`
      and looking up from `m` agree on whether `m` is a descendant. */
  lemma {:induction false} PreorderVisitsOnce<T>(f: Forest<T>, n: T, m: T)
    requires WellFormed(f) && n in f.kids && m in f.kids
    ensures multiset(Preorder(f, n))[m] == if Under(f.parent, m, n) then 1 else 0
    decreases Subtree(f.parent, n), |f.kids[n]| + 1
  {
    PreorderKidsVisitOnce(f, n, 0, m);
    BelowAll(f, n, m);
    UnderStep(f.parent, n, n);
  }

  lemma {:induction false} PreorderKidsVisitOnce<T>(f: Forest<T>, n: T, i: nat, m: T)
    requires WellFormed(f) && n in f.kids && i <= |f.kids[n]| && m in f.kids
    ensures multiset(PreorderKids(f, n, i))[m] ==
      if exists j :: i <= j < |f.kids[n]| && Under(f.parent, m, f.kids[n][j]) then 1 else 0
    decreases Subtree(f.parent, n), |f.kids[n]| - i
  {
    if i < |f.kids[n]| {
      var c := f.kids[n][i];
      ChildSubtree(f, n, i);
      PreorderVisitsOnce(f, c, m);
      PreorderKidsVisitOnce(f, n, i + 1, m);
      if Under(f.parent, m, c) {
        forall j | i < j < |f.kids[n]| ensures !Under(f.parent, m, f.kids[n][j]) {
          assert f.kids[n][j] in f.kids[n] && c in f.kids[n];
          SiblingsApart(f.parent, c, f.kids[n][j], m);
        }
      }
    }
  }

  /** `k` is to be visited after `m`: it is below `m`, or below a later child of some node than `m` is. */
  ghost predicate Before<T>(f: Forest<T>, m: T, k: T)
    requires WellFormed(f) && m in f.kids && k in f.kids
  {
    || (m != k && Under(f.parent, k, m))
    || exists q, u: nat, v: nat :: q in f.kids && u < v < |f.kids[q]| && BelowKid(f, q, u, m) && BelowKid(f, q, v, k)
  }

  ghost predicate BelowKid<T>(f: Forest<T>, q: T, u: nat, m: T)
    requires WellFormed(f) && q in f.kids && u < |f.kids[q]| && m in f.kids
  {
    Under(f.parent, m, f.kids[q][u])
  }

  lemma InPreorder<T>(f: Forest<T>, n: T, m: T)
    requires WellFormed(f) && n in f.kids && m in Preorder(f, n)
    ensures Under(f.parent, m, n)
  {
    PreorderVisitsOnce(f, n, m);
    assert multiset(Preorder(f, n))[m] > 0;
  }

  lemma InPreorderKids<T>(f: Forest<T>, n: T, i: nat, m: T) returns (j: nat)
    requires WellFormed(f) && n in f.kids && i <= |f.kids[n]| && m in PreorderKids(f, n, i)
    ensures i <= j < |f.kids[n]| && m in f.kids && BelowKid(f, n, j, m)
  {
    PreorderKidsVisitOnce(f, n, i, m);
    assert multiset(PreorderKids(f, n, i))[m] > 0;
    j :| i <= j < |f.kids[n]| && Under(f.parent, m, f.kids[n][j]);
  }

  /** The walk comes to every node before it comes to those below it, and to what is below an earlier child
      before what is below a later one. */
  lemma {:induction false} PreorderOrder<T>(f: Forest<T>, n: T, i: nat, j: nat)
    requires WellFormed(f) && n in f.kids && i < j < |Preorder(f, n)|
    ensures Before(f, Preorder(f, n)[i], Preorder(f, n)[j])
    decreases Subtree(f.parent, n), |f.kids[n]| + 1
  {
    if i == 0 {
      var k := InPreorderKids(f, n, 0, Preorder(f, n)[j]);
      ChildStrictly(f, n, k, Preorder(f, n)[j]);
    } else {
      PreorderKidsOrder(f, n, 0, i - 1, j - 1);
    }
  }

  lemma ChildStrictly<T>(f: Forest<T>, n: T, k: nat, m: T)
    requires WellFormed(f) && n in f.kids && k < |f.kids[n]| && m in f.kids && BelowKid(f, n, k, m)
    ensures Under(f.parent, m, n) && m != n
  {
    var c := f.kids[n][k];
    assert c in f.kids[n];
    UnderStep(f.parent, n, n);
    UnderStep(f.parent, c, n);
    UnderTransitive(f.parent, m, c, n);
    ParentNotUnder(f.parent, c);
  }

  lemma {:induction false} PreorderKidsOrder<T>(f: Forest<T>, n: T, u: nat, i: nat, j: nat)
    requires WellFormed(f) && n in f.kids && u <= |f.kids[n]| && i < j < |PreorderKids(f, n, u)|
    ensures Before(f, PreorderKids(f, n, u)[i], PreorderKids(f, n, u)[j])
    decreases Subtree(f.parent, n), |f.kids[n]| - u
  {
    ChildSubtree(f, n, u);
    var first, rest := Preorder(f, f.kids[n][u]), PreorderKids(f, n, u + 1);
    if j < |first| {
      PreorderOrder(f, f.kids[n][u], i, j);
    } else if i >= |first| {
      PreorderKidsOrder(f, n, u + 1, i - |first|, j - |first|);
    } else {
      InPreorder(f, f.kids[n][u], first[i]);
      var v := InPreorderKids(f, n, u + 1, rest[j - |first|]);
      assert BelowKid(f, n, u, first[i]) && BelowKid(f, n, v, rest[j - |first|]);
    }
  }
}
