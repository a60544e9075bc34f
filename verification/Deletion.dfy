/** Deleting content together with every reference that points into what disappears. */
module Deletion {
  import opened Sequences
  import opened Chains
  import opened Circles
  import opened Forests
  import opened WriteBack
  import opened Runs

  // ---------- the closure ----------

  /** `s` and, for every reference into it, the subtree of that reference. */
  ghost function Grow<T>(f: Forest<T>, links: map<T, T>, s: set<T>): set<T>
    requires WellFormed(f)
  {
    s + set m | m in f.kids && exists r :: r in links && links[r] in s && Under(f.parent, m, r)
  }

  /** A reference into `s` takes its own subtree along. */
  ghost predicate Closed<T>(f: Forest<T>, links: map<T, T>, s: set<T>)
    requires WellFormed(f)
  {
    && s <= f.kids.Keys
    && forall r {:trigger Subtree(f.parent, r)} | r in links && links[r] in s :: Subtree(f.parent, r) <= s
  }

  /** The least closed set that contains `s`. */
  ghost function Closure<T>(f: Forest<T>, links: map<T, T>, s: set<T>): set<T>
    requires WellFormed(f) && s <= f.kids.Keys
    decreases f.kids.Keys - s
  {
    if Grow(f, links, s) <= s then s else Closure(f, links, Grow(f, links, s))
  }

  lemma {:induction false} ClosureCloses<T>(f: Forest<T>, links: map<T, T>, s: set<T>)
    requires WellFormed(f) && s <= f.kids.Keys
    ensures s <= Closure(f, links, s) && Closed(f, links, Closure(f, links, s))
    decreases f.kids.Keys - s
  {
    var g := Grow(f, links, s);
    if g <= s {
      forall r | r in links && links[r] in s ensures Subtree(f.parent, r) <= s {
        forall m | m in Subtree(f.parent, r) ensures m in g {}
      }
    } else {
      ClosureCloses(f, links, g);
    }
  }

  lemma {:induction false} ClosureLeast<T>(f: Forest<T>, links: map<T, T>, s: set<T>, e: set<T>)
    requires WellFormed(f) && s <= e && Closed(f, links, e)
    ensures Closure(f, links, s) <= e
    decreases f.kids.Keys - s
  {
    var g := Grow(f, links, s);
    forall m | m in g ensures m in e {
      if m !in s {
        var r :| r in links && links[r] in s && Under(f.parent, m, r);
        assert m in Subtree(f.parent, r);
      }
    }
    if !(g <= s) { ClosureLeast(f, links, g, e); }
  }

  /** A closed set between `s` and its closure is the closure. */
  lemma ClosureIs<T>(f: Forest<T>, links: map<T, T>, s: set<T>, d: set<T>)
    requires WellFormed(f) && s <= f.kids.Keys && s <= d && d <= Closure(f, links, s) && Closed(f, links, d)
    ensures d == Closure(f, links, s)
  {
    ClosureLeast(f, links, s, d);
  }

  /** With every node the whole of its subtree. */
  ghost predicate Downward<T>(f: Forest<T>, s: set<T>)
    requires WellFormed(f)
  {
    s <= f.kids.Keys && forall n {:trigger Subtree(f.parent, n)} | n in s :: Subtree(f.parent, n) <= s
  }

  lemma DownwardSubtree<T>(f: Forest<T>, s: set<T>, n: T)
    requires WellFormed(f) && Downward(f, s) && n in f.kids
    ensures Downward(f, s + Subtree(f.parent, n))
  {
    var t := s + Subtree(f.parent, n);
    forall a, m | a in t && m in Subtree(f.parent, a) ensures m in t {
      if a !in s { UnderTransitive(f.parent, m, a, n); }
    }
  }

  // ---------- the forest without a set of nodes ----------

  /** The nodes of `gone` stand alone, all others have lost just them. */
  ghost function CutOff<T>(f: Forest<T>, gone: set<T>): Forest<T> {
    Forest(
      map m | m in f.parent :: if m in gone then None else f.parent[m],
      map m | m in f.kids :: if m in gone then [] else Minus(f.kids[m], gone),
      {})
  }

  lemma CutOffAcyclic<T>(f: Forest<T>, gone: set<T>)
    requires WellFormed(f)
    ensures Pruned(f.parent, CutOff(f, gone).parent) && Acyclic(CutOff(f, gone).parent)
  {
    PrunedAcyclic(f.parent, CutOff(f, gone).parent);
  }

  lemma CutOffListed<T>(f: Forest<T>, gone: set<T>)
    requires WellFormed(f) && Downward(f, gone)
    ensures Listed(CutOff(f, gone))
  {
    var g := CutOff(f, gone);
    forall c | c in g.parent && g.parent[c].Some?
      ensures g.parent[c].value in g.kids && c in g.kids[g.parent[c].value]
    {
      ParentKept(f, gone, c);
    }
  }

  lemma CutOffKid<T>(f: Forest<T>, gone: set<T>, p: T, c: T)
    requires WellFormed(f) && p in f.kids && c in CutOff(f, gone).kids[p]
    ensures c in CutOff(f, gone).parent && CutOff(f, gone).parent[c] == Some(p)
  {
    assert CutOff(f, gone).kids[p] == if p in gone then [] else Minus(f.kids[p], gone);
    KidOf(f, p, c, Minus(f.kids[p], gone));
  }

  lemma KidOf<T>(f: Forest<T>, p: T, c: T, some: seq<T>)
    requires WellFormed(f) && p in f.kids && c in some && forall x | x in some :: x in f.kids[p]
    ensures c in f.parent && f.parent[c] == Some(p)
  {}

  lemma CutOffOwned<T>(f: Forest<T>, gone: set<T>)
    requires WellFormed(f)
    ensures Owned(CutOff(f, gone))
  {
    var g := CutOff(f, gone);
    forall p | p in g.kids ensures forall c | c in g.kids[p] :: c in g.parent && g.parent[c] == Some(p) {
      forall c | c in g.kids[p] ensures c in g.parent && g.parent[c] == Some(p) {
        CutOffKid(f, gone, p, c);
      }
    }
  }

  lemma CutOffWellFormed<T>(f: Forest<T>, gone: set<T>)
    requires WellFormed(f) && Downward(f, gone)
    ensures WellFormed(CutOff(f, gone))
  {
    var g := CutOff(f, gone);
    CutOffAcyclic(f, gone);
    CutOffListed(f, gone);
    CutOffOwned(f, gone);
    forall p | p in g.kids ensures NoDup(g.kids[p]) { MinusNoDup(f.kids[p], gone); }
  }

  lemma ParentKept<T>(f: Forest<T>, gone: set<T>, c: T)
    requires WellFormed(f) && Downward(f, gone) && c in f.parent && c !in gone && f.parent[c].Some?
    ensures f.parent[c].value in f.kids && f.parent[c].value !in gone
  {
    var p := f.parent[c].value;
    UnderStep(f.parent, c, p);
    UnderStep(f.parent, p, p);
    assert c in Subtree(f.parent, p);
  }

  /** Who is below whom once a downward set is cut off. */
  lemma CutOffUnder<T>(f: Forest<T>, gone: set<T>, m: T, a: T)
    requires WellFormed(f) && Downward(f, gone) && m in f.kids
    ensures WellFormed(CutOff(f, gone)) && m in CutOff(f, gone).kids
    ensures Under(CutOff(f, gone).parent, m, a) <==> m == a || (m !in gone && Under(f.parent, m, a))
  {
    CutOffWellFormed(f, gone);
    var low := CutOff(f, gone).parent;
    UnderStep(low, m, a);
    if m !in gone {
      forall x | x in Chain(f.parent, m) ensures low[x] == f.parent[x] {
        assert m in Subtree(f.parent, x);
      }
      SameChain(f.parent, low, m);
      UnderStep(f.parent, m, a);
    }
  }

  lemma IsolateKidsAt<T>(f: Forest<T>, gone: set<T>, n: T, m: T)
    requires WellFormed(f) && Downward(f, gone) && n in f.kids && m in f.kids
    requires m !in gone && !Under(f.parent, m, n)
    ensures Minus(f.kids[m], gone + Subtree(f.parent, n)) ==
      if n !in gone && f.parent[n] == Some(m) then Without(Minus(f.kids[m], gone), n) else Minus(f.kids[m], gone)
  {
    var sub := Subtree(f.parent, n);
    UnderStep(f.parent, n, n);
    forall c | c in f.kids[m] ensures c in sub <==> c == n {
      UnderStep(f.parent, c, n);
    }
    if n !in gone && f.parent[n] == Some(m) {
      MinusOneMore(f.kids[m], gone, n);
      MinusSame(f.kids[m], gone + sub, gone + {n});
    } else {
      if n in f.kids[m] { assert n in gone; }
      MinusSame(f.kids[m], gone + sub, gone);
    }
  }

  lemma IsolateAt<T>(g: Forest<T>, n: T, m: T)
    requires WellFormed(g) && n in g.kids && m in g.kids
    ensures Isolate(g, n).kids.Keys == Isolate(g, n).parent.Keys == g.kids.Keys
    ensures Isolate(g, n).parent[m] == if Under(g.parent, m, n) then None else g.parent[m]
    ensures Isolate(g, n).kids[m] ==
      if Under(g.parent, m, n) then [] else if g.parent[n] == Some(m) then Without(g.kids[m], n) else g.kids[m]
  {
    BelowLast(g, n);
  }

  lemma IsolateCutOffAt<T>(f: Forest<T>, gone: set<T>, n: T, m: T)
    requires WellFormed(f) && Downward(f, gone) && n in f.kids && m in f.kids
    ensures WellFormed(CutOff(f, gone))
    ensures m in Isolate(CutOff(f, gone), n).kids && m in Isolate(CutOff(f, gone), n).parent
    ensures Isolate(CutOff(f, gone), n).parent[m] == CutOff(f, gone + Subtree(f.parent, n)).parent[m]
    ensures Isolate(CutOff(f, gone), n).kids[m] == CutOff(f, gone + Subtree(f.parent, n)).kids[m]
  {
    CutOffWellFormed(f, gone);
    var g := CutOff(f, gone);
    IsolateAt(g, n, m);
    CutOffUnder(f, gone, m, n);
    UnderStep(f.parent, n, n);
    if n in gone { assert Subtree(f.parent, n) <= gone; }
    if m !in gone + Subtree(f.parent, n) { IsolateKidsAt(f, gone, n, m); }
  }

  /** Isolating a node, gone already or not, cuts off its old subtree, and that is all. */
  lemma IsolateCutOff<T>(f: Forest<T>, gone: set<T>, n: T)
    requires WellFormed(f) && Downward(f, gone) && n in f.kids
    ensures WellFormed(CutOff(f, gone)) && Downward(f, gone + Subtree(f.parent, n))
    ensures Isolate(CutOff(f, gone), n).(changed := {}) == CutOff(f, gone + Subtree(f.parent, n))
  {
    CutOffWellFormed(f, gone);
    DownwardSubtree(f, gone, n);
    forall m | m in f.kids
      ensures Isolate(CutOff(f, gone), n).parent[m] == CutOff(f, gone + Subtree(f.parent, n)).parent[m]
      ensures Isolate(CutOff(f, gone), n).kids[m] == CutOff(f, gone + Subtree(f.parent, n)).kids[m]
    {
      IsolateCutOffAt(f, gone, n, m);
    }
    IsolateAt(CutOff(f, gone), n, n);
    SameMaps(Isolate(CutOff(f, gone), n), CutOff(f, gone + Subtree(f.parent, n)));
  }

  lemma SameMaps<T>(h: Forest<T>, k: Forest<T>)
    requires h.parent.Keys == k.parent.Keys == h.kids.Keys == k.kids.Keys
    requires forall m | m in h.kids :: h.kids[m] == k.kids[m] && h.parent[m] == k.parent[m]
    ensures h.parent == k.parent && h.kids == k.kids
  {}

  // ---------- the run of a cascading deletion ----------

  /** What stays fixed during the run: the forest it starts from, the root, and what the nodes are and
      refer to. */
  datatype Cascade<T(==)> = Cascade(f: Forest<T>, root: T, kinds: map<T, Kind>, targets: map<T, Option<T>>)

  ghost predicate WellPosed<T>(p: Cascade<T>) {
    && Sound(p.f, p.root) && p.kinds.Keys == p.targets.Keys == p.f.kids.Keys
    && (forall r | r in p.targets && p.targets[r].Some? :: p.targets[r].value in p.kinds)
    && p.kinds[p.root] != Reference
  }

  /** The stored references and what they refer to. */
  ghost function Links<T>(p: Cascade<T>): map<T, T>
    requires WellFormed(p.f) && p.root in p.f.kids && p.kinds.Keys == p.targets.Keys == p.f.kids.Keys
  {
    map r | r in p.f.kids && Rooted(p.f, p.root, r) && p.kinds[r] == Reference && p.targets[r].Some? ::
      p.targets[r].value
  }

  /** The references into the subtree of each node: from a call of `deleteReferences` for the node, the
      calls for these are made. */
  ghost function Pointers<T>(p: Cascade<T>): map<T, set<T>>
    requires WellPosed(p)
  {
    map c | c in p.f.kids :: set r | r in Links(p) && Links(p)[r] in Subtree(p.f.parent, c)
  }

  /** The calls that a deletion of `c` makes are nested in bounded depth. The graph is behind a quantifier
      so that only proofs that name it look into it. */
  ghost predicate Ending<T>(p: Cascade<T>, c: T) {
    WellPosed(p) && c in p.f.kids && forall g | g == Pointers(p) :: Stops(g, c)
  }

  ghost function Nesting<T>(p: Cascade<T>, c: T): nat
    requires Ending(p, c)
  {
    Height(Pointers(p), c)
  }

  /** The rows of the rooted nodes of `f` once the nodes of `gone` are cut off. */
  ghost function RowsWithout<T>(f: Forest<T>, root: T, gone: set<T>): map<T, Row<T>>
    requires WellFormed(f)
  {
    map n | n in f.kids && Rooted(f, root, n) && n !in gone :: Row(f.parent[n], Minus(f.kids[n], gone))
  }

  /** In the middle of the run: tree and database are in step and show `f` with the nodes of `gone`
      cut off, and no stored reference that is left refers to them. */
  ghost predicate Midway<T>(p: Cascade<T>, w: World<T>, gone: set<T>) {
    Together(
      && WellPosed(p) && Downward(p.f, gone) && Closed(p.f, Links(p), gone) && p.root !in gone
      && w.tree == CutOff(p.f, gone) && w.stored == RowsWithout(p.f, p.root, gone)
      && w.ids.Keys == p.kinds.Keys && w.kinds == p.kinds)
  }

  lemma RescanCutOff<T>(f: Forest<T>, root: T, gone: set<T>)
    requires Sound(f, root) && Downward(f, gone) && root !in gone
    ensures WellFormed(CutOff(f, gone)) && Rescan(CutOff(f, gone), root) == RowsWithout(f, root, gone)
  {
    CutOffWellFormed(f, gone);
    forall n | n in f.kids
      ensures n in CutOff(f, gone).kids && (Rooted(CutOff(f, gone), root, n) <==> Rooted(f, root, n) && n !in gone)
    {
      CutOffUnder(f, gone, n, root);
      UnderStep(f.parent, root, root);
    }
    assert Rescan(CutOff(f, gone), root).Keys == RowsWithout(f, root, gone).Keys;
  }

  lemma MidwayTyped<T>(p: Cascade<T>, w: World<T>, gone: set<T>)
    requires Midway(p, w, gone)
    ensures Typed(w) && Sound(w.tree, p.root) && w.stored == Rescan(w.tree, p.root)
  {
    RescanCutOff(p.f, p.root, gone);
  }

  lemma CutOffNothing<T>(f: Forest<T>)
    requires WellFormed(f) && f.changed == {}
    ensures CutOff(f, {}) == f
  {
    forall m | m in f.kids ensures Minus(f.kids[m], {}) == f.kids[m] {
      MinusNothing(f.kids[m], {});
    }
    SameMaps(CutOff(f, {}), f);
  }

  /** The run starts where tree and database are in step and nothing is gone. */
  lemma MidwayStart<T>(p: Cascade<T>, w: World<T>)
    requires WellPosed(p) && Typed(w) && w.tree == p.f && w.kinds == p.kinds
    requires p.f.changed == {} && w.stored == Rescan(p.f, p.root)
    ensures Midway(p, w, {})
  {
    CutOffNothing(p.f);
    RescanCutOff(p.f, p.root, {});
  }

  /** The reference is gone if it refers into the subtree of `c`. */
  ghost predicate Settled<T>(p: Cascade<T>, c: T, r: T, gone: set<T>) {
    WellPosed(p) && (r in Links(p) && Links(p)[r] in Subtree(p.f.parent, c) ==> r in gone)
  }

  /** All references into the subtree of `c` are gone. */
  ghost predicate Unreferenced<T>(p: Cascade<T>, c: T, gone: set<T>) {
    WellPosed(p) && forall r {:trigger Settled(p, c, r, gone)} | r in Links(p) :: Settled(p, c, r, gone)
  }

  /** A node the query may return: either it refers to nothing, or it is a link. */
  ghost predicate Referring<T>(p: Cascade<T>, r: T) {
    WellPosed(p) && r in p.targets && (p.targets[r].Some? ==> r in Links(p))
  }

  ghost predicate AllReferring<T>(p: Cascade<T>, refs: seq<T>) {
    forall j | 0 <= j < |refs| :: Referring(p, refs[j])
  }

  /** The list holds every link that is not gone. */
  ghost predicate Snapshot<T>(p: Cascade<T>, refs: seq<T>, gone: set<T>) {
    && WellPosed(p) && AllReferring(p, refs)
    && forall r | r in Links(p) :: r in refs || r in gone
  }

  /** What a query for the stored references finds. */
  ghost predicate Answered<T>(w: World<T>, refs: seq<T>) {
    && (forall r | r in refs :: r in w.stored && (r in w.kinds ==> w.kinds[r] == Reference))
    && forall r | r in w.stored && r in w.kinds && w.kinds[r] == Reference :: r in refs
  }

  lemma MidwaySnapshot<T>(p: Cascade<T>, w: World<T>, gone: set<T>, refs: seq<T>)
    requires Midway(p, w, gone) && Answered(w, refs)
    ensures Snapshot(p, refs, gone)
  {}

  lemma RootNotInside<T>(f: Forest<T>, root: T, n: T)
    requires Sound(f, root) && n in f.kids && n != root
    ensures root !in Subtree(f.parent, n)
  {
    UnderStep(f.parent, root, n);
  }

  lemma ClosedWithSubtree<T>(f: Forest<T>, links: map<T, T>, gone: set<T>, c: T)
    requires WellFormed(f) && c in f.kids && Downward(f, gone) && Closed(f, links, gone)
    requires forall r | r in links && links[r] in Subtree(f.parent, c) :: r in gone
    ensures Closed(f, links, gone + Subtree(f.parent, c))
  {}

  lemma ClosedUnreferenced<T>(p: Cascade<T>, gone: set<T>, c: T)
    requires WellPosed(p) && c in p.f.kids
    requires Downward(p.f, gone) && Closed(p.f, Links(p), gone) && Unreferenced(p, c, gone)
    ensures Closed(p.f, Links(p), gone + Subtree(p.f.parent, c))
  {
    forall r | r in Links(p) && Links(p)[r] in Subtree(p.f.parent, c) ensures r in gone {
      assert Settled(p, c, r, gone);
    }
    ClosedWithSubtree(p.f, Links(p), gone, c);
  }

  lemma WrittenIsRescan<T>(f: Forest<T>, root: T, stored: map<T, Row<T>>, n: T)
    requires Sound(f, root) && stored == Rescan(f, root) && n in f.kids
    ensures WellFormed(Isolate(f, n)) && Isolate(f, n).changed <= Isolate(f, n).kids.Keys
    ensures Flush(Isolate(f, n), root, stored, Isolate(f, n).changed) == Rescan(Isolate(f, n).(changed := {}), root)
  {
    IsolateAcyclic(f, n);
    IsolateTracked(f, root, stored, n);
    FlushIsRescan(Isolate(f, n), root, stored);
  }

  /** One call of `Nodes.delete`, on a node still there or not. */
  lemma MidwayDelete<T>(p: Cascade<T>, w: World<T>, gone: set<T>, n: T)
    requires Midway(p, w, gone)
    requires n in p.f.kids && n != p.root && Unreferenced(p, n, gone)
    ensures Typed(w) && p.root in w.ids && n in w.ids
    ensures Midway(p, Step(w, p.root, Delete(n)), gone + Subtree(p.f.parent, n))
  {
    MidwayTyped(p, w, gone);
    IsolateCutOff(p.f, gone, n);
    RootNotInside(p.f, p.root, n);
    ClosedUnreferenced(p, gone, n);
    WrittenIsRescan(w.tree, p.root, w.stored, n);
    WrittenWellFormed(w, Delete(n));
    RescanCutOff(p.f, p.root, gone + Subtree(p.f.parent, n));
  }

  /** `r` is a reference into the subtree of `c`. */
  ghost predicate Points<T>(p: Cascade<T>, c: T, r: T) {
    WellPosed(p) && r in Links(p) && r != p.root && Links(p)[r] in Subtree(p.f.parent, c)
  }

  lemma PointsLower<T>(p: Cascade<T>, c: T, r: T)
    requires Ending(p, c) && Points(p, c, r)
    ensures Ending(p, r) && Nesting(p, r) < Nesting(p, c)
  {
    assert r in Pointers(p)[c];
    HeightFalls(Pointers(p), c, r);
  }

  /** What the reference refers to is now inside `c`. */
  ghost predicate Inside<T>(p: Cascade<T>, w: World<T>, r: T, c: T)
    requires Acyclic(w.tree.parent)
  {
    && r in p.targets && p.targets[r].Some? && p.targets[r].value in w.tree.parent
    && Under(w.tree.parent, p.targets[r].value, c)
  }

  /** What `isDescendant` says in the middle of the run: a target found inside `c` was there from the
      start; a target not found inside is elsewhere, or gone together with the reference. */
  lemma MidwayInside<T>(p: Cascade<T>, w: World<T>, gone: set<T>, r: T, c: T)
    requires Midway(p, w, gone) && c in p.f.kids && Referring(p, r)
    ensures WellFormed(w.tree)
    ensures Inside(p, w, r, c) ==> Points(p, c, r)
    ensures !Inside(p, w, r, c) ==> Settled(p, c, r, gone)
  {
    CutOffWellFormed(p.f, gone);
    if r in Links(p) {
      var t := Links(p)[r];
      CutOffUnder(p.f, gone, t, c);
      UnderStep(p.f.parent, t, c);
      UnderStep(p.f.parent, r, r);
      assert r in Subtree(p.f.parent, r);
    }
  }

  /** How far one call of `deleteReferences` may go: not beyond the closure of the subtree it was
      called for. */
  ghost predicate Within<T>(p: Cascade<T>, start: set<T>, c: T, gone: set<T>) {
    && WellPosed(p) && start <= p.f.kids.Keys
    && start <= gone && gone <= Closure(p.f, Links(p), start + Subtree(p.f.parent, c))
  }

  lemma WithinStart<T>(p: Cascade<T>, start: set<T>, c: T)
    requires WellPosed(p) && start <= p.f.kids.Keys
    ensures Within(p, start, c, start)
  {
    ClosureCloses(p.f, Links(p), start + Subtree(p.f.parent, c));
  }

  lemma WithinStep<T>(p: Cascade<T>, start: set<T>, c: T, mid: set<T>, gone: set<T>)
    requires Within(p, start, c, mid) && Within(p, mid, c, gone)
    ensures Within(p, start, c, gone)
  {
    var all := Closure(p.f, Links(p), start + Subtree(p.f.parent, c));
    ClosureCloses(p.f, Links(p), start + Subtree(p.f.parent, c));
    ClosureLeast(p.f, Links(p), mid + Subtree(p.f.parent, c), all);
  }

  /** Deleting a reference into the subtree of `c` stays within. */
  lemma WithinReference<T>(p: Cascade<T>, start: set<T>, c: T, r: T)
    requires Points(p, c, r) && start <= p.f.kids.Keys
    ensures r in p.f.kids && r in Closure(p.f, Links(p), start + Subtree(p.f.parent, r))
    ensures Within(p, start, c, Closure(p.f, Links(p), start + Subtree(p.f.parent, r)))
  {
    UnderStep(p.f.parent, r, r);
    var all := Closure(p.f, Links(p), start + Subtree(p.f.parent, c));
    ClosureCloses(p.f, Links(p), start + Subtree(p.f.parent, c));
    ClosureCloses(p.f, Links(p), start + Subtree(p.f.parent, r));
    assert r in Subtree(p.f.parent, r);
    ClosureLeast(p.f, Links(p), start + Subtree(p.f.parent, r), all);
  }

  /** The first `i` references of the list are settled, and nothing is gone that need not be. */
  ghost predicate Swept<T>(p: Cascade<T>, start: set<T>, c: T, refs: seq<T>, i: nat, gone: set<T>) {
    && Within(p, start, c, gone) && i <= |refs|
    && forall j | 0 <= j < i :: Settled(p, c, refs[j], gone)
  }

  /** The same together with the state of all objects. */
  ghost predicate Sweeping<T>(p: Cascade<T>, start: set<T>, c: T, refs: seq<T>, i: nat, w: World<T>, gone: set<T>) {
    Together(Midway(p, w, gone) && AllReferring(p, refs) && Swept(p, start, c, refs, i, gone))
  }

  lemma SweptNone<T>(p: Cascade<T>, start: set<T>, c: T, refs: seq<T>)
    requires Snapshot(p, refs, start) && start <= p.f.kids.Keys
    ensures Swept(p, start, c, refs, 0, start)
  {
    WithinStart(p, start, c);
  }

  lemma SweptNext<T>(p: Cascade<T>, start: set<T>, c: T, refs: seq<T>, i: nat, before: set<T>, gone: set<T>)
    requires Swept(p, start, c, refs, i, before) && i < |refs|
    requires Within(p, before, c, gone) && Settled(p, c, refs[i], gone)
    ensures Swept(p, start, c, refs, i + 1, gone)
  {
    WithinStep(p, start, c, before, gone);
  }

  lemma SweptAll<T>(p: Cascade<T>, start: set<T>, c: T, refs: seq<T>, gone: set<T>)
    requires Snapshot(p, refs, start) && Swept(p, start, c, refs, |refs|, gone)
    ensures Within(p, start, c, gone) && Unreferenced(p, c, gone)
  {
    forall r | r in Links(p) ensures Settled(p, c, r, gone) {}
  }

  /** A direct deletion takes exactly the least set that contains what was gone before, the subtree
      and, with every node, the subtrees of the references to it. */
  lemma DeletedIsClosure<T>(p: Cascade<T>, start: set<T>, c: T, gone: set<T>)
    requires Within(p, start, c, gone) && Unreferenced(p, c, gone)
    requires c in p.f.kids && Downward(p.f, gone) && Closed(p.f, Links(p), gone)
    ensures gone + Subtree(p.f.parent, c) == Closure(p.f, Links(p), start + Subtree(p.f.parent, c))
  {
    var s := start + Subtree(p.f.parent, c);
    ClosedUnreferenced(p, gone, c);
    ClosureCloses(p.f, Links(p), s);
    ClosureLeast(p.f, Links(p), s, gone + Subtree(p.f.parent, c));
  }

  // ---------- no dangling references ----------

  /** No stored reference refers to a node that is not stored. */
  ghost predicate NoDangling<T>(w: World<T>, targets: map<T, Option<T>>) {
    forall r | r in w.stored && r in w.kinds && r in targets && w.kinds[r] == Reference && targets[r].Some? ::
      targets[r].value in w.stored
  }

  /** What is left in the middle of the run and at its end dangles only if something did before. */
  lemma MidwayNoDangling<T>(p: Cascade<T>, w: World<T>, gone: set<T>)
    requires Midway(p, w, gone)
    requires forall r | r in Links(p) :: Rooted(p.f, p.root, Links(p)[r])
    ensures NoDangling(w, p.targets)
  {
    forall r | r in w.stored && r in w.kinds && r in p.targets && w.kinds[r] == Reference && p.targets[r].Some?
      ensures p.targets[r].value in w.stored
    {
      assert r in Links(p);
      UnderStep(p.f.parent, r, r);
      assert r in Subtree(p.f.parent, r);
    }
  }
}
