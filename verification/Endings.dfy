/** Exactly when the recursion of `deleteReferences` ends: its calls followed one by one, with a bound
    on how deep they may be nested. */
module Endings {
  import opened Sequences
  import opened Chains
  import opened Circles
  import opened Forests
  import opened Runs
  import opened Deletion

  /** What the query for references returns while these nodes are gone: the links that are left, in
      an order of its own. */
  ghost predicate Queries<T>(p: Cascade<T>, query: set<T> -> seq<T>) {
    && WellPosed(p)
    && forall gone, r | gone <= p.f.kids.Keys && r in p.f.kids :: r in query(gone) <==> r in Links(p) && r !in gone
  }

  /** `isDescendant` for the target of `r`, on the tree without the nodes of `gone`. */
  ghost predicate FoundInside<T>(p: Cascade<T>, gone: set<T>, r: T, c: T)
    requires WellPosed(p)
  {
    r in Links(p) && (Links(p)[r] == c || (Links(p)[r] !in gone && Links(p)[r] in Subtree(p.f.parent, c)))
  }

  /** A call of `deleteReferences` for `c` with at most `depth` calls nested, itself among them: what is
      gone after it, or none if that depth does not suffice. */
  ghost function Call<T>(p: Cascade<T>, query: set<T> -> seq<T>, c: T, gone: set<T>, depth: nat): Option<set<T>>
    requires WellPosed(p)
    decreases depth, 1, 0
  {
    if depth == 0 then None else Loop(p, query, query(gone), c, gone, depth)
  }

  /** Its loop: for each reference found inside, the call for the reference and then its deletion. */
  ghost function Loop<T>(p: Cascade<T>, query: set<T> -> seq<T>, todo: seq<T>, c: T, gone: set<T>,
                         depth: nat): Option<set<T>>
    requires WellPosed(p) && depth > 0
    decreases depth, 0, |todo|
  {
    if todo == [] then Some(gone)
    else if !FoundInside(p, gone, todo[0], c) then Loop(p, query, todo[1..], c, gone, depth)
    else match Call(p, query, todo[0], gone, depth - 1)
      case None => None
      case Some(after) => Loop(p, query, todo[1..], c, after + Subtree(p.f.parent, todo[0]), depth)
  }

  /** The call comes to its end, with this gone; only proofs that name the call follow it. */
  ghost predicate Calls<T>(p: Cascade<T>, query: set<T> -> seq<T>, c: T, gone: set<T>, depth: nat, after: set<T>)
    requires WellPosed(p)
  {
    forall n | n == depth :: Call(p, query, c, gone, n) == Some(after)
  }

  ghost predicate Loops<T>(p: Cascade<T>, query: set<T> -> seq<T>, todo: seq<T>, c: T, gone: set<T>, depth: nat,
                           after: set<T>)
    requires WellPosed(p) && depth > 0
  {
    forall n | n == depth :: Loop(p, query, todo, c, gone, n) == Some(after)
  }

  lemma LoopEnds<T>(p: Cascade<T>, query: set<T> -> seq<T>, c: T, gone: set<T>, depth: nat, after: set<T>)
    requires WellPosed(p) && depth > 0 && Loops(p, query, [], c, gone, depth, after)
    ensures after == gone
  {
    assert Loop(p, query, [], c, gone, depth) == Some(after);
  }

  lemma LoopSkips<T>(p: Cascade<T>, query: set<T> -> seq<T>, todo: seq<T>, c: T, gone: set<T>, depth: nat,
                     after: set<T>)
    requires WellPosed(p) && depth > 0 && Loops(p, query, todo, c, gone, depth, after)
    requires todo != [] && !FoundInside(p, gone, todo[0], c)
    ensures Loops(p, query, todo[1..], c, gone, depth, after)
  {
    assert Loop(p, query, todo, c, gone, depth) == Some(after);
  }

  lemma LoopEnters<T>(p: Cascade<T>, query: set<T> -> seq<T>, todo: seq<T>, c: T, gone: set<T>, depth: nat,
                      after: set<T>)
    returns (mid: set<T>)
    requires WellPosed(p) && depth > 0 && Loops(p, query, todo, c, gone, depth, after)
    requires todo != [] && FoundInside(p, gone, todo[0], c)
    ensures Calls(p, query, todo[0], gone, depth - 1, mid)
    ensures Loops(p, query, todo[1..], c, mid + Subtree(p.f.parent, todo[0]), depth, after)
  {
    assert Loop(p, query, todo, c, gone, depth) == Some(after);
    mid := Call(p, query, todo[0], gone, depth - 1).value;
  }

  /** Complete downwards and under references, and made of nodes whose own deletion ends. */
  ghost predicate Settling<T>(p: Cascade<T>, gone: set<T>) {
    WellPosed(p) && Downward(p.f, gone) && Closed(p.f, Links(p), gone) && forall m | m in gone :: Ending(p, m)
  }

  lemma EndingBelow<T>(p: Cascade<T>, r: T, m: T)
    requires Ending(p, r) && m in Subtree(p.f.parent, r)
    ensures Ending(p, m)
  {
    forall q | q in Pointers(p)[m] ensures q in Pointers(p)[r] {
      UnderTransitive(p.f.parent, Links(p)[q], m, r);
    }
    forall q | q in Pointers(p)[m] ensures Stops(Pointers(p), q) { HeightFalls(Pointers(p), r, q); }
    AllStop(Pointers(p), m);
  }

  lemma SettlingMore<T>(p: Cascade<T>, gone: set<T>, r: T)
    requires Settling(p, gone) && Ending(p, r) && Unreferenced(p, r, gone)
    ensures Settling(p, gone + Subtree(p.f.parent, r)) && r in Subtree(p.f.parent, r)
  {
    UnderStep(p.f.parent, r, r);
    DownwardSubtree(p.f, gone, r);
    ClosedUnreferenced(p, gone, r);
    forall m | m in Subtree(p.f.parent, r) ensures Ending(p, m) { EndingBelow(p, r, m); }
  }

  /** What is true of a reference into the subtree of `c` once the loop has passed it. */
  ghost predicate Passed<T>(p: Cascade<T>, c: T, r: T, gone: set<T>) {
    WellPosed(p) && (r in Links(p) && Links(p)[r] in Subtree(p.f.parent, c) ==> r in gone && Ending(p, r))
  }

  lemma PassedOver<T>(p: Cascade<T>, c: T, r: T, gone: set<T>)
    requires Settling(p, gone) && !FoundInside(p, gone, r, c)
    ensures Passed(p, c, r, gone)
  {
    if r in Links(p) {
      UnderStep(p.f.parent, r, r);
      assert r in Subtree(p.f.parent, r);
    }
  }

  lemma PassedWith<T>(p: Cascade<T>, c: T, r: T, gone: set<T>, mid: set<T>)
    requires Settling(p, gone) && c in p.f.kids && FoundInside(p, gone, r, c)
    requires Ending(p, r) && Settling(p, mid) && Unreferenced(p, r, mid) && Within(p, gone, r, mid)
    ensures var next := mid + Subtree(p.f.parent, r);
      Settling(p, next) && Within(p, gone, c, next) && Passed(p, c, r, next)
  {
    SettlingMore(p, mid, r);
    DeletedIsClosure(p, gone, r, mid);
    UnderStep(p.f.parent, c, c);
    assert Points(p, c, r);
    WithinReference(p, gone, c, r);
  }

  /** What the rest of a loop has done. */
  ghost predicate LoopDone<T>(p: Cascade<T>, c: T, gone: set<T>, todo: seq<T>, after: set<T>) {
    Settling(p, after) && Within(p, gone, c, after) && forall r | r in todo :: Passed(p, c, r, after)
  }

  lemma LoopDoneNext<T>(p: Cascade<T>, c: T, gone: set<T>, todo: seq<T>, next: set<T>, after: set<T>)
    requires todo != [] && LoopDone(p, c, next, todo[1..], after)
    requires Settling(p, next) && Within(p, gone, c, next) && Passed(p, c, todo[0], next)
    ensures LoopDone(p, c, gone, todo, after)
  {
    WithinStep(p, gone, c, next, after);
    forall r | r in todo ensures Passed(p, c, r, after) {
      if r != todo[0] { assert r in todo[1..]; }
    }
  }

  /** A call that comes to its end had only calls that end to make, and took exactly what the
      deletion takes. */
  lemma {:induction false} CallCompleted<T>(p: Cascade<T>, query: set<T> -> seq<T>, c: T, gone: set<T>, depth: nat,
                                            after: set<T>)
    requires Queries(p, query) && Settling(p, gone) && c in p.f.kids && Calls(p, query, c, gone, depth, after)
    ensures Ending(p, c) && Settling(p, after) && Unreferenced(p, c, after) && Within(p, gone, c, after)
    decreases depth, 1, 0
  {
    var refs := query(gone);
    assert Call(p, query, c, gone, depth) == Some(after);
    forall r | r in refs && r in Links(p) ensures r in p.f.kids {}
    LoopCompleted(p, query, refs, c, gone, depth, after);
    forall r | r in Links(p) ensures Passed(p, c, r, after) {
      if r in gone { assert Ending(p, r); } else { assert r in refs; }
    }
    forall r | r in Pointers(p)[c] ensures Stops(Pointers(p), r) { assert Passed(p, c, r, after); }
    AllStop(Pointers(p), c);
    forall r | r in Links(p) ensures Settled(p, c, r, after) { assert Passed(p, c, r, after); }
  }

  lemma {:induction false} LoopCompleted<T>(p: Cascade<T>, query: set<T> -> seq<T>, todo: seq<T>, c: T, gone: set<T>,
                                            depth: nat, after: set<T>)
    requires Queries(p, query) && Settling(p, gone) && c in p.f.kids && depth > 0
    requires Loops(p, query, todo, c, gone, depth, after)
    ensures LoopDone(p, c, gone, todo, after)
    decreases depth, 0, |todo|, 1
  {
    if todo == [] {
      LoopEnds(p, query, c, gone, depth, after);
      WithinStart(p, gone, c);
    } else {
      var next := FirstPassed(p, query, todo, c, gone, depth, after);
      LoopCompleted(p, query, todo[1..], c, next, depth, after);
      LoopDoneNext(p, c, gone, todo, next, after);
    }
  }

  /** The first reference of the loop is passed, and the rest is left. */
  lemma {:induction false} FirstPassed<T>(p: Cascade<T>, query: set<T> -> seq<T>, todo: seq<T>, c: T, gone: set<T>,
                                          depth: nat, after: set<T>)
    returns (next: set<T>)
    requires Queries(p, query) && Settling(p, gone) && c in p.f.kids && depth > 0
    requires todo != [] && Loops(p, query, todo, c, gone, depth, after)
    ensures Settling(p, next) && Within(p, gone, c, next) && Passed(p, c, todo[0], next)
    ensures Loops(p, query, todo[1..], c, next, depth, after)
    decreases depth, 0, |todo|, 0
  {
    if FoundInside(p, gone, todo[0], c) {
      var mid := LoopEnters(p, query, todo, c, gone, depth, after);
      next := CallTakes(p, query, todo[0], c, gone, depth - 1, mid);
    } else {
      next := gone;
      LoopSkips(p, query, todo, c, gone, depth, after);
      WithinStart(p, gone, c);
      PassedOver(p, c, todo[0], gone);
    }
  }

  /** After the call for a reference and its deletion. */
  lemma {:induction false} CallTakes<T>(p: Cascade<T>, query: set<T> -> seq<T>, r: T, c: T, gone: set<T>, depth: nat,
                                        mid: set<T>) returns (next: set<T>)
    requires Queries(p, query) && Settling(p, gone) && c in p.f.kids && FoundInside(p, gone, r, c)
    requires Calls(p, query, r, gone, depth, mid)
    ensures next == mid + Subtree(p.f.parent, r)
    ensures Settling(p, next) && Within(p, gone, c, next) && Passed(p, c, r, next)
    decreases depth, 2, 0
  {
    next := mid + Subtree(p.f.parent, r);
    CallCompleted(p, query, r, gone, depth, mid);
    PassedWith(p, c, r, gone, mid);
  }

  /** A call whose nesting is bounded comes to its end within that bound, whatever is gone. */
  lemma {:induction false} CallCompletes<T>(p: Cascade<T>, query: set<T> -> seq<T>, c: T, gone: set<T>, depth: nat)
    requires Ending(p, c) && Nesting(p, c) <= depth
    ensures Call(p, query, c, gone, depth).Some?
    decreases depth, 1, 0
  {
    LoopCompletes(p, query, query(gone), c, gone, depth);
  }

  lemma {:induction false} LoopCompletes<T>(p: Cascade<T>, query: set<T> -> seq<T>, todo: seq<T>, c: T,
                                            gone: set<T>, depth: nat)
    requires Ending(p, c) && Nesting(p, c) <= depth && depth > 0
    ensures Loop(p, query, todo, c, gone, depth).Some?
    decreases depth, 0, |todo|
  {
    if todo != [] {
      var r := todo[0];
      if FoundInside(p, gone, r, c) {
        assert r in Pointers(p)[c];
        HeightFalls(Pointers(p), c, r);
        CallCompletes(p, query, r, gone, depth - 1);
        LoopCompletes(p, query, todo[1..], c, Call(p, query, r, gone, depth - 1).value + Subtree(p.f.parent, r), depth);
      } else {
        LoopCompletes(p, query, todo[1..], c, gone, depth);
      }
    }
  }

  /** The call comes to its end within some depth of nesting. */
  ghost predicate Completes<T>(p: Cascade<T>, query: set<T> -> seq<T>, c: T, gone: set<T>)
    requires WellPosed(p)
  {
    exists depth: nat :: Call(p, query, c, gone, depth).Some?
  }

  lemma SettlingNone<T>(p: Cascade<T>)
    requires WellPosed(p)
    ensures Settling(p, {})
  {}

  /** `deleteReferences` for `c` ends if and only if no circle of references, each pointing into the
      subtree of the next, can be reached from the subtree of `c`. With such a circle no depth of
      nesting suffices, in whatever order the queries return the references. Earlier deletions that
      ended change nothing about this. */
  lemma DeletionEndsExactly<T>(p: Cascade<T>, query: set<T> -> seq<T>, c: T, gone: set<T>)
    requires Queries(p, query) && c in p.f.kids && Settling(p, gone)
    ensures Completes(p, query, c, gone) <==> Ending(p, c)
    ensures Ending(p, c) <==> !ReachesCircle(Pointers(p), c)
  {
    StopsIffNoCircle(Pointers(p), c);
    if depth: nat :| Call(p, query, c, gone, depth).Some? {
      CallCompleted(p, query, c, gone, depth, Call(p, query, c, gone, depth).value);
    }
    if Ending(p, c) {
      CallCompletes(p, query, c, gone, Nesting(p, c));
    }
  }

  /** Of two references to each other neither can be deleted: the code calls itself without end. */
  lemma MutualReferences<T>(p: Cascade<T>, a: T, b: T)
    requires WellPosed(p) && a in Links(p) && b in Links(p) && Links(p)[a] == b && Links(p)[b] == a
    ensures !Ending(p, a) && !Ending(p, b)
  {
    var g := Pointers(p);
    UnderStep(p.f.parent, a, a);
    UnderStep(p.f.parent, b, b);
    assert b in g[a] && a in g[b];
    assert Leads(g, a, a, 0) && Leads(g, b, b, 0);
    assert Leads(g, b, a, 1) && Leads(g, a, b, 1);
    assert Leads(g, a, a, 2) && Leads(g, b, b, 2);
    StopsIffNoCircle(g, a);
    StopsIffNoCircle(g, b);
  }

  /** Such references as they stand: two below the root. */
  ghost function Mutual(): Cascade<int> {
    Cascade(
      Forest(map[0 := None, 1 := Some(0), 2 := Some(0)], map[0 := [1, 2], 1 := [], 2 := []], {}), 0,
      map[0 := Folder, 1 := Reference, 2 := Reference], map[0 := None, 1 := Some(2), 2 := Some(1)])
  }

  lemma MutualForest()
    ensures WellFormed(Mutual().f)
  {
    var f := Mutual().f;
    assert forall p | p in f.kids :: p == 0 || f.kids[p] == [];
    assert Owned(f) && Listed(f);
    forall n | n in f.parent ensures Ends(f.parent, n) { assert Grounded(f.parent, n, 1); }
  }

  lemma MutualEndless()
    ensures WellPosed(Mutual()) && !Ending(Mutual(), 1) && !Ending(Mutual(), 2)
  {
    var p := Mutual();
    MutualForest();
    UnderStep(p.f.parent, 0, 0);
    UnderStep(p.f.parent, 1, 0);
    UnderStep(p.f.parent, 2, 0);
    MutualReferences(p, 1, 2);
  }

  /** The same for a deletion from a state in which nothing is gone yet. */
  lemma FreshDeletionEnds<T>(p: Cascade<T>, query: set<T> -> seq<T>, c: T)
    requires Queries(p, query) && c in p.f.kids
    ensures Completes(p, query, c, {}) <==> Ending(p, c)
  {
    SettlingNone(p);
    DeletionEndsExactly(p, query, c, {});
  }

  // ---------- ranks ----------

  /** `c` and the references into what its deletion takes. */
  ghost function Zone<T>(p: Cascade<T>, c: T): set<T>
    requires WellPosed(p) && c in p.f.kids
  {
    {c} + set r | r in Links(p) && Links(p)[r] in Closure(p.f, Links(p), Subtree(p.f.parent, c))
  }

  lemma ZoneClosed<T>(p: Cascade<T>, c: T, y: T, z: T)
    requires WellPosed(p) && c in p.f.kids && y in Zone(p, c) && y in p.f.kids && z in Pointers(p)[y]
    ensures z in Zone(p, c)
  {
    ClosureCloses(p.f, Links(p), Subtree(p.f.parent, c));
    if y in Links(p) { assert Links(p)[z] in Subtree(p.f.parent, y); }
  }

  /** The nodes that only references with an ending deletion refer to. */
  ghost function Harmless<T>(p: Cascade<T>): set<T>
    requires WellPosed(p)
  {
    set m | m in p.f.kids && forall r | r in Links(p) && Links(p)[r] == m :: Ending(p, r)
  }

  lemma PointersHarmless<T>(p: Cascade<T>, c: T)
    requires Ending(p, c)
    ensures Subtree(p.f.parent, c) <= Harmless(p)
  {
    forall m, r | m in Subtree(p.f.parent, c) && r in Links(p) && Links(p)[r] == m ensures Ending(p, r) {
      assert r in Pointers(p)[c];
      HeightFalls(Pointers(p), c, r);
    }
  }

  lemma ZoneEnding<T>(p: Cascade<T>, c: T)
    requires Ending(p, c)
    ensures forall y | y in Zone(p, c) :: Ending(p, y)
  {
    var safe := Harmless(p);
    PointersHarmless(p, c);
    forall r | r in Links(p) && Links(p)[r] in safe ensures Subtree(p.f.parent, r) <= safe { PointersHarmless(p, r); }
    ClosureLeast(p.f, Links(p), Subtree(p.f.parent, c), safe);
  }

  /** Ranks that fall from call to call exist, for what the deletion of `c` comes to, if and only if it
      ends; references elsewhere do not matter. */
  lemma RanksExactly<T>(p: Cascade<T>, c: T)
    requires WellPosed(p) && c in p.f.kids
    ensures (exists rank :: Ranked(Pointers(p), Zone(p, c), rank)) <==> Ending(p, c)
  {
    if rank :| Ranked(Pointers(p), Zone(p, c), rank) {
      RanksProveEnd(Pointers(p), Zone(p, c), rank, c);
    }
    if Ending(p, c) {
      ZoneEnding(p, c);
      forall y, z | y in Zone(p, c) && y in Pointers(p) && z in Pointers(p)[y] ensures z in Zone(p, c) {
        ZoneClosed(p, c, y, z);
      }
      HeightsAreRanks(Pointers(p), Zone(p, c));
    }
  }
}
