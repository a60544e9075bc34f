/** `delete` as a whole: what one call makes of the forest, for content and for trashes of every kind,
    those with other trashes inside and beside them included. */
module Emptyings {
  import opened Sequences
  import opened Chains
  import opened Circles
  import opened Forests
  import opened WriteBack
  import opened Reorders
  import opened Runs
  import opened Guards
  import opened Deletion
  import opened Endings
  import opened Trashes

  // ---------- states between two calls ----------

  /** Nothing is marked: a state that a write leaves behind. */
  ghost predicate Rested<T>(p: Cascade<T>) {
    WellPosed(p) && p.f.changed == {}
  }

  /** Nodes outside `s` keep their parent or lose it. */
  ghost predicate Only<T>(f: Forest<T>, g: Forest<T>, s: set<T>) {
    && g.parent.Keys == f.parent.Keys && g.kids.Keys == f.kids.Keys
    && forall m {:trigger g.parent[m]} | m in f.parent && m !in s :: g.parent[m] == f.parent[m] || g.parent[m] == None
  }

  /** `q` is a later state: the same nodes, and those outside the subtree of `c` at most lost their parent. */
  ghost predicate Follows<T>(p: Cascade<T>, q: Cascade<T>, c: T) {
    && Rested(p) && c in p.f.kids && Rested(q) && q == p.(f := q.f) && Only(p.f, q.f, Subtree(p.f.parent, c))
  }

  lemma {:induction false} OnlyUnder<T>(f: Forest<T>, g: Forest<T>, s: set<T>, m: T, a: T)
    requires WellFormed(f) && WellFormed(g) && Only(f, g, s) && m in f.parent && Under(g.parent, m, a)
    requires a in f.parent && forall x | x in s :: x in f.parent && Under(f.parent, x, a)
    ensures Under(f.parent, m, a)
    decreases Depth(g.parent, m)
  {
    UnderStep(g.parent, m, a);
    UnderStep(f.parent, m, a);
    if m !in s && m != a {
      DepthOfParent(g.parent, m);
      OnlyUnder(f, g, s, g.parent[m].value, a);
    }
  }

  // ---------- direct deletions and moves ----------

  ghost function Cut<T>(p: Cascade<T>, gone: set<T>): Cascade<T> {
    p.(f := CutOff(p.f, gone))
  }

  lemma CutFollows<T>(p: Cascade<T>, gone: set<T>, c: T)
    requires Rested(p) && Downward(p.f, gone) && p.root !in gone && c in p.f.kids
    ensures Follows(p, Cut(p, gone), c)
  {
    CutOffWellFormed(p.f, gone);
    assert Only(p.f, CutOff(p.f, gone), Subtree(p.f.parent, c));
  }

  /** The closure of a subtree without the root does not come to the root. */
  lemma RootSpared<T>(p: Cascade<T>, s: set<T>)
    requires WellPosed(p) && s <= p.f.kids.Keys && Downward(p.f, s) && p.root !in s
    ensures Downward(p.f, Closure(p.f, Links(p), s)) && p.root !in Closure(p.f, Links(p), s)
  {
    ClosureDownward(p.f, Links(p), s);
    var rest := p.f.kids.Keys - {p.root};
    forall r | r in Links(p) && Links(p)[r] in rest ensures Subtree(p.f.parent, r) <= rest {
      RootNotInside(p.f, p.root, r);
    }
    ClosureLeast(p.f, Links(p), s, rest);
  }

  lemma SubtreeSpared<T>(p: Cascade<T>, c: T)
    requires WellPosed(p) && c in p.f.kids && c != p.root
    ensures Downward(p.f, Subtree(p.f.parent, c)) && p.root !in Subtree(p.f.parent, c)
  {
    DownwardSubtree(p.f, {}, c);
    assert {} + Subtree(p.f.parent, c) == Subtree(p.f.parent, c);
    RootNotInside(p.f, p.root, c);
  }

  ghost function Binned<T>(p: Cascade<T>, t: T, c: T): Cascade<T>
    requires WellPosed(p) && t in p.f.kids && c in p.f.kids
  {
    p.(f := AppendChild(p.f, t, c).(changed := {}))
  }

  lemma MoveFollows<T>(p: Cascade<T>, t: T, c: T)
    requires Rested(p) && t in p.f.kids && c in p.f.kids && Ready(p.f, p.root, t, c)
    ensures Follows(p, Binned(p, t, c), c)
  {
    AppendRooted(p.f, p.root, t, c, p.root);
    AppendMoved(p.f, t, c);
    ClearedWellFormed(AppendChild(p.f, t, c));
    AppendChildLinked(p.f, t, c);
    UnderStep(p.f.parent, c, c);
  }

  /** Content that is no trash: deleted with the references to it, left alone, or moved. */
  ghost function AfterContent<T>(p: Cascade<T>, users: seq<seq<T>>, c: T): (q: Cascade<T>)
    requires Rested(p) && c in p.f.kids && c != p.root && p.kinds[c] != Trash
    ensures Follows(p, q, c)
  {
    SubtreeSpared(p, c);
    RootSpared(p, Subtree(p.f.parent, c));
    if Unguarded(p.f, p.kinds, c) then
      if Deletable(p.f, users, c) then
        CutFollows(p, Closure(p.f, Links(p), Subtree(p.f.parent, c)), c);
        Cut(p, Closure(p.f, Links(p), Subtree(p.f.parent, c)))
      else p
    else
      TrashReady(p.f, p.kinds, p.root, c);
      MoveFollows(p, TrashFor(p.f, p.kinds, c).value, c);
      Binned(p, TrashFor(p.f, p.kinds, c).value, c)
  }

  // ---------- the whole call ----------

  /** The children from the `i`-th on are where they were, or nowhere. */
  ghost predicate Waiting<T>(p: Cascade<T>, v: Cascade<T>, t: T, i: nat) {
    t in p.f.kids && forall k {:trigger p.f.kids[t][k]} | i <= k < |p.f.kids[t]| ::
      p.f.kids[t][k] in v.f.parent && v.f.parent[p.f.kids[t][k]] in {None, Some(t)}
  }

  /** After the first `i` children of the trash had their turn. */
  ghost predicate Turned<T>(p: Cascade<T>, v: Cascade<T>, t: T, i: nat) {
    Together(Follows(p, v, t) && Waiting(p, v, t, i))
  }

  lemma TurnLower<T>(p: Cascade<T>, v: Cascade<T>, t: T, c: T)
    requires Follows(p, v, t) && c in v.f.parent && v.f.parent[c] == Some(t)
    ensures c in v.f.kids && c != v.root && Subtree(v.f.parent, c) < Subtree(p.f.parent, t)
  {
    forall m | m in Subtree(v.f.parent, c) ensures m in Subtree(p.f.parent, t) && m != t {
      UnderStep(v.f.parent, c, t);
      UnderStep(v.f.parent, t, t);
      UnderTransitive(v.f.parent, m, c, t);
      OnlyUnder(p.f, v.f, Subtree(p.f.parent, t), m, t);
      ParentNotUnder(v.f.parent, c);
    }
    UnderStep(p.f.parent, t, t);
    assert t in Subtree(p.f.parent, t);
  }

  lemma OnlyTwice<T>(p: Cascade<T>, v: Cascade<T>, q: Cascade<T>, t: T, c: T)
    requires Follows(p, v, t) && Follows(v, q, c) && Subtree(v.f.parent, c) <= Subtree(p.f.parent, t)
    ensures Follows(p, q, t)
  {}

  lemma StillWaiting<T>(p: Cascade<T>, v: Cascade<T>, q: Cascade<T>, t: T, i: nat, c: T)
    requires Rested(p) && Waiting(p, v, t, i) && Follows(v, q, c) && v.f.parent[c] == Some(t)
    requires i < |p.f.kids[t]| && p.f.kids[t][i] == c
    ensures Waiting(p, q, t, i + 1)
  {
    forall k | i + 1 <= k < |p.f.kids[t]|
      ensures p.f.kids[t][k] in q.f.parent && q.f.parent[p.f.kids[t][k]] in {None, Some(t)}
    {
      var d := p.f.kids[t][k];
      UnderStep(v.f.parent, d, c);
      ParentNotUnder(v.f.parent, c);
    }
  }

  /** What a turn finds. */
  lemma TurnStarts<T>(p: Cascade<T>, v: Cascade<T>, t: T, i: nat)
    requires Turned(p, v, t, i) && i < |p.f.kids[t]|
    ensures Rested(v) && p.f.kids[t][i] in v.f.kids && Turned(p, v, t, i + 1)
    ensures v.f.parent[p.f.kids[t][i]].Some? ==> v.f.parent[p.f.kids[t][i]] == Some(t) && p.f.kids[t][i] != v.root
    ensures v.f.parent[p.f.kids[t][i]].Some? ==> Subtree(v.f.parent, p.f.kids[t][i]) < Subtree(p.f.parent, t)
  {
    if v.f.parent[p.f.kids[t][i]].Some? { TurnLower(p, v, t, p.f.kids[t][i]); }
  }

  lemma TurnEnds<T>(p: Cascade<T>, v: Cascade<T>, q: Cascade<T>, t: T, i: nat)
    requires Turned(p, v, t, i) && i < |p.f.kids[t]| && v.f.parent[p.f.kids[t][i]].Some?
    requires Follows(v, q, p.f.kids[t][i])
    ensures Turned(p, q, t, i + 1)
  {
    TurnStarts(p, v, t, i);
    OnlyTwice(p, v, q, t, p.f.kids[t][i]);
    StillWaiting(p, v, q, t, i, p.f.kids[t][i]);
  }

  lemma NoTurn<T>(p: Cascade<T>, t: T)
    requires Rested(p) && t in p.f.kids
    ensures Turned(p, p, t, 0)
  {
    assert forall k | 0 <= k < |p.f.kids[t]| :: p.f.kids[t][k] in p.f.kids[t];
  }

  /** The state after a call of `delete` for `c`. */
  ghost function AfterDelete<T>(p: Cascade<T>, users: seq<seq<T>>, c: T): (q: Cascade<T>)
    requires Rested(p) && c in p.f.kids && c != p.root
    ensures Follows(p, q, c)
    decreases Subtree(p.f.parent, c), 2, 0
  {
    if p.kinds[c] != Trash then AfterContent(p, users, c)
    else if p.f.kids[c] != [] then AfterTurns(p, users, c, |p.f.kids[c]|)
    else
      SubtreeSpared(p, c);
      CutFollows(p, Subtree(p.f.parent, c), c);
      Cut(p, Subtree(p.f.parent, c))
  }

  /** The state after the first `i` children of the trash had their turn. */
  ghost function AfterTurns<T>(p: Cascade<T>, users: seq<seq<T>>, t: T, i: nat): (v: Cascade<T>)
    requires Rested(p) && t in p.f.kids && i <= |p.f.kids[t]|
    ensures Turned(p, v, t, i)
    decreases Subtree(p.f.parent, t), 1, i
  {
    if i == 0 then NoTurn(p, t); p else AfterTurn(p, AfterTurns(p, users, t, i - 1), users, t, i - 1)
  }

  /** The next child, if it still has a parent and may be deleted, is deleted. */
  ghost function AfterTurn<T>(p: Cascade<T>, v: Cascade<T>, users: seq<seq<T>>, t: T, i: nat): (q: Cascade<T>)
    requires Turned(p, v, t, i) && t in p.f.kids && i < |p.f.kids[t]|
    ensures Turned(p, q, t, i + 1)
    decreases Subtree(p.f.parent, t), 0, 0
  {
    TurnStarts(p, v, t, i);
    var c := p.f.kids[t][i];
    if !Due(v, users, c) then v
    else
      var q := AfterDelete(v, users, c);
      TurnEnds(p, v, q, t, i);
      q
  }

  /** The test of the loop. */
  ghost predicate Due<T>(v: Cascade<T>, users: seq<seq<T>>, c: T)
    requires Rested(v) && c in v.f.kids
  {
    v.f.parent[c].Some? && Deletable(v.f, users, c)
  }

  /** The state after the first `i` turns; only proofs that name the turns follow them. */
  ghost predicate Reaches<T>(p: Cascade<T>, users: seq<seq<T>>, t: T, i: nat, v: Cascade<T>) {
    && Rested(p) && t in p.f.kids && i <= |p.f.kids[t]|
    && forall n {:trigger AfterTurns(p, users, t, n)} | n == i :: AfterTurns(p, users, t, n) == v
  }

  lemma ReachesFirst<T>(p: Cascade<T>, users: seq<seq<T>>, t: T)
    requires Rested(p) && t in p.f.kids
    ensures Reaches(p, users, t, 0, p)
  {}

  lemma ReachesNext<T>(p: Cascade<T>, users: seq<seq<T>>, t: T, i: nat, v: Cascade<T>)
    requires Reaches(p, users, t, i, v) && i < |p.f.kids[t]|
    ensures Turned(p, v, t, i) && Reaches(p, users, t, i + 1, AfterTurn(p, v, users, t, i))
  {
    assert AfterTurns(p, users, t, i) == v;
  }

  // ---------- when the call ends ----------

  /** The call ends: so do all cascades that it starts. */
  ghost predicate DeleteEnds<T>(p: Cascade<T>, users: seq<seq<T>>, c: T)
    requires Rested(p) && c in p.f.kids && c != p.root
    decreases Subtree(p.f.parent, c), 2, 0
  {
    if p.kinds[c] != Trash then Unguarded(p.f, p.kinds, c) && Deletable(p.f, users, c) ==> Ending(p, c)
    else forall i | 0 <= i < |p.f.kids[c]| :: TurnComesToEnd(p, AfterTurns(p, users, c, i), users, c, i)
  }

  ghost predicate TurnComesToEnd<T>(p: Cascade<T>, v: Cascade<T>, users: seq<seq<T>>, t: T, i: nat)
    requires Turned(p, v, t, i) && t in p.f.kids && i < |p.f.kids[t]|
    decreases Subtree(p.f.parent, t), 0, 0
  {
    TurnStarts(p, v, t, i);
    Due(v, users, p.f.kids[t][i]) ==> DeleteEnds(v, users, p.f.kids[t][i])
  }

  /** All calls of `deleteReferences` that the call makes come to their end, each within some depth of
      nesting; `queries` tells what the queries return, in each state and while it changes. */
  ghost predicate DeleteCompletes<T>(p: Cascade<T>, users: seq<seq<T>>, queries: Cascade<T> -> (set<T> -> seq<T>), c: T)
    requires Rested(p) && c in p.f.kids && c != p.root
    decreases Subtree(p.f.parent, c), 2, 0
  {
    if p.kinds[c] != Trash then
      Unguarded(p.f, p.kinds, c) && Deletable(p.f, users, c) ==> Completes(p, queries(p), c, {})
    else forall i | 0 <= i < |p.f.kids[c]| :: TurnCompletes(p, AfterTurns(p, users, c, i), users, queries, c, i)
  }

  ghost predicate TurnCompletes<T>(p: Cascade<T>, v: Cascade<T>, users: seq<seq<T>>,
                                   queries: Cascade<T> -> (set<T> -> seq<T>), t: T, i: nat)
    requires Turned(p, v, t, i) && t in p.f.kids && i < |p.f.kids[t]|
    decreases Subtree(p.f.parent, t), 0, 0
  {
    TurnStarts(p, v, t, i);
    Due(v, users, p.f.kids[t][i]) ==> DeleteCompletes(v, users, queries, p.f.kids[t][i])
  }

  /** A call of `delete`, with all the children of a trash and of the trashes in it, ends if and only if
      no content that it deletes leads to a circle of references at the time it is deleted. */
  lemma {:induction false} DeleteEndsExactly<T>(p: Cascade<T>, users: seq<seq<T>>,
                                                queries: Cascade<T> -> (set<T> -> seq<T>), c: T)
    requires Rested(p) && c in p.f.kids && c != p.root
    requires forall v | WellPosed(v) :: Queries(v, queries(v))
    ensures DeleteCompletes(p, users, queries, c) <==> DeleteEnds(p, users, c)
    decreases Subtree(p.f.parent, c), 2, 0
  {
    if p.kinds[c] != Trash {
      FreshDeletionEnds(p, queries(p), c);
    } else {
      forall i | 0 <= i < |p.f.kids[c]|
        ensures TurnCompletes(p, AfterTurns(p, users, c, i), users, queries, c, i) <==>
          TurnComesToEnd(p, AfterTurns(p, users, c, i), users, c, i)
      {
        TurnEndsExactly(p, AfterTurns(p, users, c, i), users, queries, c, i);
      }
    }
  }

  lemma {:induction false} TurnEndsExactly<T>(p: Cascade<T>, v: Cascade<T>, users: seq<seq<T>>,
                                              queries: Cascade<T> -> (set<T> -> seq<T>), t: T, i: nat)
    requires Turned(p, v, t, i) && t in p.f.kids && i < |p.f.kids[t]|
    requires forall v | WellPosed(v) :: Queries(v, queries(v))
    ensures TurnCompletes(p, v, users, queries, t, i) <==> TurnComesToEnd(p, v, users, t, i)
    decreases Subtree(p.f.parent, t), 0, 0
  {
    TurnStarts(p, v, t, i);
    if Due(v, users, p.f.kids[t][i]) { DeleteEndsExactly(v, users, queries, p.f.kids[t][i]); }
  }

  // ---------- tree and database ----------

  /** The state `w` shows the forest, and the database is in step with it. */
  ghost predicate Stands<T>(p: Cascade<T>, w: World<T>) {
    Rested(p) && Midway(p, w, {})
  }

  lemma StandsTree<T>(p: Cascade<T>, w: World<T>)
    requires Stands(p, w)
    ensures Typed(w) && w.tree == p.f && w.kinds == p.kinds && w.stored == Rescan(p.f, p.root)
    ensures InOrder(w, p.root, w.stored.Keys)
  {
    CutOffNothing(p.f);
    MidwayTyped(p, w, {});
  }

  lemma StandsCut<T>(p: Cascade<T>, w: World<T>, gone: set<T>)
    requires Rested(p) && Midway(p, w, gone)
    ensures Stands(Cut(p, gone), w)
  {
    MidwayTyped(p, w, gone);
    CutFollows(p, gone, p.root);
    MidwayStart(Cut(p, gone), w);
  }

  lemma StandsWhole<T>(p: Cascade<T>, w: World<T>, gone: set<T>, c: T)
    requires Rested(p) && Midway(p, w, gone)
    requires gone == Closure(p.f, Links(p), {} + Subtree(p.f.parent, c))
    ensures Stands(Cut(p, Closure(p.f, Links(p), Subtree(p.f.parent, c))), w)
  {
    assert {} + Subtree(p.f.parent, c) == Subtree(p.f.parent, c);
    StandsCut(p, w, gone);
  }

  lemma StandsMoved<T>(p: Cascade<T>, w: World<T>, t: T, c: T)
    requires Stands(p, w) && t in p.f.kids && c in p.f.kids && Ready(p.f, p.root, t, c)
    requires Rooted(p.f, p.root, c) <==> Rooted(p.f, p.root, t)
    ensures Typed(w) && t in w.ids && c in w.ids && !Under(w.tree.parent, t, c)
    ensures Stands(Binned(p, t, c), Trashed(w, p.root, t, c))
  {
    StandsTree(p, w);
    MoveFollows(p, t, c);
    ReadyTrashed(w, p.root, t, c);
    MarkedAgain(p.f, t, c);
    TrashedKinds(w, p.root, t, c);
    MidwayStart(Binned(p, t, c), Trashed(w, p.root, t, c));
  }

  lemma DeleteTree<T>(w: World<T>, root: T, c: T)
    requires Typed(w) && root in w.ids && c in w.ids
    ensures Step(w, root, Delete(c)).tree == Isolate(w.tree, c).(changed := {})
  {}

  lemma WithoutTree<T>(f: Forest<T>, c: T)
    requires WellFormed(f) && f.changed == {} && c in f.kids
    ensures Isolate(f, c).(changed := {}) == CutOff(f, Subtree(f.parent, c))
  {
    CutOffNothing(f);
    IsolateCutOff(f, {}, c);
    assert {} + Subtree(f.parent, c) == Subtree(f.parent, c);
  }

  /** An empty trash is deleted without a look at the references to it. */
  lemma StandsWithout<T>(p: Cascade<T>, w: World<T>, c: T)
    requires Stands(p, w) && c in p.f.kids && c != p.root && p.f.kids[c] == []
    ensures Typed(w) && p.root in w.ids && c in w.ids
    ensures Stands(Cut(p, Subtree(p.f.parent, c)), Step(w, p.root, Delete(c)))
  {
    StandsTree(p, w);
    SubtreeSpared(p, c);
    CutFollows(p, Subtree(p.f.parent, c), c);
    StandsStill(p, w, c);
    MidwayStart(Cut(p, Subtree(p.f.parent, c)), Step(w, p.root, Delete(c)));
  }

  lemma StandsStill<T>(p: Cascade<T>, w: World<T>, c: T)
    requires WellPosed(p) && p.f.changed == {} && c in p.f.kids && c != p.root && p.f.kids[c] == []
    requires Typed(w) && w.tree == p.f && w.kinds == p.kinds && InOrder(w, p.root, w.stored.Keys)
    requires WellFormed(Cut(p, Subtree(p.f.parent, c)).f)
    ensures var v, q := Step(w, p.root, Delete(c)), Cut(p, Subtree(p.f.parent, c));
      Typed(v) && v.tree == q.f && v.kinds == q.kinds && v.stored == Rescan(q.f, q.root) && q.f.changed == {}
  {
    DeletedKeys(w, p.root, c);
    DeleteTree(w, p.root, c);
    WithoutTree(p.f, c);
  }

  // ---------- the loop that empties a trash ----------

  /** What holds before the `i`-th turn, with the forest as in `u` and all objects as in `w`. */
  ghost predicate Emptying<T>(p: Cascade<T>, users: seq<seq<T>>, t: T, i: nat, u: Cascade<T>, w: World<T>) {
    Together(
      && Reaches(p, users, t, i, u) && Stands(u, w) && UsersIn(p, users)
      && t != p.root && p.kinds[t] == Trash && DeleteEnds(p, users, t))
  }

  lemma EmptyingFirst<T>(p: Cascade<T>, users: seq<seq<T>>, t: T, w: World<T>)
    requires Stands(p, w) && UsersIn(p, users) && t in p.f.kids && t != p.root && p.kinds[t] == Trash
    requires DeleteEnds(p, users, t)
    ensures Emptying(p, users, t, 0, p, w)
  {
    ReachesFirst(p, users, t);
  }

  /** What a turn may count on. */
  lemma EmptyingTurn<T>(p: Cascade<T>, users: seq<seq<T>>, t: T, i: nat, u: Cascade<T>, w: World<T>)
    requires Emptying(p, users, t, i, u, w) && t in p.f.kids && i < |p.f.kids[t]|
    ensures Turned(p, u, t, i) && TurnComesToEnd(p, u, users, t, i)
    ensures Stands(u, w) && UsersIn(u, users) && u.root == p.root && u.targets == p.targets
  {
    ReachesNext(p, users, t, i, u);
    assert AfterTurns(p, users, t, i) == u;
    assert TurnComesToEnd(p, AfterTurns(p, users, t, i), users, t, i);
  }

  lemma EmptyingNext<T>(p: Cascade<T>, users: seq<seq<T>>, t: T, i: nat, u: Cascade<T>, w: World<T>, v: World<T>)
    requires Emptying(p, users, t, i, u, w) && t in p.f.kids && i < |p.f.kids[t]| && Turned(p, u, t, i)
    requires Stands(AfterTurn(p, u, users, t, i), v)
    ensures Emptying(p, users, t, i + 1, AfterTurn(p, u, users, t, i), v)
  {
    ReachesNext(p, users, t, i, u);
  }

  lemma EmptyingLast<T>(p: Cascade<T>, users: seq<seq<T>>, t: T, u: Cascade<T>, w: World<T>)
    requires t in p.f.kids && p.f.kids[t] != [] && Emptying(p, users, t, |p.f.kids[t]|, u, w)
    ensures Rested(p) && t != p.root && u == AfterDelete(p, users, t) && Stands(u, w) && t in u.f.kids
    ensures u.root == p.root && u.targets == p.targets
  {
    assert AfterTurns(p, users, t, |p.f.kids[t]|) == u;
  }
}
