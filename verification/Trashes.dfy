/** Trashes: what may be deleted, what emptying a trash takes along, and moving content into it. */
module Trashes {
  import opened Sequences
  import opened Chains
  import opened Forests
  import opened WriteBack
  import opened Runs
  import opened Guards
  import opened Deletion

  /** `isDeletable`: no user root is `c` or below it. */
  ghost predicate Deletable<T>(f: Forest<T>, users: seq<seq<T>>, c: T)
    requires WellFormed(f)
  {
    forall i, j | 0 <= i < |users| && 0 <= j < |users[i]| && users[i][j] in f.kids :: !Under(f.parent, users[i][j], c)
  }

  /** The user roots are among the nodes. */
  ghost predicate UsersIn<T>(p: Cascade<T>, users: seq<seq<T>>) {
    forall i, j | 0 <= i < |users| && 0 <= j < |users[i]| :: users[i][j] in p.kinds
  }

  /** A user root that is still there is inside `c`. */
  ghost predicate HoldsRoot<T>(f: Forest<T>, users: seq<seq<T>>, gone: set<T>, c: T)
    requires WellFormed(f)
  {
    exists i, j :: 0 <= i < |users| && 0 <= j < |users[i]| && users[i][j] in f.kids && users[i][j] !in gone
      && Under(f.parent, users[i][j], c)
  }

  lemma DeletableMidway<T>(f: Forest<T>, users: seq<seq<T>>, gone: set<T>, c: T)
    requires WellFormed(f) && Downward(f, gone) && c in f.kids && c !in gone
    ensures WellFormed(CutOff(f, gone))
    ensures Deletable(CutOff(f, gone), users, c) <==> !HoldsRoot(f, users, gone, c)
  {
    CutOffWellFormed(f, gone);
    forall i, j | 0 <= i < |users| && 0 <= j < |users[i]| && users[i][j] in f.kids
      ensures Under(CutOff(f, gone).parent, users[i][j], c) <==> users[i][j] !in gone && Under(f.parent, users[i][j], c)
    {
      CutOffUnder(f, gone, users[i][j], c);
      UnderStep(f.parent, users[i][j], c);
    }
  }

  /** No trash guards the content, or the content is in its trash already. */
  ghost predicate Unguarded<T>(f: Forest<T>, kinds: map<T, Kind>, c: T)
    requires Kinded(f, kinds) && c in f.kids
  {
    TrashFor(f, kinds, c).None? || Under(f.parent, c, TrashFor(f, kinds, c).value)
  }

  // ---------- emptying ----------

  lemma ClosureInside<T>(p: Cascade<T>, s: set<T>)
    requires WellPosed(p) && s <= p.f.kids.Keys
    ensures Closure(p.f, Links(p), s) <= p.f.kids.Keys
  {
    ClosureCloses(p.f, Links(p), s);
  }

  /** One turn of the loop: a child that is gone already is passed over, and so is one that holds a
      user root that is still there. */
  ghost function EmptiedNext<T>(p: Cascade<T>, users: seq<seq<T>>, before: set<T>, c: T): (gone: set<T>)
    requires WellPosed(p) && before <= p.f.kids.Keys
    ensures gone <= p.f.kids.Keys
  {
    if c in before || HoldsRoot(p.f, users, before, c) then before
    else
      var s := before + Subtree(p.f.parent, c);
      ClosureInside(p, s);
      Closure(p.f, Links(p), s)
  }

  /** What is gone after the first `i` children of a trash had their turn. */
  ghost function Emptied<T>(p: Cascade<T>, users: seq<seq<T>>, kids: seq<T>, i: nat): (gone: set<T>)
    requires WellPosed(p) && i <= |kids|
    ensures gone <= p.f.kids.Keys
  {
    if i == 0 then {} else EmptiedNext(p, users, Emptied(p, users, kids, i - 1), kids[i - 1])
  }

  lemma {:induction false} ClosureDownward<T>(f: Forest<T>, links: map<T, T>, s: set<T>)
    requires WellFormed(f) && Downward(f, s)
    ensures Downward(f, Closure(f, links, s))
    decreases f.kids.Keys - s
  {
    var g := Grow(f, links, s);
    forall n, m | n in g && m in Subtree(f.parent, n) ensures m in g {
      if n !in s {
        var r :| r in links && links[r] in s && Under(f.parent, n, r);
        UnderTransitive(f.parent, m, n, r);
      }
    }
    if !(g <= s) { ClosureDownward(f, links, g); }
  }

  /** Everything in the trash. */
  ghost function Contained<T>(f: Forest<T>, kids: seq<T>): set<T>
    requires WellFormed(f)
  {
    set m, c | c in kids && m in Subtree(f.parent, c) :: m
  }

  /** One turn of the loop stays below the closure of all that is in the trash. */
  lemma EmptiedBelow<T>(p: Cascade<T>, kids: seq<T>, c: T, before: set<T>)
    requires WellPosed(p) && c in kids && c in p.f.kids && Downward(p.f, before)
    requires Contained(p.f, kids) <= p.f.kids.Keys && before <= Closure(p.f, Links(p), Contained(p.f, kids))
    ensures Closure(p.f, Links(p), before + Subtree(p.f.parent, c)) <= Closure(p.f, Links(p), Contained(p.f, kids))
  {
    var all := Closure(p.f, Links(p), Contained(p.f, kids));
    ClosureCloses(p.f, Links(p), Contained(p.f, kids));
    forall m | m in Subtree(p.f.parent, c) ensures m in all { assert m in Contained(p.f, kids); }
    ClosureLeast(p.f, Links(p), before + Subtree(p.f.parent, c), all);
  }

  /** In the middle of emptying: complete downwards and under references, and nothing gone that does
      not hang together with what is in the trash. */
  ghost predicate Partial<T>(p: Cascade<T>, kids: seq<T>, gone: set<T>) {
    && WellPosed(p) && Downward(p.f, gone) && Closed(p.f, Links(p), gone)
    && Contained(p.f, kids) <= p.f.kids.Keys && gone <= Closure(p.f, Links(p), Contained(p.f, kids))
  }

  lemma EmptiedNextPartial<T>(p: Cascade<T>, users: seq<seq<T>>, kids: seq<T>, c: T, before: set<T>)
    requires Partial(p, kids, before) && c in kids && c in p.f.kids
    ensures Partial(p, kids, EmptiedNext(p, users, before, c)) && before <= EmptiedNext(p, users, before, c)
  {
    DownwardSubtree(p.f, before, c);
    ClosureDownward(p.f, Links(p), before + Subtree(p.f.parent, c));
    ClosureCloses(p.f, Links(p), before + Subtree(p.f.parent, c));
    EmptiedBelow(p, kids, c, before);
  }

  lemma EmptiedNextTakes<T>(p: Cascade<T>, users: seq<seq<T>>, c: T, before: set<T>)
    requires WellPosed(p) && Downward(p.f, before) && c in p.f.kids && Deletable(p.f, users, c)
    ensures Subtree(p.f.parent, c) <= EmptiedNext(p, users, before, c)
  {
    ClosureCloses(p.f, Links(p), before + Subtree(p.f.parent, c));
  }

  lemma PartialNone<T>(p: Cascade<T>, kids: seq<T>)
    requires WellPosed(p)
    ensures Partial(p, kids, {})
  {}

  /** The same under a name of its own, which the proofs use to say which stage they look at. */
  ghost function Stage<T>(p: Cascade<T>, users: seq<seq<T>>, kids: seq<T>, i: nat): set<T>
    requires WellPosed(p) && i <= |kids|
  {
    Emptied(p, users, kids, i)
  }

  /** What is gone before each turn of the loop and at its end. */
  ghost predicate Stages<T>(p: Cascade<T>, users: seq<seq<T>>, kids: seq<T>, stages: seq<set<T>>) {
    && WellPosed(p) && |stages| == |kids| + 1
    && forall i {:trigger Stage(p, users, kids, i)} | 0 <= i <= |kids| :: stages[i] == Stage(p, users, kids, i)
  }

  ghost function StagesOf<T>(p: Cascade<T>, users: seq<seq<T>>, kids: seq<T>): (stages: seq<set<T>>)
    requires WellPosed(p)
    ensures Stages(p, users, kids, stages)
  {
    seq(|kids| + 1, i requires 0 <= i <= |kids| => Emptied(p, users, kids, i))
  }

  lemma StageIs<T>(p: Cascade<T>, users: seq<seq<T>>, kids: seq<T>, stages: seq<set<T>>, i: nat)
    requires Stages(p, users, kids, stages) && i <= |kids|
    ensures stages[i] == Emptied(p, users, kids, i)
  {
    assert stages[i] == Stage(p, users, kids, i);
  }

  lemma FirstStage<T>(p: Cascade<T>, users: seq<seq<T>>, kids: seq<T>, stages: seq<set<T>>)
    requires Stages(p, users, kids, stages)
    ensures stages[0] == {}
  {
    StageIs(p, users, kids, stages, 0);
  }

  lemma StagesNext<T>(p: Cascade<T>, users: seq<seq<T>>, kids: seq<T>, stages: seq<set<T>>, i: nat)
    requires Stages(p, users, kids, stages) && i < |kids|
    ensures stages[i] <= p.f.kids.Keys && stages[i + 1] == EmptiedNext(p, users, stages[i], kids[i])
  {
    StageIs(p, users, kids, stages, i);
    StageIs(p, users, kids, stages, i + 1);
  }

  lemma StagePartialNext<T>(p: Cascade<T>, users: seq<seq<T>>, kids: seq<T>, stages: seq<set<T>>, i: nat)
    requires Stages(p, users, kids, stages) && i < |kids| && kids[i] in p.f.kids && Partial(p, kids, stages[i])
    ensures Partial(p, kids, stages[i + 1])
  {
    StagesNext(p, users, kids, stages, i);
    EmptiedNextPartial(p, users, kids, kids[i], stages[i]);
  }

  ghost function PartialAt<T>(p: Cascade<T>, kids: seq<T>, stages: seq<set<T>>): (ok: seq<bool>)
    ensures |ok| == |stages| && forall i | 0 <= i < |stages| :: ok[i] <==> Partial(p, kids, stages[i])
  {
    seq(|stages|, i requires 0 <= i < |stages| => Partial(p, kids, stages[i]))
  }

  lemma PartialFirst<T>(p: Cascade<T>, users: seq<seq<T>>, kids: seq<T>, stages: seq<set<T>>)
    requires Stages(p, users, kids, stages)
    ensures PartialAt(p, kids, stages)[0]
  {
    FirstStage(p, users, kids, stages);
    PartialNone(p, kids);
  }

  lemma PartialNext<T>(p: Cascade<T>, users: seq<seq<T>>, kids: seq<T>, stages: seq<set<T>>, i: nat)
    requires Stages(p, users, kids, stages) && i < |kids| && kids[i] in p.f.kids
    requires PartialAt(p, kids, stages)[i]
    ensures PartialAt(p, kids, stages)[i + 1]
  {
    StagePartialNext(p, users, kids, stages, i);
  }

  lemma {:induction false} AllTrue(ok: seq<bool>, i: nat)
    requires i < |ok| && ok[0] && forall k | 0 < k < |ok| && ok[k - 1] :: ok[k]
    ensures ok[i]
  {
    if i > 0 { AllTrue(ok, i - 1); }
  }

  lemma PartialAll<T>(p: Cascade<T>, users: seq<seq<T>>, kids: seq<T>, stages: seq<set<T>>, ok: seq<bool>)
    requires Stages(p, users, kids, stages) && ok == PartialAt(p, kids, stages) && forall c | c in kids :: c in p.f.kids
    ensures forall k | 0 < k < |ok| && ok[k - 1] :: ok[k]
  {
    forall k | 0 < k < |ok| && ok[k - 1] ensures ok[k] { PartialNext(p, users, kids, stages, k - 1); }
  }

  lemma StagePartial<T>(p: Cascade<T>, users: seq<seq<T>>, kids: seq<T>, stages: seq<set<T>>, i: nat)
    requires Stages(p, users, kids, stages) && i <= |kids| && forall c | c in kids :: c in p.f.kids
    ensures Partial(p, kids, stages[i])
  {
    var ok := PartialAt(p, kids, stages);
    PartialFirst(p, users, kids, stages);
    PartialAll(p, users, kids, stages, ok);
    AllTrue(ok, i);
  }

  lemma {:induction false} Rising<T>(stages: seq<set<T>>, i: nat, j: nat)
    requires i <= j < |stages| && forall k {:trigger stages[k]} | 0 < k < |stages| :: stages[k - 1] <= stages[k]
    ensures stages[i] <= stages[j]
  {
    if i < j { Rising(stages, i, j - 1); }
  }

  lemma StageGrows<T>(p: Cascade<T>, users: seq<seq<T>>, kids: seq<T>, stages: seq<set<T>>, i: nat)
    requires Stages(p, users, kids, stages) && i < |kids| && forall c | c in kids :: c in p.f.kids
    ensures stages[i] <= stages[i + 1]
    ensures Deletable(p.f, users, kids[i]) ==> Subtree(p.f.parent, kids[i]) <= stages[i + 1]
  {
    StagePartial(p, users, kids, stages, i);
    StagesNext(p, users, kids, stages, i);
    EmptiedNextPartial(p, users, kids, kids[i], stages[i]);
    if Deletable(p.f, users, kids[i]) { EmptiedNextTakes(p, users, kids[i], stages[i]); }
  }

  lemma StagesRise<T>(p: Cascade<T>, users: seq<seq<T>>, kids: seq<T>, stages: seq<set<T>>, i: nat, j: nat)
    requires Stages(p, users, kids, stages) && i <= j <= |kids| && forall c | c in kids :: c in p.f.kids
    ensures stages[i] <= stages[j]
  {
    forall k | 0 < k < |stages| ensures stages[k - 1] <= stages[k] { StageGrows(p, users, kids, stages, k - 1); }
    Rising(stages, i, j);
  }

  lemma LastStageTakes<T>(p: Cascade<T>, users: seq<seq<T>>, kids: seq<T>, stages: seq<set<T>>)
    requires Stages(p, users, kids, stages) && forall c | c in kids :: c in p.f.kids
    requires forall c | c in kids :: Deletable(p.f, users, c)
    ensures Contained(p.f, kids) <= stages[|kids|]
  {
    forall m | m in Contained(p.f, kids) ensures m in stages[|kids|] {
      var c :| c in kids && m in Subtree(p.f.parent, c);
      var j :| 0 <= j < |kids| && kids[j] == c;
      StageGrows(p, users, kids, stages, j);
      StagesRise(p, users, kids, stages, j + 1, |kids|);
    }
  }

  lemma LastStageIsClosure<T>(p: Cascade<T>, users: seq<seq<T>>, kids: seq<T>, stages: seq<set<T>>)
    requires Stages(p, users, kids, stages) && forall c | c in kids :: c in p.f.kids
    requires forall c | c in kids :: Deletable(p.f, users, c)
    ensures stages[|kids|] == Closure(p.f, Links(p), Contained(p.f, kids))
  {
    StagePartial(p, users, kids, stages, |kids|);
    LastStageTakes(p, users, kids, stages);
    ClosureIs(p.f, Links(p), Contained(p.f, kids), stages[|kids|]);
  }

  /** If no user has a root inside the trash, emptying it takes exactly the least set that contains
      all that is in the trash and is closed under references, whatever the order of the children
      and however the cascades of earlier ones reach into later ones. */
  lemma EmptiedIsClosure<T>(p: Cascade<T>, users: seq<seq<T>>, kids: seq<T>)
    requires WellPosed(p) && forall c | c in kids :: c in p.f.kids
    requires forall c | c in kids :: Deletable(p.f, users, c)
    ensures Emptied(p, users, kids, |kids|) == Closure(p.f, Links(p), Contained(p.f, kids))
  {
    var stages := StagesOf(p, users, kids);
    LastStageIsClosure(p, users, kids, stages);
    StageIs(p, users, kids, stages, |kids|);
  }

  // ---------- moving ----------

  /** Content that is moved into its trash: appended, and both ends written. */
  ghost function Trashed<T>(w: World<T>, root: T, t: T, c: T): World<T>
    requires Typed(w) && t in w.ids && c in w.ids && !Under(w.tree.parent, t, c)
  {
    AppendMoved(w.tree, t, c);
    Flushed(w.(tree := Marked(AppendChild(w.tree, t, c), t)), root)
  }

  lemma TrashedRooted<T>(f: Forest<T>, root: T, t: T, c: T)
    requires Sound(f, root) && t in f.kids && c in f.kids && Ready(f, root, t, c)
    requires Rooted(f, root, c) <==> Rooted(f, root, t)
    ensures WellFormed(AppendChild(f, t, c)) && AppendChild(f, t, c).kids.Keys == f.kids.Keys
    ensures Rescan(AppendChild(f, t, c), root).Keys == Rescan(f, root).Keys
  {
    AppendMoved(f, t, c);
    forall n | n in f.kids ensures Rooted(AppendChild(f, t, c), root, n) <==> Rooted(f, root, n) {
      AppendRooted(f, root, t, c, n);
      if Under(f.parent, n, c) { RootedLikeTop(f, root, c, n); }
    }
  }

  /** Tree and database are in step, and these nodes are stored. */
  ghost predicate InOrder<T>(w: World<T>, root: T, keys: set<T>) {
    Typed(w) && Sound(w.tree, root) && w.tree.changed == {} && w.stored == Rescan(w.tree, root) && w.stored.Keys == keys
  }

  /** A move to the trash leaves tree and database in step, and the same nodes are stored. */
  lemma TrashedInStep<T>(w: World<T>, root: T, c: T)
    requires Typed(w) && Sound(w.tree, root) && w.tree.changed == {} && w.stored == Rescan(w.tree, root)
    requires c in w.ids && c != root && w.kinds[c] != Trash && TrashFor(w.tree, w.kinds, c).Some?
    ensures !Under(w.tree.parent, TrashFor(w.tree, w.kinds, c).value, c)
    ensures InOrder(Trashed(w, root, TrashFor(w.tree, w.kinds, c).value, c), root, w.stored.Keys)
  {
    TrashReady(w.tree, w.kinds, root, c);
    ReadyTrashed(w, root, TrashFor(w.tree, w.kinds, c).value, c);
  }

  lemma ReadyTrashed<T>(w: World<T>, root: T, t: T, c: T)
    requires Typed(w) && Sound(w.tree, root) && w.stored == Rescan(w.tree, root) && w.tree.changed == {}
    requires t in w.ids && c in w.ids && Ready(w.tree, root, t, c)
    requires Rooted(w.tree, root, c) <==> Rooted(w.tree, root, t)
    ensures InOrder(Trashed(w, root, t, c), root, w.stored.Keys)
  {
    FlushIsRescan(w.tree, root, w.stored);
    AppendTracked(w.tree, root, w.stored, t, c);
    TrashedRooted(w.tree, root, t, c);
    MarkedAgain(w.tree, t, c);
    FlushIsRescan(AppendChild(w.tree, t, c), root, w.stored);
    RescanCleared(AppendChild(w.tree, t, c), root);
  }

  lemma MarkedAgain<T>(f: Forest<T>, p: T, c: T)
    requires Linked(f) && p in f.kids && c in f.kids
    ensures Marked(AppendChild(f, p, c), p) == AppendChild(f, p, c)
  {}

  lemma RescanCleared<T>(f: Forest<T>, root: T)
    requires WellFormed(f)
    ensures WellFormed(f.(changed := {})) && Rescan(f.(changed := {}), root) == Rescan(f, root)
  {}

  lemma IsolatedKeys<T>(f: Forest<T>, root: T, n: T)
    requires Sound(f, root) && n in f.kids && n != root && f.kids[n] == []
    ensures WellFormed(Isolate(f, n)) && Rescan(Isolate(f, n), root).Keys == Rescan(f, root).Keys - {n}
  {
    IsolateAcyclic(f, n);
    forall m | m in f.kids ensures Rooted(Isolate(f, n), root, m) <==> Rooted(f, root, m) && m != n {
      IsolateUnder(f, n, m, root);
      LeafAlone(f, n, m);
      UnderStep(f.parent, root, n);
    }
  }

  /** A node without children has nothing below it. */
  lemma {:induction false} LeafAlone<T>(f: Forest<T>, n: T, m: T)
    requires WellFormed(f) && n in f.kids && m in f.kids && f.kids[n] == []
    ensures Under(f.parent, m, n) <==> m == n
    decreases Depth(f.parent, m)
  {
    UnderStep(f.parent, m, n);
    if f.parent[m].Some? {
      DepthOfParent(f.parent, m);
      LeafAlone(f, n, f.parent[m].value);
    }
  }

  lemma DeletedKeys<T>(w: World<T>, root: T, t: T)
    requires InOrder(w, root, w.stored.Keys) && root in w.ids && t in w.ids && w.tree.kids[t] == [] && t != root
    ensures InOrder(Step(w, root, Delete(t)), root, w.stored.Keys - {t}) && Step(w, root, Delete(t)).kinds == w.kinds
  {
    WrittenWellFormed(w, Delete(t));
    WrittenIsRescan(w.tree, root, w.stored, t);
    IsolateTracked(w.tree, root, w.stored, t);
    IsolatedKeys(w.tree, root, t);
    RescanCleared(Isolate(w.tree, t), root);
  }

  // ---------- one call of delete ----------

  lemma MidwaySaved<T>(p: Cascade<T>, w: World<T>, gone: set<T>, t: T)
    requires Midway(p, w, gone) && t in p.f.kids
    ensures Typed(w) && WellFormed(Marked(w.tree, t))
    ensures Midway(p, Flushed(w.(tree := Marked(w.tree, t)), p.root), gone)
  {
    MidwayTyped(p, w, gone);
    MarkedWellFormed(w.tree, t);
    FlushIsRescan(w.tree, p.root, w.stored);
    FlushIsRescan(Marked(w.tree, t), p.root, w.stored);
    RescanCleared(Marked(w.tree, t), p.root);
    MarkedCleared(w.tree, t);
  }

  lemma MarkedCleared<T>(f: Forest<T>, n: T)
    requires f.changed == {}
    ensures Marked(f, n).(changed := {}) == f
  {}

  lemma TrashedKinds<T>(w: World<T>, root: T, t: T, c: T)
    requires Typed(w) && t in w.ids && c in w.ids && !Under(w.tree.parent, t, c)
    ensures Trashed(w, root, t, c).kinds == w.kinds
  {}
}
