/** Trashes beside and inside one another: when the children of a trash are deleted with it, and when
    another trash catches them. */
module Catchers {
  import opened Sequences
  import opened Chains
  import opened Forests
  import opened Reorders
  import opened Runs
  import opened Guards
  import opened Deletion
  import opened Trashes
  import opened Emptyings

  // ---------- whom another trash catches ----------

  /** The trashes directly in `t`. */
  ghost function Inner<T>(p: Cascade<T>, t: T): seq<T>
    requires WellPosed(p) && t in p.f.kids
  {
    KidsOfKind(p.f, p.kinds, t, Trash)
  }

  /** The first trash among the children of the parent of `t`; `t` itself if it has no parent. */
  ghost function FirstBeside<T>(p: Cascade<T>, t: T): (r: T)
    requires WellPosed(p) && t in p.f.kids && p.kinds[t] == Trash
    ensures r in p.f.kids && p.kinds[r] == Trash && p.f.parent[r] == p.f.parent[t]
  {
    match p.f.parent[t]
    case None => t
    case Some(q) =>
      assert t in KidsOfKind(p.f, p.kinds, q, Trash);
      assert KidsOfKind(p.f, p.kinds, q, Trash)[0] in p.f.kids[q];
      KidsOfKind(p.f, p.kinds, q, Trash)[0]
  }

  lemma GuardsAtTrash<T>(p: Cascade<T>, t: T)
    requires WellPosed(p) && t in p.f.kids && p.kinds[t] == Trash
    ensures p.f.parent[t].Some? ==> p.f.parent[t].value in p.f.kids
    ensures UpwardGuards(p.f, p.kinds, t, Trash) ==
      if Inner(p, t) != [] then Some(Inner(p, t))
      else if p.f.parent[t].None? then None else Some(KidsOfKind(p.f, p.kinds, p.f.parent[t].value, Trash))
  {
    if p.f.parent[t].Some? {
      DepthOfParent(p.f.parent, t);
      assert t in KidsOfKind(p.f, p.kinds, p.f.parent[t].value, Trash);
    }
  }

  lemma TrashForKid<T>(p: Cascade<T>, t: T, c: T)
    requires WellPosed(p) && t in p.f.kids && p.kinds[t] == Trash && c in p.f.kids[t]
    ensures c in p.f.kids && p.f.parent[c] == Some(t)
    ensures TrashFor(p.f, p.kinds, c) ==
      if Inner(p, t) != [] then Some(Inner(p, t)[0])
      else if p.f.parent[t].None? then None else Some(FirstBeside(p, t))
  {
    GuardsAtTrash(p, t);
  }

  /** Content that is directly in a trash is deleted and not moved if and only if there is no trash
      in that trash and none before it. */
  lemma UnguardedExactly<T>(p: Cascade<T>, t: T, c: T)
    requires WellPosed(p) && t in p.f.kids && p.kinds[t] == Trash && c in p.f.kids[t]
    ensures c in p.f.kids && (p.kinds[c] != Trash ==>
      (Unguarded(p.f, p.kinds, c) <==> Inner(p, t) == [] && FirstBeside(p, t) == t))
  {
    TrashForKid(p, t, c);
    if p.kinds[c] != Trash {
      UnderStep(p.f.parent, t, t);
      if Inner(p, t) != [] {
        var n := Inner(p, t)[0];
        assert n in p.f.kids[t];
        SiblingsNotUnder(p.f.parent, c, n);
      } else if p.f.parent[t].Some? {
        var h := FirstBeside(p, t);
        UnderStep(p.f.parent, c, h);
        if h != t { SiblingsNotUnder(p.f.parent, t, h); }
      }
    }
  }

  // ---------- cutting off in two steps ----------

  lemma CutTwice<T>(f: Forest<T>, a: set<T>, b: set<T>)
    ensures CutOff(CutOff(f, a), b) == CutOff(f, a + b)
  {
    forall m | m in f.kids ensures CutOff(CutOff(f, a), b).kids[m] == CutOff(f, a + b).kids[m] {
      MinusTwice(f.kids[m], a, b);
    }
    assert CutOff(CutOff(f, a), b).kids == CutOff(f, a + b).kids;
    assert CutOff(CutOff(f, a), b).parent == CutOff(f, a + b).parent;
  }

  /** The links that are left once a set is cut off. */
  lemma CutLinks<T>(p: Cascade<T>, gone: set<T>, r: T)
    requires Rested(p) && Downward(p.f, gone) && p.root !in gone
    ensures WellPosed(Cut(p, gone))
    ensures r in Links(Cut(p, gone)) <==> r in Links(p) && r !in gone
    ensures r in Links(Cut(p, gone)) ==> Links(Cut(p, gone))[r] == Links(p)[r]
  {
    CutFollows(p, gone, p.root);
    UnderStep(p.f.parent, p.root, p.root);
    if r in p.f.kids { CutOffUnder(p.f, gone, r, p.root); }
  }

  lemma CutSubtree<T>(p: Cascade<T>, gone: set<T>, r: T)
    requires Rested(p) && Downward(p.f, gone) && p.root !in gone && r in p.f.kids
    ensures WellPosed(Cut(p, gone))
    ensures Subtree(Cut(p, gone).f.parent, r) <= Subtree(p.f.parent, r) <= Subtree(Cut(p, gone).f.parent, r) + gone
  {
    CutFollows(p, gone, p.root);
    forall m | m in p.f.kids
      ensures m in Subtree(Cut(p, gone).f.parent, r) <==> m == r || (m !in gone && m in Subtree(p.f.parent, r))
    {
      CutOffUnder(p.f, gone, m, r);
    }
    UnderStep(p.f.parent, r, r);
  }

  /** Closures do not care whether what is gone is cut off first. */
  lemma CutClosure<T>(p: Cascade<T>, gone: set<T>, c: T)
    requires Rested(p) && Downward(p.f, gone) && Closed(p.f, Links(p), gone) && p.root !in gone && c in p.f.kids
    ensures WellPosed(Cut(p, gone))
    ensures gone + Closure(Cut(p, gone).f, Links(Cut(p, gone)), Subtree(Cut(p, gone).f.parent, c)) ==
      Closure(p.f, Links(p), gone + Subtree(p.f.parent, c))
  {
    CutFollows(p, gone, p.root);
    CutClosureBelow(p, gone, c);
    CutClosureAbove(p, gone, c);
  }

  lemma CutClosureBelow<T>(p: Cascade<T>, gone: set<T>, c: T)
    requires Rested(p) && Downward(p.f, gone) && Closed(p.f, Links(p), gone) && p.root !in gone && c in p.f.kids
    requires WellPosed(Cut(p, gone))
    ensures gone + Closure(Cut(p, gone).f, Links(Cut(p, gone)), Subtree(Cut(p, gone).f.parent, c)) <=
      Closure(p.f, Links(p), gone + Subtree(p.f.parent, c))
  {
    var q := Cut(p, gone);
    var all := Closure(p.f, Links(p), gone + Subtree(p.f.parent, c));
    ClosureCloses(p.f, Links(p), gone + Subtree(p.f.parent, c));
    CutSubtree(p, gone, c);
    forall r | r in Links(q) && Links(q)[r] in all ensures Subtree(q.f.parent, r) <= all {
      CutLinks(p, gone, r);
      CutSubtree(p, gone, r);
    }
    ClosureLeast(q.f, Links(q), Subtree(q.f.parent, c), all);
  }

  lemma CutClosureAbove<T>(p: Cascade<T>, gone: set<T>, c: T)
    requires Rested(p) && Downward(p.f, gone) && Closed(p.f, Links(p), gone) && p.root !in gone && c in p.f.kids
    requires WellPosed(Cut(p, gone))
    ensures Closure(p.f, Links(p), gone + Subtree(p.f.parent, c)) <=
      gone + Closure(Cut(p, gone).f, Links(Cut(p, gone)), Subtree(Cut(p, gone).f.parent, c))
  {
    var q := Cut(p, gone);
    var more := Closure(q.f, Links(q), Subtree(q.f.parent, c));
    ClosureCloses(q.f, Links(q), Subtree(q.f.parent, c));
    CutSubtree(p, gone, c);
    forall r | r in Links(p) && Links(p)[r] in gone + more ensures Subtree(p.f.parent, r) <= gone + more {
      if r !in gone && Links(p)[r] !in gone {
        CutLinks(p, gone, r);
        CutSubtree(p, gone, r);
      }
    }
    ClosureLeast(p.f, Links(p), gone + Subtree(p.f.parent, c), gone + more);
  }

  // ---------- one turn ----------

  lemma DueChild<T>(p: Cascade<T>, v: Cascade<T>, users: seq<seq<T>>, t: T, i: nat)
    requires Turned(p, v, t, i) && i < |p.f.kids[t]| && p.kinds[t] == Trash
    requires p.f.kids[t][i] in v.f.kids && Rested(v) && Due(v, users, p.f.kids[t][i])
    ensures WellPosed(v) && t in v.f.kids && v.kinds == p.kinds && v.root == p.root
    ensures p.f.kids[t][i] in v.f.kids[t] && v.f.parent[p.f.kids[t][i]] == Some(t) && p.f.kids[t][i] != v.root
  {
    TurnStarts(p, v, t, i);
  }

  /** Where content that is directly in the trash goes if it is not deleted. */
  ghost function Catcher<T>(p: Cascade<T>, t: T): (r: T)
    requires WellPosed(p) && t in p.f.kids && p.kinds[t] == Trash
    ensures r in p.f.kids
  {
    if Inner(p, t) != [] then assert Inner(p, t)[0] in p.f.kids; Inner(p, t)[0] else FirstBeside(p, t)
  }

  /** What the turn of a child that is no trash does, whatever trashes there are in the trash and
      beside it at that moment: the child is deleted with the references to it if the trash has none
      inside and is the first one beside itself, else it goes to the first one inside, or beside. */
  lemma TurnDecides<T>(p: Cascade<T>, v: Cascade<T>, users: seq<seq<T>>, t: T, i: nat)
    requires Turned(p, v, t, i) && t in p.f.kids && i < |p.f.kids[t]| && p.kinds[t] == Trash
    requires p.f.kids[t][i] in p.kinds && p.kinds[p.f.kids[t][i]] != Trash
    ensures WellPosed(v) && t in v.f.kids && v.kinds[t] == Trash && p.f.kids[t][i] in v.f.kids && Rested(v)
    ensures !Due(v, users, p.f.kids[t][i]) ==> AfterTurn(p, v, users, t, i) == v
    ensures Due(v, users, p.f.kids[t][i]) && Inner(v, t) == [] && FirstBeside(v, t) == t ==>
      AfterTurn(p, v, users, t, i) == Cut(v, Closure(v.f, Links(v), Subtree(v.f.parent, p.f.kids[t][i])))
    ensures Due(v, users, p.f.kids[t][i]) && !(Inner(v, t) == [] && FirstBeside(v, t) == t) ==>
      AfterTurn(p, v, users, t, i) == Binned(v, Catcher(v, t), p.f.kids[t][i])
  {
    TurnStarts(p, v, t, i);
    var c := p.f.kids[t][i];
    if Due(v, users, c) {
      DueChild(p, v, users, t, i);
      ContentDecides(v, users, t, c);
    }
  }

  lemma ContentDecides<T>(v: Cascade<T>, users: seq<seq<T>>, t: T, c: T)
    requires Rested(v) && t in v.f.kids && v.kinds[t] == Trash && c in v.f.kids[t] && c in v.f.kids
    requires c != v.root && v.kinds[c] != Trash && Deletable(v.f, users, c)
    ensures AfterDelete(v, users, c) ==
      if Inner(v, t) == [] && FirstBeside(v, t) == t
      then Cut(v, Closure(v.f, Links(v), Subtree(v.f.parent, c)))
      else Binned(v, Catcher(v, t), c)
  {
    UnguardedExactly(v, t, c);
    TrashForKid(v, t, c);
  }

  // ---------- a trash that guards its own children ----------

  /** No trash in it, and none before it. */
  ghost predicate Alone<T>(p: Cascade<T>, t: T) {
    WellPosed(p) && t in p.f.kids && p.kinds[t] == Trash && Inner(p, t) == [] && FirstBeside(p, t) == t
  }

  /** While other nodes go, it stays so: no other trash ever catches a child of it. */
  lemma AloneKept<T>(p: Cascade<T>, gone: set<T>, t: T)
    requires Rested(p) && Alone(p, t) && Downward(p.f, gone) && p.root !in gone && t !in gone
    ensures Alone(Cut(p, gone), t)
  {
    CutFollows(p, gone, p.root);
    CutOffKinds(p.f, p.kinds, gone, t, Trash);
    if p.f.parent[t].Some? {
      var q := p.f.parent[t].value;
      ParentKept(p.f, gone, t);
      CutOffKinds(p.f, p.kinds, gone, q, Trash);
      assert t in KidsOfKind(p.f, p.kinds, q, Trash);
      HeadKept(KidsOfKind(p.f, p.kinds, q, Trash), gone, t);
    }
  }

  lemma ContainedSpared<T>(p: Cascade<T>, t: T)
    requires WellPosed(p) && t in p.f.kids
    ensures var all := Contained(p.f, p.f.kids[t]); Downward(p.f, all) && p.root !in all
    ensures Contained(p.f, p.f.kids[t]) <= p.f.kids.Keys
  {
    var all := Contained(p.f, p.f.kids[t]);
    forall n, m | n in all && m in Subtree(p.f.parent, n) ensures m in all {
      var c :| c in p.f.kids[t] && n in Subtree(p.f.parent, c);
      UnderTransitive(p.f.parent, m, n, c);
      assert m in Subtree(p.f.parent, c);
    }
    forall c | c in p.f.kids[t] ensures p.root !in Subtree(p.f.parent, c) { RootNotInside(p.f, p.root, c); }
  }

  /** What is gone in the middle of emptying. */
  ghost predicate Halfway<T>(p: Cascade<T>, t: T, gone: set<T>) {
    Rested(p) && Alone(p, t) && Partial(p, p.f.kids[t], gone) && p.root !in gone
  }

  lemma StageHalfway<T>(p: Cascade<T>, users: seq<seq<T>>, t: T, stages: seq<set<T>>, i: nat)
    requires Rested(p) && Alone(p, t) && i <= |p.f.kids[t]| && Stages(p, users, p.f.kids[t], stages)
    ensures Halfway(p, t, stages[i])
  {
    StagePartial(p, users, p.f.kids[t], stages, i);
    ContainedSpared(p, t);
    RootSpared(p, Contained(p.f, p.f.kids[t]));
  }

  lemma NotDueGone<T>(p: Cascade<T>, users: seq<seq<T>>, t: T, gone: set<T>, c: T)
    requires Halfway(p, t, gone) && c in p.f.kids[t]
    ensures Rested(Cut(p, gone)) && c in p.f.kids
    ensures Due(Cut(p, gone), users, c) <==> c !in gone && !HoldsRoot(p.f, users, gone, c)
    ensures c !in gone ==> t !in gone && c in Cut(p, gone).f.kids[t]
  {
    CutFollows(p, gone, p.root);
    if c !in gone {
      ParentKept(p.f, gone, c);
      DeletableMidway(p.f, users, gone, c);
    }
  }

  lemma CutNext<T>(p: Cascade<T>, users: seq<seq<T>>, t: T, gone: set<T>, c: T)
    requires Halfway(p, t, gone) && c in p.f.kids[t]
    ensures WellPosed(Cut(p, gone)) && c in p.f.kids
    ensures Cut(Cut(p, gone), Closure(Cut(p, gone).f, Links(Cut(p, gone)), Subtree(Cut(p, gone).f.parent, c))) ==
      Cut(p, Closure(p.f, Links(p), gone + Subtree(p.f.parent, c)))
  {
    CutClosure(p, gone, c);
    var v := Cut(p, gone);
    CutTwice(p.f, gone, Closure(v.f, Links(v), Subtree(v.f.parent, c)));
  }

  /** One turn in such a trash is one turn of the closed form. */
  lemma AloneTurn<T>(p: Cascade<T>, users: seq<seq<T>>, t: T, i: nat, gone: set<T>)
    requires Halfway(p, t, gone) && i < |p.f.kids[t]| && Turned(p, Cut(p, gone), t, i)
    ensures AfterTurn(p, Cut(p, gone), users, t, i) == Cut(p, EmptiedNext(p, users, gone, p.f.kids[t][i]))
  {
    var c := p.f.kids[t][i];
    assert c in p.f.kids[t];
    NotDueGone(p, users, t, gone, c);
    TurnDecides(p, Cut(p, gone), users, t, i);
    if Due(Cut(p, gone), users, c) {
      AloneKept(p, gone, t);
      CutNext(p, users, t, gone, c);
    }
  }

  lemma AloneFirst<T>(p: Cascade<T>, users: seq<seq<T>>, t: T, stages: seq<set<T>>)
    requires Rested(p) && Alone(p, t) && Stages(p, users, p.f.kids[t], stages)
    ensures Reaches(p, users, t, 0, Cut(p, stages[0]))
  {
    CutOffNothing(p.f);
    FirstStage(p, users, p.f.kids[t], stages);
    ReachesFirst(p, users, t);
  }

  lemma AloneNext<T>(p: Cascade<T>, users: seq<seq<T>>, t: T, stages: seq<set<T>>, i: nat)
    requires Rested(p) && Alone(p, t) && i < |p.f.kids[t]| && Stages(p, users, p.f.kids[t], stages)
    requires Reaches(p, users, t, i, Cut(p, stages[i]))
    ensures Reaches(p, users, t, i + 1, Cut(p, stages[i + 1]))
  {
    ReachesNext(p, users, t, i, Cut(p, stages[i]));
    StageHalfway(p, users, t, stages, i);
    StagesNext(p, users, p.f.kids[t], stages, i);
    AloneTurn(p, users, t, i, stages[i]);
  }

  lemma {:induction false} AloneReaches<T>(p: Cascade<T>, users: seq<seq<T>>, t: T, stages: seq<set<T>>, i: nat)
    requires Rested(p) && Alone(p, t) && i <= |p.f.kids[t]| && Stages(p, users, p.f.kids[t], stages)
    ensures Reaches(p, users, t, i, Cut(p, stages[i]))
  {
    if i == 0 {
      AloneFirst(p, users, t, stages);
    } else {
      AloneReaches(p, users, t, stages, i - 1);
      AloneNext(p, users, t, stages, i - 1);
    }
  }

  /** Emptying a trash that has no trash in it and none before it is the closed form: its children go
      one after the other, each with the references into it, unless a user root is left inside. */
  lemma AloneEmptied<T>(p: Cascade<T>, users: seq<seq<T>>, t: T, i: nat)
    requires Rested(p) && Alone(p, t) && i <= |p.f.kids[t]|
    ensures AfterTurns(p, users, t, i) == Cut(p, Emptied(p, users, p.f.kids[t], i))
  {
    var stages := StagesOf(p, users, p.f.kids[t]);
    AloneReaches(p, users, t, stages, i);
    StageIs(p, users, p.f.kids[t], stages, i);
  }

  /** If no user has a root inside, all that is in such a trash goes with every reference into it, and
      nothing else, in whatever order the children are. */
  lemma AloneEmptiedWhole<T>(p: Cascade<T>, users: seq<seq<T>>, t: T)
    requires Rested(p) && Alone(p, t) && t != p.root && p.f.kids[t] != []
    requires forall c | c in p.f.kids[t] :: c in p.f.kids && Deletable(p.f, users, c)
    ensures Contained(p.f, p.f.kids[t]) <= p.f.kids.Keys
    ensures AfterDelete(p, users, t) == Cut(p, Closure(p.f, Links(p), Contained(p.f, p.f.kids[t])))
  {
    ContainedSpared(p, t);
    EmptiedIsClosure(p, users, p.f.kids[t]);
    AloneEmptied(p, users, t, |p.f.kids[t]|);
  }

  // ---------- a trash that comes after another one ----------

  /** No trash in it, and another one before it. */
  ghost predicate Behind<T>(p: Cascade<T>, t: T) {
    WellPosed(p) && t in p.f.kids && p.kinds[t] == Trash && Inner(p, t) == [] && FirstBeside(p, t) != t
  }

  /** The children that may be deleted, among the first `i`, in order. */
  ghost function Chosen<T>(f: Forest<T>, users: seq<seq<T>>, kids: seq<T>, i: nat): (r: seq<T>)
    requires WellFormed(f) && i <= |kids|
    ensures forall x | x in r :: x in kids
  {
    if i == 0 then []
    else Chosen(f, users, kids, i - 1) + if Deletable(f, users, kids[i - 1]) then [kids[i - 1]] else []
  }

  lemma {:induction false} ChosenIn<T>(f: Forest<T>, users: seq<seq<T>>, kids: seq<T>, i: nat, x: T)
    requires WellFormed(f) && i <= |kids|
    ensures x in Chosen(f, users, kids, i) <==> x in kids[..i] && Deletable(f, users, x)
  {
    if i > 0 { ChosenIn(f, users, kids, i - 1, x); }
  }

  lemma {:induction false} ChosenNoDup<T>(f: Forest<T>, users: seq<seq<T>>, kids: seq<T>, i: nat)
    requires WellFormed(f) && i <= |kids| && NoDup(kids)
    ensures NoDup(Chosen(f, users, kids, i))
    ensures i < |kids| ==> kids[i] !in Chosen(f, users, kids, i)
  {
    if i < |kids| { ChosenIn(f, users, kids, i, kids[i]); }
    if i > 0 {
      ChosenNoDup(f, users, kids, i - 1);
      ChosenIn(f, users, kids, i - 1, kids[i - 1]);
      NoDupAppended(Chosen(f, users, kids, i - 1), kids[i - 1]);
    }
  }

  /** Some of the children of `t` have gone to the end of the trash `h` beside it; else nothing is different. */
  ghost predicate Shifted<T>(p: Cascade<T>, t: T, h: T, cs: seq<T>, v: Cascade<T>) {
    && Rested(p) && Rested(v) && t in p.f.kids && h in p.f.kids && NoDup(cs)
    && (forall c | c in cs :: c in p.f.kids[t] && c in p.f.kids)
    && h != t && p.f.parent[h].Some? && p.f.parent[h] == p.f.parent[t]
    && v == p.(f := AppendSeq(p.f, h, cs).(changed := {}))
  }

  lemma ShiftedAt<T>(p: Cascade<T>, t: T, h: T, cs: seq<T>, v: Cascade<T>, m: T)
    requires Shifted(p, t, h, cs, v) && m in p.f.kids
    ensures m in v.f.parent && v.f.parent[m] == if m in cs then Some(h) else p.f.parent[m]
    ensures v.f.kids[m] == Minus(p.f.kids[m], Elems(cs)) + if m == h then cs else []
  {
    AppendSeqGathers(p.f, h, cs, m);
  }

  lemma {:induction false} ShiftedUnder<T>(p: Cascade<T>, t: T, h: T, cs: seq<T>, v: Cascade<T>, m: T, c: T)
    requires Shifted(p, t, h, cs, v) && m in p.f.kids && c in p.f.kids[t] && c !in cs
    ensures Under(v.f.parent, m, c) <==> Under(p.f.parent, m, c)
    decreases Depth(v.f.parent, m)
  {
    ShiftedAt(p, t, h, cs, v, m);
    UnderStep(v.f.parent, m, c);
    UnderStep(p.f.parent, m, c);
    if m in cs {
      DepthOfParent(v.f.parent, m);
      ShiftedUnder(p, t, h, cs, v, h, c);
      SiblingsNotUnder(p.f.parent, m, c);
      BesideApart(p.f, t, h, c);
    } else if m != c && p.f.parent[m].Some? {
      DepthOfParent(v.f.parent, m);
      ShiftedUnder(p, t, h, cs, v, p.f.parent[m].value, c);
    }
  }

  lemma BesideApart<T>(f: Forest<T>, t: T, h: T, c: T)
    requires WellFormed(f) && t in f.kids && h in f.kids && h != t && f.parent[h].Some? && f.parent[h] == f.parent[t]
    requires c in f.kids[t]
    ensures !Under(f.parent, h, c)
  {
    UnderStep(f.parent, t, t);
    UnderStep(f.parent, c, t);
    SiblingsNotUnder(f.parent, h, t);
    if Under(f.parent, h, c) { UnderTransitive(f.parent, h, c, t); }
  }

  lemma ShiftedDeletable<T>(p: Cascade<T>, users: seq<seq<T>>, t: T, h: T, cs: seq<T>, v: Cascade<T>, c: T)
    requires Shifted(p, t, h, cs, v) && c in p.f.kids[t] && c !in cs
    ensures Deletable(v.f, users, c) <==> Deletable(p.f, users, c)
  {
    forall i, j | 0 <= i < |users| && 0 <= j < |users[i]| && users[i][j] in p.f.kids
      ensures Under(v.f.parent, users[i][j], c) <==> Under(p.f.parent, users[i][j], c)
    {
      ShiftedUnder(p, t, h, cs, v, users[i][j], c);
    }
  }

  lemma NoneInside<T>(p: Cascade<T>, v: Cascade<T>, t: T)
    requires WellPosed(p) && WellPosed(v) && t in p.f.kids && t in v.f.kids && v.kinds == p.kinds
    requires Inner(p, t) == [] && forall x | x in v.f.kids[t] :: x in p.f.kids[t]
    ensures Inner(v, t) == []
  {
    forall x | x in p.f.kids[t] ensures x in p.kinds && p.kinds[x] != Trash { NotInside(p, t, x); }
    NoneOfKind(v.kinds, v.f.kids[t], Trash);
  }

  lemma NotInside<T>(p: Cascade<T>, t: T, x: T)
    requires WellPosed(p) && t in p.f.kids && Inner(p, t) == [] && x in p.f.kids[t]
    ensures x in p.kinds && p.kinds[x] != Trash
  {}

  lemma ShiftedInner<T>(p: Cascade<T>, t: T, h: T, cs: seq<T>, v: Cascade<T>)
    requires Behind(p, t) && Shifted(p, t, h, cs, v)
    ensures Inner(v, t) == []
  {
    forall x | x in v.f.kids[t] ensures x in p.f.kids[t] { ShiftedAt(p, t, h, cs, v, t); }
    NoneInside(p, v, t);
  }

  lemma ShiftedLevel<T>(p: Cascade<T>, t: T, h: T, cs: seq<T>, v: Cascade<T>, q: T)
    requires Shifted(p, t, h, cs, v) && p.f.parent[t] == Some(q)
    ensures q in p.f.kids && q in v.f.kids && v.f.parent[t] == Some(q) && v.f.kids[q] == p.f.kids[q]
  {
    DepthOfParent(p.f.parent, t);
    ShiftedAt(p, t, h, cs, v, t);
    ShiftedAt(p, t, h, cs, v, q);
    UnderStep(p.f.parent, h, h);
    UnderStep(p.f.parent, t, t);
    ParentNotUnder(p.f.parent, h);
    ParentNotUnder(p.f.parent, t);
    MinusNothing(p.f.kids[q], Elems(cs));
  }

  lemma SameLevel<T>(p: Cascade<T>, v: Cascade<T>, t: T, q: T)
    requires Behind(p, t) && WellPosed(v) && t in v.f.kids && v.kinds == p.kinds
    requires q in p.f.kids && q in v.f.kids && p.f.parent[t] == Some(q) && v.f.parent[t] == Some(q)
    requires v.f.kids[q] == p.f.kids[q] && Inner(v, t) == []
    ensures Behind(v, t) && FirstBeside(v, t) == FirstBeside(p, t) && Catcher(v, t) == FirstBeside(p, t)
  {}

  /** The other trash stays the first one. */
  lemma ShiftedBehind<T>(p: Cascade<T>, t: T, h: T, cs: seq<T>, v: Cascade<T>)
    requires Behind(p, t) && h == FirstBeside(p, t) && Shifted(p, t, h, cs, v)
    ensures Behind(v, t) && FirstBeside(v, t) == h && Catcher(v, t) == h
  {
    ShiftedInner(p, t, h, cs, v);
    ShiftedLevel(p, t, h, cs, v, p.f.parent[t].value);
    SameLevel(p, v, t, p.f.parent[t].value);
  }

  lemma ShiftedNone<T>(p: Cascade<T>, t: T)
    requires Rested(p) && Behind(p, t)
    ensures Shifted(p, t, FirstBeside(p, t), [], p)
  {}

  lemma AppendUnmarked<T>(f: Forest<T>, h: T, c: T)
    requires Linked(f) && h in f.kids && c in f.kids
    ensures AppendChild(f.(changed := {}), h, c).(changed := {}) == AppendChild(f, h, c).(changed := {})
  {}

  lemma ShiftedNext<T>(p: Cascade<T>, t: T, h: T, cs: seq<T>, v: Cascade<T>, c: T)
    requires Shifted(p, t, h, cs, v) && c in p.f.kids[t] && c in p.f.kids && c !in cs && Rested(Binned(v, h, c))
    ensures Shifted(p, t, h, cs + [c], Binned(v, h, c))
  {
    assert (cs + [c])[..|cs|] == cs;
    AppendUnmarked(AppendSeq(p.f, h, cs), h, c);
    NoDupAppended(cs, c);
  }

  lemma ShiftedDue<T>(p: Cascade<T>, users: seq<seq<T>>, t: T, h: T, cs: seq<T>, v: Cascade<T>, c: T)
    requires Shifted(p, t, h, cs, v) && c in p.f.kids[t] && c in p.f.kids && c !in cs
    ensures c in v.f.kids && (Due(v, users, c) <==> Deletable(p.f, users, c))
  {
    ShiftedAt(p, t, h, cs, v, c);
    ShiftedDeletable(p, users, t, h, cs, v, c);
  }

  lemma BehindMoves<T>(p: Cascade<T>, users: seq<seq<T>>, t: T, i: nat, v: Cascade<T>, h: T)
    requires Turned(p, v, t, i) && t in p.f.kids && i < |p.f.kids[t]| && p.kinds[t] == Trash
    requires Inner(p, t) == [] && Behind(v, t) && Catcher(v, t) == h && Rested(v) && p.f.kids[t][i] in v.f.kids
    ensures AfterTurn(p, v, users, t, i) ==
      if Due(v, users, p.f.kids[t][i]) then Binned(v, h, p.f.kids[t][i]) else v
    ensures Rested(AfterTurn(p, v, users, t, i))
  {
    assert p.f.kids[t][i] in p.f.kids[t];
    NotInside(p, t, p.f.kids[t][i]);
    TurnDecides(p, v, users, t, i);
  }

  ghost function Added<T>(cs: seq<T>, c: T, more: bool): seq<T> {
    if more then cs + [c] else cs
  }

  lemma BehindTurn<T>(p: Cascade<T>, users: seq<seq<T>>, t: T, i: nat, cs: seq<T>, v: Cascade<T>)
    requires Behind(p, t) && Shifted(p, t, FirstBeside(p, t), cs, v) && i < |p.f.kids[t]| && Turned(p, v, t, i)
    requires p.f.kids[t][i] !in cs
    ensures Shifted(p, t, FirstBeside(p, t), Added(cs, p.f.kids[t][i], Deletable(p.f, users, p.f.kids[t][i])),
                    AfterTurn(p, v, users, t, i))
  {
    var c, h := p.f.kids[t][i], FirstBeside(p, t);
    assert c in p.f.kids[t];
    ShiftedBehind(p, t, h, cs, v);
    ShiftedDue(p, users, t, h, cs, v, c);
    BehindMoves(p, users, t, i, v, h);
    if Deletable(p.f, users, c) { ShiftedNext(p, t, h, cs, v, c); }
  }

  ghost predicate ChosenAre<T>(f: Forest<T>, users: seq<seq<T>>, kids: seq<T>, i: nat, cs: seq<T>) {
    && WellFormed(f) && i <= |kids|
    && forall n {:trigger Chosen(f, users, kids, n)} | n == i :: Chosen(f, users, kids, n) == cs
  }

  lemma ChosenNext<T>(f: Forest<T>, users: seq<seq<T>>, kids: seq<T>, i: nat, cs: seq<T>)
    requires i < |kids| && NoDup(kids) && ChosenAre(f, users, kids, i, cs)
    ensures ChosenAre(f, users, kids, i + 1, Added(cs, kids[i], Deletable(f, users, kids[i]))) && kids[i] !in cs
  {
    assert Chosen(f, users, kids, i) == cs;
    ChosenNoDup(f, users, kids, i);
  }

  /** After the first `i` turns. */
  ghost predicate BehindAt<T>(p: Cascade<T>, users: seq<seq<T>>, t: T, i: nat, cs: seq<T>, v: Cascade<T>) {
    Together(
      && Rested(p) && Behind(p, t) && Reaches(p, users, t, i, v) && ChosenAre(p.f, users, p.f.kids[t], i, cs)
      && Shifted(p, t, FirstBeside(p, t), cs, v))
  }

  /** At least `i` children are in such a trash. */
  ghost predicate Waits<T>(p: Cascade<T>, t: T, i: nat) {
    Together(Rested(p) && Behind(p, t) && i <= |p.f.kids[t]|)
  }

  lemma BehindFirst<T>(p: Cascade<T>, users: seq<seq<T>>, t: T)
    requires Waits(p, t, 0)
    ensures BehindAt(p, users, t, 0, [], p)
  {
    ReachesFirst(p, users, t);
    ShiftedNone(p, t);
  }

  lemma BehindNext<T>(p: Cascade<T>, users: seq<seq<T>>, t: T, i: nat, cs: seq<T>, v: Cascade<T>)
    returns (more: seq<T>, u: Cascade<T>)
    requires Waits(p, t, i + 1) && BehindAt(p, users, t, i, cs, v)
    ensures BehindAt(p, users, t, i + 1, more, u)
  {
    ChosenNext(p.f, users, p.f.kids[t], i, cs);
    ReachesNext(p, users, t, i, v);
    BehindTurn(p, users, t, i, cs, v);
    more, u := Added(cs, p.f.kids[t][i], Deletable(p.f, users, p.f.kids[t][i])), AfterTurn(p, v, users, t, i);
  }

  lemma {:induction false} BehindReaches<T>(p: Cascade<T>, users: seq<seq<T>>, t: T, i: nat)
    returns (cs: seq<T>, v: Cascade<T>)
    requires forall j | 0 <= j <= i :: Waits(p, t, j)
    ensures BehindAt(p, users, t, i, cs, v)
  {
    if i == 0 {
      cs, v := [], p;
      BehindFirst(p, users, t);
    } else {
      cs, v := BehindReaches(p, users, t, i - 1);
      cs, v := BehindNext(p, users, t, i - 1, cs, v);
    }
  }

  /** Emptying a trash that has no trash in it and another one before it deletes nothing: the children
      that may be deleted go to the end of the other trash, one after the other, and all else stays. */
  lemma BehindEmptied<T>(p: Cascade<T>, users: seq<seq<T>>, t: T, i: nat)
    requires Rested(p) && Behind(p, t) && i <= |p.f.kids[t]|
    ensures Shifted(p, t, FirstBeside(p, t), Chosen(p.f, users, p.f.kids[t], i), AfterTurns(p, users, t, i))
  {
    var cs, v := BehindReaches(p, users, t, i);
    assert AfterTurns(p, users, t, i) == v && Chosen(p.f, users, p.f.kids[t], i) == cs;
  }

  // ---------- exactly which children are deleted ----------

  lemma AloneTakes<T>(p: Cascade<T>, users: seq<seq<T>>, t: T, c: T)
    requires Rested(p) && Alone(p, t) && c in p.f.kids[t] && Deletable(p.f, users, c)
    ensures c in p.f.kids && Subtree(p.f.parent, c) <= Emptied(p, users, p.f.kids[t], |p.f.kids[t]|)
  {
    var kids := p.f.kids[t];
    var stages := StagesOf(p, users, kids);
    var j :| 0 <= j < |kids| && kids[j] == c;
    StageGrows(p, users, kids, stages, j);
    StagesRise(p, users, kids, stages, j + 1, |kids|);
    StageIs(p, users, kids, stages, |kids|);
  }

  /** A trash is emptied that has no trash in it: a child that may be deleted stands alone afterwards,
      and all that was below it, if and only if the trash is the first one beside itself; else the child is
      in the first one afterwards. */
  lemma DeletedExactly<T>(p: Cascade<T>, users: seq<seq<T>>, t: T, c: T)
    requires Rested(p) && t in p.f.kids && t != p.root && p.kinds[t] == Trash && Inner(p, t) == []
    requires c in p.f.kids[t] && Deletable(p.f, users, c)
    ensures c in p.f.kids && c in AfterDelete(p, users, t).f.parent
    ensures FirstBeside(p, t) == t ==>
      forall m | m in Subtree(p.f.parent, c) :: AfterDelete(p, users, t).f.parent[m] == None
    ensures AfterDelete(p, users, t).f.parent[c] == if FirstBeside(p, t) == t then None else Some(FirstBeside(p, t))
  {
    UnderStep(p.f.parent, c, c);
    if FirstBeside(p, t) == t {
      AloneTakes(p, users, t, c);
      AloneEmptied(p, users, t, |p.f.kids[t]|);
    } else {
      BehindEmptied(p, users, t, |p.f.kids[t]|);
      ChosenIn(p.f, users, p.f.kids[t], |p.f.kids[t]|, c);
      ShiftedAt(p, t, FirstBeside(p, t), Chosen(p.f, users, p.f.kids[t], |p.f.kids[t]|), AfterDelete(p, users, t), c);
    }
  }

  // ---------- trashes inside ----------

  lemma LeafSubtree<T>(f: Forest<T>, d: T)
    requires WellFormed(f) && d in f.kids && f.kids[d] == []
    ensures Subtree(f.parent, d) == {d}
  {
    forall m | m in f.kids ensures m in Subtree(f.parent, d) <==> m == d { LeafAlone(f, d, m); }
  }

  lemma EmptyDeleted<T>(p: Cascade<T>, users: seq<seq<T>>, d: T)
    requires Rested(p) && d in p.f.kids && d != p.root && p.kinds[d] == Trash && p.f.kids[d] == []
    ensures AfterDelete(p, users, d) == Cut(p, {d}) && Rested(Cut(p, {d}))
  {
    LeafSubtree(p.f, d);
  }

  lemma FirstTurn<T>(p: Cascade<T>, users: seq<seq<T>>, t: T)
    requires Rested(p) && t in p.f.kids && p.f.kids[t] != []
    ensures p.f.kids[t][0] in p.f.kids && p.f.kids[t][0] != p.root && Turned(p, p, t, 0)
    ensures Deletable(p.f, users, p.f.kids[t][0]) ==>
      AfterTurn(p, p, users, t, 0) == AfterDelete(p, users, p.f.kids[t][0])
  {
    assert p.f.kids[t][0] in p.f.kids[t];
    NoTurn(p, t);
  }

  lemma EmptyTurn<T>(p: Cascade<T>, users: seq<seq<T>>, t: T, d: T)
    requires Rested(p) && t in p.f.kids && p.f.kids[t] != [] && p.f.kids[t][0] == d && d in p.f.kids
    requires p.kinds[d] == Trash && p.f.kids[d] == [] && Deletable(p.f, users, d)
    ensures Rested(Cut(p, {d})) && Reaches(p, users, t, 1, Cut(p, {d}))
  {
    FirstTurn(p, users, t);
    EmptyDeleted(p, users, d);
    ReachesFirst(p, users, t);
    ReachesNext(p, users, t, 0, p);
  }

  lemma TurnIs<T>(p: Cascade<T>, v: Cascade<T>, users: seq<seq<T>>, t: T, i: nat, c: T)
    requires Turned(p, v, t, i) && t in p.f.kids && i < |p.f.kids[t]| && p.f.kids[t][i] == c
    ensures Rested(v) && c in v.f.kids && (Due(v, users, c) ==> c != v.root)
    ensures AfterTurn(p, v, users, t, i) == if Due(v, users, c) then AfterDelete(v, users, c) else v
  {
    TurnStarts(p, v, t, i);
  }

  lemma SameTurn<T>(p: Cascade<T>, q: Cascade<T>, users: seq<seq<T>>, t: T, i: nat, v: Cascade<T>, c: T)
    returns (u: Cascade<T>)
    requires Reaches(p, users, t, i + 1, v) && i + 1 < |p.f.kids[t]| && p.f.kids[t][i + 1] == c
    requires Reaches(q, users, t, i, v) && i < |q.f.kids[t]| && q.f.kids[t][i] == c
    ensures Reaches(p, users, t, i + 2, u) && Reaches(q, users, t, i + 1, u)
  {
    ReachesNext(p, users, t, i + 1, v);
    ReachesNext(q, users, t, i, v);
    TurnIs(p, v, users, t, i + 1, c);
    TurnIs(q, v, users, t, i, c);
    u := AfterTurn(p, v, users, t, i + 1);
  }

  /** The first child of `t` is gone, or elsewhere; the others are still there. */
  ghost predicate FirstDone<T>(p: Cascade<T>, q: Cascade<T>, t: T) {
    Together(
      && Rested(p) && Rested(q) && t in p.f.kids && t in q.f.kids && p.f.kids[t] != []
      && q.f.kids[t] == p.f.kids[t][1..])
  }

  lemma OthersThere<T>(p: Cascade<T>, q: Cascade<T>, t: T, i: nat)
    requires FirstDone(p, q, t) && t in q.f.kids && i < |q.f.kids[t]|
    ensures t in p.f.kids && i + 1 < |p.f.kids[t]| && p.f.kids[t][i + 1] == q.f.kids[t][i]
  {}

  /** After `i + 1` turns from `p`, which are `i` turns from `q`. */
  ghost predicate BothReach<T>(p: Cascade<T>, q: Cascade<T>, users: seq<seq<T>>, t: T, i: nat, v: Cascade<T>) {
    Together(FirstDone(p, q, t) && Reaches(p, users, t, i + 1, v) && Reaches(q, users, t, i, v))
  }

  /** At least `i` children are in the trash. */
  ghost predicate Holds<T>(q: Cascade<T>, t: T, i: nat) {
    Together(t in q.f.kids && i <= |q.f.kids[t]|)
  }

  lemma BothNext<T>(p: Cascade<T>, q: Cascade<T>, users: seq<seq<T>>, t: T, i: nat, v: Cascade<T>)
    returns (u: Cascade<T>)
    requires BothReach(p, q, users, t, i, v) && Holds(q, t, i + 1)
    ensures BothReach(p, q, users, t, i + 1, u)
  {
    OthersThere(p, q, t, i);
    u := SameTurn(p, q, users, t, i, v, q.f.kids[t][i]);
  }

  /** What is left to do once the first child had its turn is to empty the trash as it is then. */
  lemma {:induction false} SameTurns<T>(p: Cascade<T>, q: Cascade<T>, users: seq<seq<T>>, t: T, i: nat)
    returns (v: Cascade<T>)
    requires BothReach(p, q, users, t, 0, q) && forall j | 0 <= j <= i :: Holds(q, t, j)
    ensures BothReach(p, q, users, t, i, v)
  {
    if i == 0 {
      v := q;
    } else {
      v := SameTurns(p, q, users, t, i - 1);
      v := BothNext(p, q, users, t, i - 1, v);
    }
  }

  lemma CutHead<T>(p: Cascade<T>, t: T, d: T)
    requires Rested(p) && t in p.f.kids && p.f.kids[t] != [] && p.f.kids[t][0] == d
    ensures d != t && Cut(p, {d}).f.kids[t] == p.f.kids[t][1..]
  {
    assert d in p.f.kids[t];
    UnderStep(p.f.parent, d, d);
    ParentNotUnder(p.f.parent, d);
    MinusHead(p.f.kids[t]);
  }

  /** Emptying a trash whose first turn leads to a state with the other children still in it comes to
      emptying it in that state. */
  lemma RestAfterFirst<T>(p: Cascade<T>, q: Cascade<T>, users: seq<seq<T>>, t: T)
    requires Reaches(p, users, t, 1, q) && Rested(q) && t in q.f.kids && q.f.kids[t] == p.f.kids[t][1..]
    requires t != p.root && t != q.root && p.kinds[t] == Trash && q.kinds[t] == Trash && q.f.kids[t] != []
    ensures AfterDelete(p, users, t) == AfterDelete(q, users, t)
  {
    var n := |q.f.kids[t]|;
    ReachesFirst(q, users, t);
    var v := SameTurns(p, q, users, t, n);
    assert AfterTurns(p, users, t, n + 1) == v && AfterTurns(q, users, t, n) == v;
  }

  /** An empty trash that comes first in a trash is gone when the others have their turn. */
  lemma EmptyFirst<T>(p: Cascade<T>, users: seq<seq<T>>, t: T, d: T)
    requires Rested(p) && t in p.f.kids && t != p.root && |p.f.kids[t]| > 1 && p.f.kids[t][0] == d && d in p.f.kids
    requires p.kinds[t] == Trash && p.kinds[d] == Trash && p.f.kids[d] == [] && Deletable(p.f, users, d)
    ensures Rested(Cut(p, {d})) && t in Cut(p, {d}).f.kids
    ensures AfterDelete(p, users, t) == AfterDelete(Cut(p, {d}), users, t)
  {
    EmptyTurn(p, users, t, d);
    CutHead(p, t, d);
    RestAfterFirst(p, Cut(p, {d}), users, t);
  }

  lemma CaughtTurn<T>(p: Cascade<T>, users: seq<seq<T>>, t: T, c: T)
    requires Rested(p) && t in p.f.kids && p.kinds[t] == Trash && Inner(p, t) != []
    requires p.f.kids[t] != [] && p.f.kids[t][0] == c
    requires c in p.f.kids && p.kinds[c] != Trash && Deletable(p.f, users, c)
    ensures Inner(p, t)[0] in p.f.kids && Inner(p, t)[0] in p.f.kids[t] && p.kinds[Inner(p, t)[0]] == Trash
    ensures Reaches(p, users, t, 1, Binned(p, Inner(p, t)[0], c)) && Rested(Binned(p, Inner(p, t)[0], c))
  {
    FirstTurn(p, users, t);
    assert c in p.f.kids[t];
    ContentDecides(p, users, t, c);
    ReachesFirst(p, users, t);
    ReachesNext(p, users, t, 0, p);
    assert Inner(p, t)[0] in Inner(p, t);
  }

  lemma BinnedAt<T>(p: Cascade<T>, h: T, c: T, m: T)
    requires Rested(p) && h in p.f.kids && c in p.f.kids && m in p.f.kids
    ensures Binned(p, h, c).f.kids.Keys == Binned(p, h, c).f.parent.Keys == p.f.kids.Keys
    ensures Binned(p, h, c).f.kids[m] == Without(p.f.kids[m], c) + if m == h then [c] else []
    ensures Binned(p, h, c).f.parent[m] == if m == c then Some(h) else p.f.parent[m]
  {
    AppendChildAt(p.f, h, c, m);
  }

  lemma BinnedDeletable<T>(p: Cascade<T>, users: seq<seq<T>>, h: T, c: T)
    requires Rested(p) && h in p.f.kids && c in p.f.kids && !Under(p.f.parent, h, c) && Rested(Binned(p, h, c))
    requires Deletable(p.f, users, c) && Deletable(p.f, users, h)
    ensures Deletable(Binned(p, h, c).f, users, c) && Deletable(Binned(p, h, c).f, users, h)
  {
    AppendChildLinked(p.f, h, c);
    forall i, j | 0 <= i < |users| && 0 <= j < |users[i]| && users[i][j] in p.f.kids
      ensures !Under(Binned(p, h, c).f.parent, users[i][j], c) && !Under(Binned(p, h, c).f.parent, users[i][j], h)
    {
      AppendUnder(p.f, h, c, users[i][j], c);
      AppendUnder(p.f, h, c, users[i][j], h);
    }
  }

  lemma OnlyOne<T>(q: Cascade<T>, t: T, h: T)
    requires WellPosed(q) && t in q.f.kids && q.f.kids[t] == [h] && h in q.kinds && q.kinds[h] == Trash
    requires Inner(q, h) == []
    ensures q.f.parent[h] == Some(t) && FirstBeside(q, h) == h
  {
    assert h in q.f.kids[t];
  }

  lemma CaughtInside<T>(p: Cascade<T>, t: T, h: T, c: T)
    requires Rested(p) && t in p.f.kids && p.f.kids[t] == [c, h] && c in p.f.kids && h in p.f.kids
    requires p.kinds[c] != Trash && Inner(p, h) == [] && Rested(Binned(p, h, c))
    ensures Binned(p, h, c).f.kids[t] == [h] && Inner(Binned(p, h, c), h) == [] && c in Binned(p, h, c).f.kids[h]
  {
    var q := Binned(p, h, c);
    BinnedAt(p, h, c, t);
    BinnedAt(p, h, c, h);
    assert h in p.f.kids[t];
    UnderStep(p.f.parent, h, h);
    ParentNotUnder(p.f.parent, h);
    forall x | x in q.f.kids[h] ensures x in q.kinds && q.kinds[x] != Trash {
      if x != c {
        WithoutIn(p.f.kids[h], c, x);
        NotInside(p, h, x);
      }
    }
    NoneOfKind(q.kinds, q.f.kids[h], Trash);
  }

  lemma OnlyTurn<T>(q: Cascade<T>, users: seq<seq<T>>, t: T, h: T)
    requires Rested(q) && t in q.f.kids && t != q.root && q.kinds[t] == Trash && q.f.kids[t] == [h]
    requires h in q.f.kids && Deletable(q.f, users, h)
    ensures h != q.root && AfterDelete(q, users, t) == AfterDelete(q, users, h)
  {
    FirstTurn(q, users, t);
    ReachesFirst(q, users, t);
    ReachesNext(q, users, t, 0, q);
    assert AfterTurns(q, users, t, 1) == AfterTurn(q, q, users, t, 0);
  }

  /** Content that is caught by an empty trash after it in the same trash is deleted all the same, when
      that trash has its turn. */
  lemma CaughtThenEmptied<T>(p: Cascade<T>, users: seq<seq<T>>, t: T, h: T, c: T)
    requires Rested(p) && t in p.f.kids && t != p.root && p.kinds[t] == Trash && p.f.kids[t] == [c, h]
    requires c in p.f.kids && p.kinds[c] != Trash && Deletable(p.f, users, c)
    requires h in p.f.kids && p.kinds[h] == Trash && Inner(p, h) == [] && Deletable(p.f, users, h)
    ensures c in AfterDelete(p, users, t).f.parent && AfterDelete(p, users, t).f.parent[c] == None
  {
    var q := Binned(p, h, c);
    CaughtBy(p, t, h, c);
    CaughtTurn(p, users, t, c);
    CaughtInside(p, t, h, c);
    RestAfterFirst(p, q, users, t);
    BinnedDeletable(p, users, h, c);
    OnlyTurn(q, users, t, h);
    OnlyOne(q, t, h);
    DeletedExactly(q, users, h, c);
  }

  lemma CaughtBy<T>(p: Cascade<T>, t: T, h: T, c: T)
    requires WellPosed(p) && t in p.f.kids && p.f.kids[t] == [c, h] && c in p.kinds && p.kinds[c] != Trash
    requires h in p.kinds && p.kinds[h] == Trash
    ensures c != h && Inner(p, t) == [h] && !Under(p.f.parent, h, c)
  {
    assert c in p.f.kids[t] && h in p.f.kids[t];
    OfKindFirst(p.kinds, c, [h], Trash);
    OfKindFirst(p.kinds, h, [], Trash);
    assert [c] + [h] == [c, h] && [h] + [] == [h];
    SiblingsNotUnder(p.f.parent, h, c);
  }

  // ---------- an example ----------

  /** Two trashes side by side, with a folder in the second one. */
  ghost function SideBySide(): Cascade<int> {
    Cascade(
      Forest(
        map[0 := None, 1 := Some(0), 2 := Some(0), 3 := Some(2)],
        map[0 := [1, 2], 1 := [], 2 := [3], 3 := []], {}),
      0, map[0 := Folder, 1 := Trash, 2 := Trash, 3 := Folder], map[0 := None, 1 := None, 2 := None, 3 := None])
  }

  lemma SideBySideAcyclic()
    ensures Acyclic(SideBySide().f.parent)
  {
    var up := SideBySide().f.parent;
    forall n | n in up ensures Ends(up, n) { assert Grounded(up, n, 2); }
  }

  lemma SideBySideLinked()
    ensures Linked(SideBySide().f)
  {
    var f := SideBySide().f;
    forall m, c | m in f.kids && c in f.kids[m] ensures c in f.parent && f.parent[c] == Some(m) {
      assert m == 0 || m == 2;
    }
    assert Listed(f);
  }

  lemma SideBySideRested()
    ensures Rested(SideBySide())
  {
    SideBySideLinked();
    SideBySideAcyclic();
  }

  /** Emptying the second one deletes nothing: the folder is in the first one afterwards. */
  lemma SecondTrashKeeps()
    ensures Rested(SideBySide()) && AfterDelete(SideBySide(), [], 2).f.parent[3] == Some(1)
  {
    SideBySideRested();
    DeletedExactly(SideBySide(), [], 2, 3);
  }
}