/** When `delete` leaves stored references that refer to nothing stored. */
module Dangling {
  import opened Sequences
  import opened Chains
  import opened Forests
  import opened WriteBack
  import opened Reorders
  import opened Runs
  import opened Guards
  import opened Deletion
  import opened Endings
  import opened Trashes
  import opened Emptyings
  import opened Catchers

  /** Every stored reference refers to a stored node. */
  ghost predicate Anchored<T>(p: Cascade<T>)
    requires WellPosed(p)
  {
    forall r {:trigger Links(p)[r]} | r in Links(p) :: Rooted(p.f, p.root, Links(p)[r])
  }

  lemma StoredLinks<T>(p: Cascade<T>, w: World<T>)
    requires WellPosed(p) && w.kinds == p.kinds && w.stored == Rescan(p.f, p.root)
    ensures NoDangling(w, p.targets) <==> Anchored(p)
  {
    forall n ensures n in w.stored <==> n in p.f.kids && Rooted(p.f, p.root, n) {}
    forall r ensures r in Links(p) <==> r in w.stored && p.kinds[r] == Reference && p.targets[r].Some? {}
    if NoDangling(w, p.targets) {
      forall r | r in Links(p) ensures Rooted(p.f, p.root, Links(p)[r]) { assert Links(p)[r] in w.stored; }
    }
  }

  lemma AnchoredExactly<T>(p: Cascade<T>, w: World<T>)
    requires Stands(p, w)
    ensures WellPosed(p) && (NoDangling(w, p.targets) <==> Anchored(p))
  {
    StandsTree(p, w);
    StoredLinks(p, w);
  }

  /** No reference is new, and all of them refer to stored nodes. */
  ghost predicate Preserves<T>(p: Cascade<T>, q: Cascade<T>) {
    && WellPosed(p) && WellPosed(q) && q == p.(f := q.f) && Anchored(q)
    && forall r {:trigger r in Links(q)} | r in Links(q) :: r in Links(p)
  }

  // ---------- deletions and moves ----------

  lemma CutKept<T>(p: Cascade<T>, gone: set<T>)
    requires Rested(p) && Anchored(p) && Downward(p.f, gone) && Closed(p.f, Links(p), gone) && p.root !in gone
    ensures Preserves(p, Cut(p, gone))
  {
    CutFollows(p, gone, p.root);
    forall r | r in Links(Cut(p, gone))
      ensures r in Links(p) && Rooted(Cut(p, gone).f, p.root, Links(Cut(p, gone))[r])
    {
      CutLinks(p, gone, r);
      UnderStep(p.f.parent, r, r);
      assert r in Subtree(p.f.parent, r);
      CutOffUnder(p.f, gone, Links(p)[r], p.root);
    }
  }

  /** Nodes that are stored before and after are the same. */
  ghost predicate SameRooted<T>(p: Cascade<T>, q: Cascade<T>) {
    && WellPosed(p) && WellPosed(q) && q == p.(f := q.f) && q.f.kids.Keys == p.f.kids.Keys
    && forall n {:trigger Rooted(q.f, q.root, n)} | n in p.f.kids :: Rooted(q.f, q.root, n) <==> Rooted(p.f, p.root, n)
  }

  lemma SameKept<T>(p: Cascade<T>, q: Cascade<T>)
    requires SameRooted(p, q) && Anchored(p)
    ensures Preserves(p, q)
  {
    forall r | r in Links(q) ensures r in Links(p) && Rooted(q.f, q.root, Links(q)[r]) {
      assert Rooted(q.f, q.root, r);
    }
  }

  lemma BinnedRooted<T>(p: Cascade<T>, t: T, c: T)
    requires Rested(p) && t in p.f.kids && c in p.f.kids && Ready(p.f, p.root, t, c)
    requires Rooted(p.f, p.root, c) <==> Rooted(p.f, p.root, t)
    ensures SameRooted(p, Binned(p, t, c))
  {
    MoveFollows(p, t, c);
    forall n | n in p.f.kids ensures Rooted(Binned(p, t, c).f, p.root, n) <==> Rooted(p.f, p.root, n) {
      AppendRooted(p.f, p.root, t, c, n);
      if Under(p.f.parent, n, c) { RootedLikeTop(p.f, p.root, c, n); }
    }
  }

  lemma ContentKept<T>(p: Cascade<T>, users: seq<seq<T>>, c: T)
    requires Rested(p) && Anchored(p) && c in p.f.kids && c != p.root && p.kinds[c] != Trash
    ensures Preserves(p, AfterContent(p, users, c))
  {
    if Unguarded(p.f, p.kinds, c) {
      if Deletable(p.f, users, c) {
        SubtreeSpared(p, c);
        RootSpared(p, Subtree(p.f.parent, c));
        ClosureCloses(p.f, Links(p), Subtree(p.f.parent, c));
        CutKept(p, Closure(p.f, Links(p), Subtree(p.f.parent, c)));
      }
    } else {
      TrashReady(p.f, p.kinds, p.root, c);
      BinnedRooted(p, TrashFor(p.f, p.kinds, c).value, c);
      SameKept(p, Binned(p, TrashFor(p.f, p.kinds, c).value, c));
    }
  }

  lemma LeafCut<T>(p: Cascade<T>, c: T, r: T)
    requires Rested(p) && c in p.f.kids && c != p.root && p.f.kids[c] == [] && p.kinds[c] != Reference
    ensures WellPosed(Cut(p, {c})) && (r in Links(Cut(p, {c})) <==> r in Links(p))
    ensures r in Links(p) ==> Links(Cut(p, {c}))[r] == Links(p)[r]
    ensures r in p.f.kids ==> (Rooted(Cut(p, {c}).f, p.root, r) <==> Rooted(p.f, p.root, r) && r != c)
  {
    LeafSubtree(p.f, c);
    SubtreeSpared(p, c);
    CutLinks(p, {c}, r);
    if r in p.f.kids { CutOffUnder(p.f, {c}, r, p.root); }
  }

  lemma LeafCutAnchored<T>(p: Cascade<T>, c: T)
    requires Rested(p) && Anchored(p) && c in p.f.kids && c != p.root && p.f.kids[c] == [] && p.kinds[c] != Reference
    ensures WellPosed(Cut(p, {c})) && (Anchored(Cut(p, {c})) <==> forall r | r in Links(p) :: Links(p)[r] != c)
  {
    LeafCut(p, c, c);
    forall r | r in Links(p) ensures r in Links(Cut(p, {c})) && Links(Cut(p, {c}))[r] == Links(p)[r]
      ensures Rooted(Cut(p, {c}).f, p.root, Links(p)[r]) <==> Links(p)[r] != c
    {
      LeafCut(p, c, r);
      LeafCut(p, c, Links(p)[r]);
    }
    forall r | r in Links(Cut(p, {c})) ensures r in Links(p) { LeafCut(p, c, r); }
  }

  /** An empty trash is deleted as it is: what dangles then is exactly what referred to it. */
  lemma EmptyTrashKept<T>(p: Cascade<T>, users: seq<seq<T>>, c: T)
    requires Rested(p) && Anchored(p) && c in p.f.kids && c != p.root && p.kinds[c] == Trash && p.f.kids[c] == []
    ensures Anchored(AfterDelete(p, users, c)) <==> forall r | r in Links(p) :: Links(p)[r] != c
    ensures Anchored(AfterDelete(p, users, c)) ==> Preserves(p, AfterDelete(p, users, c))
  {
    EmptyDeleted(p, users, c);
    LeafCutAnchored(p, c);
    forall r | r in Links(Cut(p, {c})) ensures r in Links(p) { LeafCut(p, c, r); }
  }

  /** An empty trash and a reference to it, both below the root. */
  ghost function Pointed(): Cascade<int> {
    Mutual().(kinds := map[0 := Folder, 1 := Trash, 2 := Reference], targets := map[0 := None, 1 := None, 2 := Some(1)])
  }

  lemma PointedRested()
    ensures Rested(Pointed()) && forall n | n in Pointed().f.kids :: Rooted(Pointed().f, 0, n)
  {
    var up := Pointed().f.parent;
    MutualForest();
    UnderStep(up, 0, 0);
    UnderStep(up, 1, 0);
    UnderStep(up, 2, 0);
  }

  lemma PointedAnchored()
    ensures Rested(Pointed()) && Anchored(Pointed())
  {
    PointedRested();
    forall r | r in Links(Pointed()) ensures Rooted(Pointed().f, 0, Links(Pointed())[r]) {}
  }

  lemma PointedLink()
    ensures Rested(Pointed()) && 2 in Links(Pointed()) && Links(Pointed())[2] == 1
  {
    PointedRested();
  }

  /** Deleting that trash leaves the reference dangling. */
  lemma PointedDangles()
    ensures Rested(Pointed()) && Anchored(Pointed()) && !Anchored(AfterDelete(Pointed(), [], 1))
  {
    PointedAnchored();
    PointedLink();
    EmptyTrashKept(Pointed(), [], 1);
  }

  // ---------- trashes without trashes inside ----------

  lemma AloneAnchored<T>(p: Cascade<T>, users: seq<seq<T>>, t: T)
    requires Rested(p) && Anchored(p) && Alone(p, t)
    ensures Preserves(p, AfterTurns(p, users, t, |p.f.kids[t]|))
  {
    var kids := p.f.kids[t];
    var stages := StagesOf(p, users, kids);
    StageHalfway(p, users, t, stages, |kids|);
    StageIs(p, users, kids, stages, |kids|);
    CutKept(p, stages[|kids|]);
    AloneEmptied(p, users, t, |kids|);
  }

  lemma {:induction false} ShiftedRooted<T>(p: Cascade<T>, t: T, h: T, cs: seq<T>, v: Cascade<T>, m: T)
    requires Shifted(p, t, h, cs, v) && m in p.f.kids
    ensures m in v.f.kids && (Rooted(v.f, p.root, m) <==> Rooted(p.f, p.root, m))
    decreases Depth(v.f.parent, m)
  {
    ShiftedAt(p, t, h, cs, v, m);
    UnderStep(v.f.parent, m, p.root);
    UnderStep(p.f.parent, m, p.root);
    if m in cs {
      DepthOfParent(v.f.parent, m);
      ShiftedRooted(p, t, h, cs, v, h);
      UnderStep(p.f.parent, h, p.root);
      UnderStep(p.f.parent, t, p.root);
    } else if p.f.parent[m].Some? {
      DepthOfParent(v.f.parent, m);
      ShiftedRooted(p, t, h, cs, v, p.f.parent[m].value);
    }
  }

  lemma BehindAnchored<T>(p: Cascade<T>, users: seq<seq<T>>, t: T)
    requires Rested(p) && Anchored(p) && Behind(p, t)
    ensures Preserves(p, AfterTurns(p, users, t, |p.f.kids[t]|))
  {
    var v, cs := AfterTurns(p, users, t, |p.f.kids[t]|), Chosen(p.f, users, p.f.kids[t], |p.f.kids[t]|);
    BehindEmptied(p, users, t, |p.f.kids[t]|);
    forall m | m in p.f.kids ensures Rooted(v.f, p.root, m) <==> Rooted(p.f, p.root, m) {
      ShiftedRooted(p, t, FirstBeside(p, t), cs, v, m);
    }
    SameKept(p, v);
  }

  /** `delete` of content, or of a trash with no trash in it, leaves no stored reference to a node that is
      not stored if there was none before, with one exception: an empty trash is deleted without a look at
      the references to it. */
  lemma DeleteNoDangling<T>(p: Cascade<T>, w: World<T>, users: seq<seq<T>>, c: T, v: World<T>)
    requires Stands(p, w) && c in p.f.kids && c != p.root && NoDangling(w, p.targets)
    requires p.kinds[c] == Trash ==> Inner(p, c) == []
    requires Stands(AfterDelete(p, users, c), v)
    ensures NoDangling(v, p.targets) <==>
      !(p.kinds[c] == Trash && p.f.kids[c] == [] && exists r :: r in Links(p) && Links(p)[r] == c)
  {
    AnchoredExactly(p, w);
    AnchoredExactly(AfterDelete(p, users, c), v);
    if p.kinds[c] != Trash {
      ContentKept(p, users, c);
    } else if p.f.kids[c] == [] {
      EmptyTrashKept(p, users, c);
    } else if FirstBeside(p, c) == c {
      AloneAnchored(p, users, c);
    } else {
      BehindAnchored(p, users, c);
    }
  }

  // ---------- trashes of every kind ----------

  /** No stored reference refers to a trash at or below `c`. */
  ghost predicate Unpointed<T>(p: Cascade<T>, c: T) {
    WellPosed(p) && forall r {:trigger Links(p)[r]} | r in Links(p) && p.kinds[Links(p)[r]] == Trash ::
      Links(p)[r] !in Subtree(p.f.parent, c)
  }

  lemma PreservesTwice<T>(p: Cascade<T>, v: Cascade<T>, q: Cascade<T>)
    requires Preserves(p, v) && Preserves(v, q)
    ensures Preserves(p, q)
  {}

  lemma UnpointedLower<T>(p: Cascade<T>, v: Cascade<T>, t: T, c: T)
    requires Unpointed(p, t) && Preserves(p, v) && Subtree(v.f.parent, c) <= Subtree(p.f.parent, t)
    ensures Unpointed(v, c)
  {
    forall r | r in Links(v) && v.kinds[Links(v)[r]] == Trash ensures Links(v)[r] !in Subtree(v.f.parent, c) {
      assert r in Links(p) && Links(p)[r] == Links(v)[r];
    }
  }

  /** Whatever trashes are inside and beside one another: as long as no reference refers to a trash at or
      below the one that is deleted or emptied, none is left dangling. */
  lemma {:induction false} DeleteKept<T>(p: Cascade<T>, users: seq<seq<T>>, c: T)
    requires Rested(p) && Anchored(p) && c in p.f.kids && c != p.root && Unpointed(p, c)
    ensures Preserves(p, AfterDelete(p, users, c))
    decreases Subtree(p.f.parent, c), 2, 0
  {
    if p.kinds[c] != Trash {
      ContentKept(p, users, c);
    } else if p.f.kids[c] == [] {
      UnderStep(p.f.parent, c, c);
      EmptyTrashKept(p, users, c);
    } else {
      ReachesFirst(p, users, c);
      var v := TurnsKept(p, users, c, |p.f.kids[c]|);
      assert AfterTurns(p, users, c, |p.f.kids[c]|) == v;
    }
  }

  lemma {:induction false} TurnsKept<T>(p: Cascade<T>, users: seq<seq<T>>, t: T, i: nat) returns (v: Cascade<T>)
    requires Rested(p) && t in p.f.kids && i <= |p.f.kids[t]| && Going(p, users, t, 0, p)
    ensures Going(p, users, t, i, v)
    decreases Subtree(p.f.parent, t), 1, i
  {
    if i == 0 {
      v := p;
    } else {
      v := TurnsKept(p, users, t, i - 1);
      v := TurnKept(p, v, users, t, i - 1);
    }
  }

  /** After the first `i` turns no reference dangles. */
  ghost predicate Going<T>(p: Cascade<T>, users: seq<seq<T>>, t: T, i: nat, v: Cascade<T>) {
    Together(Reaches(p, users, t, i, v) && Preserves(p, v) && Unpointed(p, t))
  }

  lemma {:induction false} TurnKept<T>(p: Cascade<T>, v: Cascade<T>, users: seq<seq<T>>, t: T, i: nat)
    returns (q: Cascade<T>)
    requires Rested(p) && t in p.f.kids && i < |p.f.kids[t]| && Going(p, users, t, i, v)
    ensures Going(p, users, t, i + 1, q)
    decreases Subtree(p.f.parent, t), 0, 0
  {
    ReachesNext(p, users, t, i, v);
    TurnStarts(p, v, t, i);
    q := AfterTurn(p, v, users, t, i);
    var c := p.f.kids[t][i];
    if Due(v, users, c) {
      UnpointedLower(p, v, t, c);
      DeleteKept(v, users, c);
      PreservesTwice(p, v, q);
    }
  }

  /** An example that the condition is needed: a trash with nothing but an empty trash in it, and a
      reference to that one. */
  lemma InnerTrashDangles<T>(p: Cascade<T>, users: seq<seq<T>>, t: T, h: T)
    requires Rested(p) && Anchored(p) && t in p.f.kids && t != p.root && p.kinds[t] == Trash && p.f.kids[t] == [h]
    requires h in p.f.kids && p.kinds[h] == Trash && p.f.kids[h] == [] && Deletable(p.f, users, h)
    ensures Anchored(AfterDelete(p, users, t)) <==> forall r | r in Links(p) :: Links(p)[r] != h
  {
    OnlyTurn(p, users, t, h);
    EmptyTrashKept(p, users, h);
  }
}
