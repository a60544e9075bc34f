/** What `delete` does with content, told of the tree alone: who is above whom, and which children are
    trashes. */
module Verdicts {
  import opened Sequences
  import opened Chains
  import opened Forests
  import opened Reorders
  import opened WriteBack
  import opened Runs
  import opened Guards
  import opened Deletion
  import opened Endings
  import opened Trashes
  import opened Emptyings

  // ---------- the first level upwards ----------

  /** `q` is the first node, from `a` upwards, that has a child of the kind. */
  ghost predicate FirstLevel<T>(f: Forest<T>, kinds: map<T, Kind>, k: Kind, a: T, q: T)
    requires Kinded(f, kinds)
  {
    && a in f.kids && q in f.kids && Under(f.parent, a, q) && (exists x :: x in f.kids[q] && kinds[x] == k)
    && forall m, x | m in f.kids && Under(f.parent, a, m) && Under(f.parent, m, q) && m != q && x in f.kids[m] ::
         kinds[x] != k
  }

  /** No node from `a` upwards has a child of the kind. */
  ghost predicate NoLevel<T>(f: Forest<T>, kinds: map<T, Kind>, k: Kind, a: T)
    requires Kinded(f, kinds) && a in f.kids
  {
    forall m, x | m in f.kids && Under(f.parent, a, m) && x in f.kids[m] :: kinds[x] != k
  }

  /** `t` is the first child of `q` of the kind. */
  ghost predicate FirstChild<T>(f: Forest<T>, kinds: map<T, Kind>, k: Kind, q: T, t: T)
    requires Kinded(f, kinds) && q in f.kids
  {
    exists i: nat :: i < |f.kids[q]| && f.kids[q][i] == t && FirstAt(kinds, f.kids[q], k, i)
  }

  ghost predicate FirstAt<T>(kinds: map<T, Kind>, s: seq<T>, k: Kind, i: nat)
    requires i < |s|
  {
    s[i] in kinds && kinds[s[i]] == k && forall j | 0 <= j < i :: s[j] in kinds && kinds[s[j]] != k
  }

  lemma {:induction false} OfKindHead<T>(kinds: map<T, Kind>, s: seq<T>, k: Kind, i: nat)
    requires (forall x | x in s :: x in kinds) && i < |s| && FirstAt(kinds, s, k, i)
    ensures OfKind(kinds, s, k) != [] && OfKind(kinds, s, k)[0] == s[i]
  {
    if i > 0 {
      assert forall j | 0 <= j < i - 1 :: s[1..][j] == s[j + 1];
      OfKindHead(kinds, s[1..], k, i - 1);
    }
  }

  lemma NoKids<T>(f: Forest<T>, kinds: map<T, Kind>, k: Kind, m: T)
    requires Kinded(f, kinds) && m in f.kids && forall x | x in f.kids[m] :: kinds[x] != k
    ensures KidsOfKind(f, kinds, m, k) == []
  {
    NoneOfKind(kinds, f.kids[m], k);
  }

  lemma {:induction false} UpwardFinds<T>(f: Forest<T>, kinds: map<T, Kind>, k: Kind, a: T, q: T)
    requires Kinded(f, kinds) && FirstLevel(f, kinds, k, a, q)
    ensures UpwardGuards(f, kinds, a, k) == Some(KidsOfKind(f, kinds, q, k))
    decreases Depth(f.parent, a)
  {
    UnderStep(f.parent, a, q);
    UnderStep(f.parent, a, a);
    if a == q {
      var x :| x in f.kids[q] && kinds[x] == k;
      assert x in KidsOfKind(f, kinds, q, k);
    } else {
      var b := f.parent[a].value;
      DepthOfParent(f.parent, a);
      NoKids(f, kinds, k, a);
      forall m | m in f.kids && Under(f.parent, b, m) ensures Under(f.parent, a, m) { UnderStep(f.parent, a, m); }
      UpwardFinds(f, kinds, k, b, q);
    }
  }

  lemma {:induction false} UpwardFindsNone<T>(f: Forest<T>, kinds: map<T, Kind>, k: Kind, a: T)
    requires Kinded(f, kinds) && a in f.kids && NoLevel(f, kinds, k, a)
    ensures UpwardGuards(f, kinds, a, k) == None
    decreases Depth(f.parent, a)
  {
    UnderStep(f.parent, a, a);
    NoKids(f, kinds, k, a);
    if f.parent[a].Some? {
      var b := f.parent[a].value;
      DepthOfParent(f.parent, a);
      forall m | m in f.kids && Under(f.parent, b, m) ensures Under(f.parent, a, m) { UnderStep(f.parent, a, m); }
      UpwardFindsNone(f, kinds, k, b);
    }
  }

  lemma FirstIsHead<T>(f: Forest<T>, kinds: map<T, Kind>, k: Kind, q: T, t: T)
    requires Kinded(f, kinds) && q in f.kids && FirstChild(f, kinds, k, q, t)
    ensures KidsOfKind(f, kinds, q, k) != [] && KidsOfKind(f, kinds, q, k)[0] == t
    ensures t in f.kids && f.parent[t] == Some(q) && kinds[t] == k
  {
    var i: nat :| i < |f.kids[q]| && f.kids[q][i] == t && FirstAt(kinds, f.kids[q], k, i);
    assert t in f.kids[q];
    OfKindHead(kinds, f.kids[q], k, i);
  }

  // ---------- content that a trash guards ----------

  /** The first trash found from the parent of the content upwards. */
  ghost predicate GuardedBy<T>(p: Cascade<T>, c: T, q: T, t: T) {
    && WellPosed(p) && c in p.f.kids && p.f.parent[c].Some?
    && FirstLevel(p.f, p.kinds, Trash, p.f.parent[c].value, q) && FirstChild(p.f, p.kinds, Trash, q, t)
  }

  /** No trash is a child of a node above the content. */
  ghost predicate NoTrashAbove<T>(p: Cascade<T>, c: T) {
    && WellPosed(p) && c in p.f.kids
    && (p.f.parent[c].Some? ==>
          p.f.parent[c].value in p.f.kids && NoLevel(p.f, p.kinds, Trash, p.f.parent[c].value))
  }

  lemma GuardedTrash<T>(p: Cascade<T>, c: T, q: T, t: T)
    requires GuardedBy(p, c, q, t)
    ensures t in p.f.kids && TrashFor(p.f, p.kinds, c) == Some(t)
  {
    UpwardFinds(p.f, p.kinds, Trash, p.f.parent[c].value, q);
    FirstIsHead(p.f, p.kinds, Trash, q, t);
  }

  /** Content that is no trash is moved by `delete` if the first trash found upwards does not have it
      inside: it becomes the last child of that trash, and nothing else is different. */
  lemma GuardedMoves<T>(p: Cascade<T>, users: seq<seq<T>>, c: T, q: T, t: T)
    requires Rested(p) && c in p.f.kids && c != p.root && p.kinds[c] != Trash
    requires GuardedBy(p, c, q, t) && !Under(p.f.parent, c, t)
    ensures AfterDelete(p, users, c).f.parent == p.f.parent[c := Some(t)]
    ensures AfterDelete(p, users, c).f.kids.Keys == p.f.kids.Keys && t in p.f.kids
    ensures AfterDelete(p, users, c).f.kids[t] == p.f.kids[t] + [c]
    ensures forall m | m in p.f.kids && m != t && Some(m) != p.f.parent[c] ::
      AfterDelete(p, users, c).f.kids[m] == p.f.kids[m]
    ensures p.f.parent[c].value in p.f.kids &&
      AfterDelete(p, users, c).f.kids[p.f.parent[c].value] == Minus(p.f.kids[p.f.parent[c].value], {c})
  {
    GuardedTrash(p, c, q, t);
    BinnedKids(p, c, t);
  }

  lemma BinnedKids<T>(p: Cascade<T>, c: T, t: T)
    requires Rested(p) && c in p.f.kids && t in p.f.kids && p.f.parent[c].Some? && !Under(p.f.parent, c, t)
    ensures var h := Binned(p, t, c).f;
      && h.parent == p.f.parent[c := Some(t)] && h.kids.Keys == p.f.kids.Keys && p.f.parent[c].value in p.f.kids
      && h.kids[t] == p.f.kids[t] + [c]
      && (forall m | m in p.f.kids && m != t && Some(m) != p.f.parent[c] :: h.kids[m] == p.f.kids[m])
      && h.kids[p.f.parent[c].value] == Minus(p.f.kids[p.f.parent[c].value], {c})
  {
    var a := p.f.parent[c].value;
    AppendChildLinked(p.f, t, c);
    UnderStep(p.f.parent, c, t);
    UnderStep(p.f.parent, a, a);
    forall m | m in p.f.kids
      ensures m in Binned(p, t, c).f.kids
      ensures Binned(p, t, c).f.kids[m] ==
        (if m == a then Minus(p.f.kids[m], {c}) else p.f.kids[m]) + if m == t then [c] else []
    {
      BinnedAtKid(p.f, t, c, m);
    }
  }

  lemma BinnedAtKid<T>(f: Forest<T>, t: T, c: T, m: T)
    requires WellFormed(f) && t in f.kids && c in f.kids && m in f.kids
    ensures m in AppendChild(f, t, c).kids && AppendChild(f, t, c).kids.Keys == f.kids.Keys
    ensures AppendChild(f, t, c).kids[m] ==
      (if f.parent[c] == Some(m) then Minus(f.kids[m], {c}) else f.kids[m]) + if m == t then [c] else []
  {
    AppendChildAt(f, t, c, m);
    if f.parent[c] == Some(m) {
      MinusOneMore(f.kids[m], {}, c);
      MinusNothing(f.kids[m], {});
      assert {} + {c} == {c};
    } else {
      assert c !in f.kids[m];
    }
  }

  // ---------- content that none guards ----------

  /** A root of a user is the content or below it. */
  ghost predicate RootInside<T>(p: Cascade<T>, users: seq<seq<T>>, c: T)
    requires WellPosed(p)
  {
    exists i, j ::
      && 0 <= i < |users| && 0 <= j < |users[i]|
      && users[i][j] in p.f.kids && Under(p.f.parent, users[i][j], c)
  }

  /** Content that is no trash, and that no trash guards or that is inside the trash that guards it, is left
      alone by `delete` if a user has a root inside; else it is taken apart with all that is below it, and
      with it exactly what must go with it under references. */
  lemma UnguardedGoes<T>(p: Cascade<T>, users: seq<seq<T>>, c: T)
    requires Rested(p) && c in p.f.kids && c != p.root && p.kinds[c] != Trash
    requires NoTrashAbove(p, c) || exists q, t :: GuardedBy(p, c, q, t) && Under(p.f.parent, c, t)
    ensures RootInside(p, users, c) ==> AfterDelete(p, users, c) == p
    ensures !RootInside(p, users, c) ==>
      && AfterDelete(p, users, c) == Cut(p, Closure(p.f, Links(p), Subtree(p.f.parent, c)))
      && forall m | m in Subtree(p.f.parent, c) ::
           AfterDelete(p, users, c).f.parent[m] == None && AfterDelete(p, users, c).f.kids[m] == []
  {
    if q, t :| GuardedBy(p, c, q, t) && Under(p.f.parent, c, t) {
      GuardedTrash(p, c, q, t);
    } else if p.f.parent[c].Some? {
      UpwardFindsNone(p.f, p.kinds, Trash, p.f.parent[c].value);
    }
    assert Unguarded(p.f, p.kinds, c);
    assert Deletable(p.f, users, c) <==> !RootInside(p, users, c);
    ClosureCloses(p.f, Links(p), Subtree(p.f.parent, c));
  }

  /** One of the two applies to all content. */
  lemma GuardedOrNot<T>(p: Cascade<T>, c: T)
    requires WellPosed(p) && c in p.f.kids
    ensures NoTrashAbove(p, c) || exists q, t :: GuardedBy(p, c, q, t)
  {
    if p.f.parent[c].Some? {
      DepthOfParent(p.f.parent, c);
      var a := p.f.parent[c].value;
      if !NoLevel(p.f, p.kinds, Trash, a) {
        var q := SomeLevel(p.f, p.kinds, Trash, a);
        var t := SomeFirst(p.f, p.kinds, Trash, q);
        assert GuardedBy(p, c, q, t);
      }
    }
  }

  lemma {:induction false} SomeLevel<T>(f: Forest<T>, kinds: map<T, Kind>, k: Kind, a: T) returns (q: T)
    requires Kinded(f, kinds) && a in f.kids && !NoLevel(f, kinds, k, a)
    ensures FirstLevel(f, kinds, k, a, q)
    decreases Depth(f.parent, a)
  {
    UnderStep(f.parent, a, a);
    if exists x :: x in f.kids[a] && kinds[x] == k {
      q := a;
      forall m | m in f.kids && Under(f.parent, a, m) && Under(f.parent, m, a) ensures m == a {
        UnderIsDeeper(f.parent, a, m);
        UnderIsDeeper(f.parent, m, a);
      }
    } else {
      var m, x :| m in f.kids && Under(f.parent, a, m) && x in f.kids[m] && kinds[x] == k;
      UnderStep(f.parent, a, m);
      DepthOfParent(f.parent, a);
      q := SomeLevel(f, kinds, k, f.parent[a].value);
      UnderStep(f.parent, a, q);
      forall n | n in f.kids && Under(f.parent, a, n) && n != a ensures Under(f.parent, f.parent[a].value, n) {
        UnderStep(f.parent, a, n);
      }
    }
  }

  lemma SomeFirst<T>(f: Forest<T>, kinds: map<T, Kind>, k: Kind, q: T) returns (t: T)
    requires Kinded(f, kinds) && q in f.kids && exists x :: x in f.kids[q] && kinds[x] == k
    ensures FirstChild(f, kinds, k, q, t)
  {
    var kids := f.kids[q];
    forall x | x in kids ensures x in kinds {}
    var x :| x in kids && kinds[x] == k;
    var n :| 0 <= n < |kids| && kids[n] == x;
    var i := Earliest(kinds, kids, k, n);
    t := kids[i];
  }

  lemma {:induction false} Earliest<T>(kinds: map<T, Kind>, s: seq<T>, k: Kind, n: nat) returns (i: nat)
    requires (forall x | x in s :: x in kinds) && n < |s| && kinds[s[n]] == k
    ensures i <= n && FirstAt(kinds, s, k, i)
  {
    if j: nat :| j < n && kinds[s[j]] == k {
      i := Earliest(kinds, s, k, j);
    } else {
      i := n;
    }
  }

  // ---------- an example ----------

  /** A trash and a folder next to it. */
  ghost function Beside(): Cascade<int> {
    Mutual().(kinds := map[0 := Folder, 1 := Trash, 2 := Folder], targets := map[0 := None, 1 := None, 2 := None])
  }

  lemma BesideRested()
    ensures Rested(Beside())
  {
    MutualForest();
  }

  lemma BesideGuarded()
    ensures GuardedBy(Beside(), 2, 0, 1) && !Under(Beside().f.parent, 2, 1)
  {
    var p := Beside();
    MutualForest();
    UnderStep(p.f.parent, 0, 0);
    UnderStep(p.f.parent, 2, 1);
    UnderStep(p.f.parent, 0, 1);
    assert FirstAt(p.kinds, p.f.kids[0], Trash, 0);
    forall m | m in p.f.kids && Under(p.f.parent, 0, m) ensures m == 0 { UnderStep(p.f.parent, 0, m); }
    assert 1 in p.f.kids[0];
  }

  /** Deleting the folder moves it into the trash. */
  lemma FolderMoves()
    ensures Rested(Beside()) && AfterDelete(Beside(), [], 2).f.parent[2] == Some(1)
    ensures 1 in AfterDelete(Beside(), [], 2).f.kids && AfterDelete(Beside(), [], 2).f.kids[1] == [2]
  {
    BesideRested();
    BesideGuarded();
    GuardedMoves(Beside(), [], 2, 0, 1);
  }

  // ---------- access guards ----------

  /** The nodes of one kind are what is left without the others, in order. */
  lemma {:induction false} OfKindIs<T>(kinds: map<T, Kind>, s: seq<T>, k: Kind, others: set<T>)
    requires forall x | x in s :: x in kinds && (x in others <==> kinds[x] != k)
    ensures OfKind(kinds, s, k) == Minus(s, others)
  {
    if s != [] { OfKindIs(kinds, s[1..], k, others); }
  }

  lemma {:induction false} ReferredExactly<T>(g: Gate<T>, refs: seq<T>, x: T)
    requires GateTyped(g) && forall r | r in refs :: r in g.kinds
    ensures x in Referred(g, refs) <==> exists r :: r in refs && g.targets[r] == Some(x) && g.kinds[x] == Access
  {
    if refs != [] { ReferredExactly(g, refs[1..], x); }
  }

  /** The guards selected for a node, active or not, are the access objects of the first level upwards that
      has any. */
  lemma SelectedDirectly<T>(g: Gate<T>, n: T, q: T)
    requires GateTyped(g) && n in g.kinds && FirstLevel(g.tree, g.kinds, Access, n, q)
    ensures Selected(g, n) == KidsOfKind(g.tree, g.kinds, q, Access)
  {
    UpwardFinds(g.tree, g.kinds, Access, n, q);
  }

  /** Without such a level they are the access objects that the references of the first level with references
      refer to. */
  lemma SelectedByReference<T>(g: Gate<T>, n: T, q: T, x: T)
    requires GateTyped(g) && n in g.kinds
    requires NoLevel(g.tree, g.kinds, Access, n) && FirstLevel(g.tree, g.kinds, Reference, n, q)
    ensures x in Selected(g, n) <==>
      exists r :: r in g.tree.kids[q] && g.kinds[r] == Reference && g.targets[r] == Some(x) && g.kinds[x] == Access
  {
    UpwardFindsNone(g.tree, g.kinds, Access, n);
    UpwardFinds(g.tree, g.kinds, Reference, n, q);
    ReferredExactly(g, KidsOfKind(g.tree, g.kinds, q, Reference), x);
    assert forall r :: r in OfKind(g.kinds, g.tree.kids[q], Reference) <==>
      r in g.tree.kids[q] && g.kinds[r] == Reference;
  }

  /** Without any such level there are none. */
  lemma NoneSelected<T>(g: Gate<T>, n: T)
    requires GateTyped(g) && n in g.kinds
    requires NoLevel(g.tree, g.kinds, Access, n) && NoLevel(g.tree, g.kinds, Reference, n)
    ensures Selected(g, n) == []
  {
    UpwardFindsNone(g.tree, g.kinds, Access, n);
    UpwardFindsNone(g.tree, g.kinds, Reference, n);
  }

  /** The guards of a node: the active ones among those selected for the first node upwards that has an active
      one among them; if there is no such node, none. */
  lemma {:induction false} GuardsExactly<T>(g: Gate<T>, n: T, m: T)
    requires GateTyped(g) && n in g.kinds
    ensures (forall x | x in g.kinds && Under(g.tree.parent, n, x) :: Active(Selected(g, x), g.guarding) == []) ==>
      AccessGuards(g, n) == None
    ensures
      && m in g.kinds && Under(g.tree.parent, n, m) && Active(Selected(g, m), g.guarding) != []
      && (forall x | x in g.kinds && Under(g.tree.parent, n, x) && Under(g.tree.parent, x, m) && x != m ::
            Active(Selected(g, x), g.guarding) == [])
      ==> AccessGuards(g, n) == Some(Active(Selected(g, m), g.guarding))
    decreases Depth(g.tree.parent, n)
  {
    var up := g.tree.parent;
    UnderStep(up, n, n);
    UnderStep(up, n, m);
    if up[n].Some? && n != m {
      DepthOfParent(up, n);
      forall x | x in g.kinds && Under(up, up[n].value, x) ensures Under(up, n, x) { UnderStep(up, n, x); }
      GuardsExactly(g, up[n].value, m);
    } else if up[n].Some? {
      DepthOfParent(up, n);
      forall x | x in g.kinds && Under(up, up[n].value, x) ensures Under(up, n, x) { UnderStep(up, n, x); }
      GuardsExactly(g, up[n].value, up[n].value);
    }
  }
}
