/** Writing only the changed nodes back to the database, and when that is the same as writing
    the whole tree anew. */
module WriteBack {
  import opened Sequences
  import opened Chains
  import opened Forests
  import opened Reorders

  /** What the database holds of one node. */
  datatype Row<T> = Row(parent: Option<T>, kids: seq<T>)

  /** The root is there and on top, and the forest around it is well formed. */
  ghost predicate Sound<T>(f: Forest<T>, root: T) {
    WellFormed(f) && root in f.kids && f.parent[root].None?
  }

  /** `n` is the root or has it among its parents. */
  ghost predicate Rooted<T>(f: Forest<T>, root: T, n: T)
    requires WellFormed(f) && n in f.kids
  {
    Under(f.parent, n, root)
  }

  /** The database after a scan of the whole tree: one up-to-date row for each rooted node. */
  ghost function Rescan<T>(f: Forest<T>, root: T): map<T, Row<T>>
    requires WellFormed(f)
  {
    map n | n in f.kids && Rooted(f, root, n) :: Row(f.parent[n], f.kids[n])
  }

  /** The database after the changed nodes in `done` were saved if rooted and deleted if not. */
  ghost function Flush<T>(f: Forest<T>, root: T, stored: map<T, Row<T>>, done: set<T>): map<T, Row<T>>
    requires WellFormed(f) && done <= f.kids.Keys
  {
    map n | n in stored.Keys + done && (n in done ==> Rooted(f, root, n)) ::
      if n in done then Row(f.parent[n], f.kids[n]) else stored[n]
  }

  /** Whatever the database has wrong is about a node that is marked as changed. */
  ghost predicate Tracked<T>(f: Forest<T>, root: T, stored: map<T, Row<T>>)
    requires WellFormed(f)
  {
    && stored.Keys <= f.kids.Keys
    && forall n | n in f.kids && n !in f.changed ::
         && (n in stored <==> Rooted(f, root, n))
         && (n in stored ==> stored[n] == Row(f.parent[n], f.kids[n]))
  }

  /** Visiting the changed nodes alone gives what a scan of the whole tree gives, exactly when the
      marks cover everything the database has wrong. */
  lemma FlushIsRescan<T>(f: Forest<T>, root: T, stored: map<T, Row<T>>)
    requires WellFormed(f) && stored.Keys <= f.kids.Keys
    ensures Flush(f, root, stored, f.changed) == Rescan(f, root) <==> Tracked(f, root, stored)
    ensures Tracked(f.(changed := {}), root, Rescan(f, root))
  {
    var a, b := Flush(f, root, stored, f.changed), Rescan(f, root);
    if Tracked(f, root, stored) {
      assert a.Keys == b.Keys;
      assert a == b;
    } else if a == b {
      forall n | n in f.kids && n !in f.changed
        ensures (n in stored <==> Rooted(f, root, n)) && (n in stored ==> stored[n] == Row(f.parent[n], f.kids[n]))
      {
        assert n in a <==> n in stored;
        assert n in b <==> Rooted(f, root, n);
        if n in stored { assert a[n] == b[n]; }
      }
      assert false;
    }
  }

  lemma ClearedWellFormed<T>(f: Forest<T>)
    requires WellFormed(f)
    ensures WellFormed(f.(changed := {}))
  {}

  lemma FlushNone<T>(f: Forest<T>, root: T, stored: map<T, Row<T>>)
    requires WellFormed(f)
    ensures Flush(f, root, stored, {}) == stored
  {}

  /** One turn of the loop over the changed nodes, in whatever order they come. */
  lemma FlushOneMore<T>(f: Forest<T>, root: T, stored: map<T, Row<T>>, done: set<T>, n: T)
    requires WellFormed(f) && done <= f.kids.Keys && n in f.kids
    ensures var part := Flush(f, root, stored, done);
      Flush(f, root, stored, done + {n}) ==
        if Rooted(f, root, n) then part[n := Row(f.parent[n], f.kids[n])] else part - {n}
  {}

  // ---------- appending ----------

  /** `c` may go below `p` without the marks losing track: it is not the root, `p` is not inside
      it, and either it stays rooted (or stays unrooted), or all that is inside it is marked. */
  ghost predicate Ready<T>(f: Forest<T>, root: T, p: T, c: T)
    requires WellFormed(f) && p in f.kids && c in f.kids
  {
    && c != root
    && !Under(f.parent, p, c)
    && ((Rooted(f, root, c) <==> Rooted(f, root, p)) || Subtree(f.parent, c) - {c} <= f.changed)
  }

  lemma RootedLikeTop<T>(f: Forest<T>, root: T, c: T, n: T)
    requires Sound(f, root) && c in f.kids && c != root && n in f.kids && Under(f.parent, n, c)
    ensures !Under(f.parent, root, c)
    ensures Rooted(f, root, n) <==> Rooted(f, root, c)
  {
    UnderStep(f.parent, root, c);
    if Rooted(f, root, n) {
      AncestorsComparable(f.parent, n, c, root);
    } else if Rooted(f, root, c) {
      UnderTransitive(f.parent, n, c, root);
    }
  }

  /** After an append, what was inside the appended node is rooted just if the target is, and all
      other nodes are as before. */
  lemma AppendRooted<T>(f: Forest<T>, root: T, p: T, c: T, n: T)
    requires Sound(f, root) && p in f.kids && c in f.kids && c != root && !Under(f.parent, p, c) && n in f.kids
    ensures Sound(AppendChild(f, p, c), root) && n in AppendChild(f, p, c).kids
    ensures Rooted(AppendChild(f, p, c), root, n) <==>
      if Under(f.parent, n, c) then Rooted(f, root, p) else Rooted(f, root, n)
  {
    AppendChildLinked(f, p, c);
    AppendChildWellFormed(f, p, c);
    AppendUnder(f, p, c, n, root);
    AppendChildAt(f, p, c, root);
    UnderStep(f.parent, root, c);
  }

  lemma AppendMarks<T>(f: Forest<T>, p: T, c: T, n: T)
    requires WellFormed(f) && p in f.kids && c in f.kids && n in f.kids && !Under(f.parent, p, c)
    ensures n in AppendChild(f, p, c).changed <==> n in f.changed || n == p || n == c || f.parent[c] == Some(n)
    ensures n in AppendChild(f, p, c).kids && n in AppendChild(f, p, c).parent
    ensures n !in AppendChild(f, p, c).changed ==>
      AppendChild(f, p, c).kids[n] == f.kids[n] && AppendChild(f, p, c).parent[n] == f.parent[n]
    ensures Under(f.parent, n, c) && n != c ==> (n in AppendChild(f, p, c).changed <==> n in f.changed)
  {
    AppendChildAt(f, p, c, n);
    if f.parent[c] != Some(n) { assert c !in f.kids[n]; }
    if f.parent[c] == Some(n) { ParentNotUnder(f.parent, c); }
  }

  /** Exactly when the appended node is ready do the marks still cover everything afterwards. */
  lemma AppendTracked<T>(f: Forest<T>, root: T, stored: map<T, Row<T>>, p: T, c: T)
    requires Sound(f, root) && p in f.kids && c in f.kids && c != root && !Under(f.parent, p, c)
    requires Tracked(f, root, stored)
    ensures Sound(AppendChild(f, p, c), root)
    ensures Tracked(AppendChild(f, p, c), root, stored) <==> Ready(f, root, p, c)
  {
    var h := AppendChild(f, p, c);
    AppendRooted(f, root, p, c, c);
    if Ready(f, root, p, c) {
      forall n | n in h.kids && n !in h.changed
        ensures (n in stored <==> Rooted(h, root, n)) && (n in stored ==> stored[n] == Row(h.parent[n], h.kids[n]))
      {
        AppendMarks(f, p, c, n);
        AppendRooted(f, root, p, c, n);
        if Under(f.parent, n, c) { RootedLikeTop(f, root, c, n); }
      }
    } else {
      var n :| n in Subtree(f.parent, c) - {c} && n !in f.changed;
      AppendMarks(f, p, c, n);
      AppendRooted(f, root, p, c, n);
      RootedLikeTop(f, root, c, n);
    }
  }

  /** Readiness can be checked for all children up front: no append changes the parents of the
      target, so none spoils the readiness of the next. */
  lemma ReadyPersists<T>(f: Forest<T>, root: T, p: T, c: T, d: T)
    requires Sound(f, root) && p in f.kids && c in f.kids && d in f.kids
    requires Ready(f, root, p, c) && Ready(f, root, p, d)
    ensures Sound(AppendChild(f, p, c), root) && AppendChild(f, p, c).kids.Keys == f.kids.Keys
    ensures Ready(AppendChild(f, p, c), root, p, d)
  {
    var h := AppendChild(f, p, c);
    AppendChildAt(f, p, c, p);
    AppendChildLinked(f, p, c);
    AppendRooted(f, root, p, c, d);
    AppendRooted(f, root, p, c, p);
    AppendUnder(f, p, c, p, d);
    forall n | n in Subtree(h.parent, d) ensures n in Subtree(f.parent, d) {
      AppendUnder(f, p, c, n, d);
    }
    AppendMarksGrow(f, p, c);
  }

  lemma AppendMarksGrow<T>(f: Forest<T>, p: T, c: T)
    requires Linked(f) && p in f.kids && c in f.kids
    ensures f.changed <= AppendChild(f, p, c).changed
  {}

  /** A node that is a child of the target already is always ready. */
  lemma KidReady<T>(f: Forest<T>, root: T, p: T, c: T)
    requires Sound(f, root) && p in f.kids && c in f.kids[p]
    ensures c in f.kids && Ready(f, root, p, c)
  {
    ParentNotUnder(f.parent, c);
    UnderStep(f.parent, c, root);
  }

  lemma {:induction false} AppendSeqTracked<T>(f: Forest<T>, root: T, stored: map<T, Row<T>>, p: T, cs: seq<T>, d: T)
    requires Sound(f, root) && Tracked(f, root, stored) && p in f.kids && d in f.kids
    requires forall c | c in cs :: c in f.kids && Ready(f, root, p, c)
    requires Ready(f, root, p, d)
    ensures Sound(AppendSeq(f, p, cs), root) && Tracked(AppendSeq(f, p, cs), root, stored)
    ensures Ready(AppendSeq(f, p, cs), root, p, d)
  {
    if cs != [] {
      var front, c := cs[..|cs| - 1], cs[|cs| - 1];
      assert c in cs;
      AppendSeqTracked(f, root, stored, p, front, c);
      AppendSeqTracked(f, root, stored, p, front, d);
      var g := AppendSeq(f, p, front);
      AppendTracked(g, root, stored, p, c);
      ReadyPersists(g, root, p, c, d);
    }
  }

  /** Bulk append: checking every new child against the forest before the first of them moves is
      enough for the whole list. */
  lemma AppendAllTracked<T>(f: Forest<T>, root: T, stored: map<T, Row<T>>, p: T, news: seq<T>)
    requires Sound(f, root) && Tracked(f, root, stored) && p in f.kids
    requires forall c | c in news :: c in f.kids && Ready(f, root, p, c)
    ensures forall c | c in Arrange(f.kids[p], news) :: c in f.kids
    ensures Sound(AppendSeq(f, p, Arrange(f.kids[p], news)), root)
    ensures Tracked(AppendSeq(f, p, Arrange(f.kids[p], news)), root, stored)
  {
    var cs := Arrange(f.kids[p], news);
    forall c | c in cs ensures c in f.kids && Ready(f, root, p, c) {
      if c in f.kids[p] { KidReady(f, root, p, c); }
    }
    if cs != [] {
      assert cs[0] in cs;
      AppendSeqTracked(f, root, stored, p, cs, cs[0]);
    }
  }

  // ---------- detaching a node with all that is in it ----------

  /** `c` may leave its parent without the marks losing track: it has none, or was not rooted, or all
      that is inside it is marked. */
  ghost predicate Loose<T>(f: Forest<T>, root: T, c: T)
    requires WellFormed(f) && c in f.kids
  {
    f.parent[c].None? || !Rooted(f, root, c) || Subtree(f.parent, c) - {c} <= f.changed
  }

  lemma DetachRooted<T>(f: Forest<T>, root: T, c: T, n: T)
    requires Sound(f, root) && c in f.kids && n in f.kids
    ensures Sound(DetachParent(f, c), root) && n in DetachParent(f, c).kids
    ensures Rooted(DetachParent(f, c), root, n) <==>
      Rooted(f, root, n) && (f.parent[c].Some? ==> !Under(f.parent, n, c))
  {
    DetachParentLinked(f, c);
    CutUnder(f.parent, c, n, root);
    if f.parent[c].None? {
      assert f.parent[c := None] == f.parent;
    } else {
      UnderStep(f.parent, root, c);
    }
  }

  lemma DetachMarks<T>(f: Forest<T>, c: T, n: T)
    requires WellFormed(f) && c in f.kids && n in f.kids
    ensures n in DetachParent(f, c).kids && n in DetachParent(f, c).parent
    ensures n in DetachParent(f, c).changed <==> n in f.changed || n == c || f.parent[c] == Some(n)
    ensures n !in DetachParent(f, c).changed ==>
      DetachParent(f, c).kids[n] == f.kids[n] && DetachParent(f, c).parent[n] == f.parent[n]
    ensures Under(f.parent, n, c) && n != c ==> (n in DetachParent(f, c).changed <==> n in f.changed)
  {
    DetachParentLinked(f, c);
    if f.parent[c] == Some(n) { ParentNotUnder(f.parent, c); }
  }

  /** Exactly then the marks still cover everything: of an inner node that is detached alone, the database
      would keep all that is below it. */
  lemma DetachTracked<T>(f: Forest<T>, root: T, stored: map<T, Row<T>>, c: T)
    requires Sound(f, root) && c in f.kids && Tracked(f, root, stored)
    ensures Sound(DetachParent(f, c), root) && DetachParent(f, c).kids.Keys == f.kids.Keys
    ensures Tracked(DetachParent(f, c), root, stored) <==> Loose(f, root, c)
  {
    var h := DetachParent(f, c);
    DetachRooted(f, root, c, c);
    if Loose(f, root, c) {
      forall n | n in h.kids && n !in h.changed
        ensures (n in stored <==> Rooted(h, root, n)) && (n in stored ==> stored[n] == Row(h.parent[n], h.kids[n]))
      {
        DetachMarks(f, c, n);
        DetachRooted(f, root, c, n);
        if c != root && Under(f.parent, n, c) { RootedLikeTop(f, root, c, n); }
      }
    } else {
      var n :| n in Subtree(f.parent, c) - {c} && n !in f.changed;
      DetachMarks(f, c, n);
      DetachRooted(f, root, c, n);
      RootedLikeTop(f, root, c, n);
    }
  }

  /** An example: a stored way of three nodes, none of them marked. */
  ghost function Way(): Forest<int> {
    Forest(map[0 := None, 1 := Some(0), 2 := Some(1)], map[0 := [1], 1 := [2], 2 := []], {})
  }

  lemma WayLinked()
    ensures Linked(Way())
  {
    var f := Way();
    assert forall m | m in f.kids :: m == 0 || m == 1 || f.kids[m] == [];
    assert Owned(f) && Listed(f);
  }

  lemma WayWellFormed()
    ensures WellFormed(Way())
  {
    var f := Way();
    WayLinked();
    forall n | n in f.parent ensures Ends(f.parent, n) { assert Grounded(f.parent, n, 2); }
  }

  /** Detaching the one in the middle alone leaves the last one in the database. */
  lemma MiddleDetached()
    ensures WellFormed(Way()) && Tracked(Way(), 0, Rescan(Way(), 0))
    ensures WellFormed(DetachParent(Way(), 1)) && !Tracked(DetachParent(Way(), 1), 0, Rescan(Way(), 0))
  {
    var f := Way();
    WayWellFormed();
    UnderStep(f.parent, 1, 0);
    UnderStep(f.parent, 0, 0);
    UnderStep(f.parent, 2, 1);
    UnderStep(f.parent, 1, 1);
    assert 2 in Subtree(f.parent, 1) - {1};
    DetachTracked(f, 0, Rescan(f, 0), 1);
  }

  // ---------- detaching a subtree ----------

  lemma IsolateAcyclic<T>(f: Forest<T>, n: T)
    requires WellFormed(f) && n in f.kids
    ensures WellFormed(Isolate(f, n)) && Pruned(f.parent, Isolate(f, n).parent)
    ensures Isolate(f, n).kids.Keys == f.kids.Keys
  {
    IsolateLast(f, n);
    BelowLast(f, n);
  }

  /** Who is below whom after a subtree was taken apart. */
  lemma IsolateUnder<T>(f: Forest<T>, n: T, m: T, a: T)
    requires WellFormed(f) && n in f.kids && m in f.kids
    ensures WellFormed(Isolate(f, n)) && m in Isolate(f, n).kids
    ensures Under(Isolate(f, n).parent, m, a) <==> m == a || (!Under(f.parent, m, n) && Under(f.parent, m, a))
  {
    IsolateAcyclic(f, n);
    var h := Isolate(f, n);
    UnderStep(h.parent, m, a);
    if !Under(f.parent, m, n) {
      forall x | x in Chain(f.parent, m) ensures h.parent[x] == f.parent[x] {
        if Under(f.parent, x, n) { UnderTransitive(f.parent, m, x, n); }
      }
      SameChain(f.parent, h.parent, m);
      UnderStep(f.parent, m, a);
    }
  }

  lemma IsolateTracked<T>(f: Forest<T>, root: T, stored: map<T, Row<T>>, n: T)
    requires Sound(f, root) && Tracked(f, root, stored) && n in f.kids
    ensures Sound(Isolate(f, n), root) && Tracked(Isolate(f, n), root, stored)
  {
    IsolateAcyclic(f, n);
    var h := Isolate(f, n);
    UnderStep(f.parent, n, n);
    forall m | m in h.kids && m !in h.changed
      ensures (m in stored <==> Rooted(h, root, m)) && (m in stored ==> stored[m] == Row(h.parent[m], h.kids[m]))
    {
      IsolateUnder(f, n, m, root);
      UnderStep(f.parent, root, root);
    }
  }

  /** The rows tell the whole rooted part of the tree: two trees with the same rows have the same rooted nodes,
      each with the same parent and the same children in the same order. */
  lemma RescanTells<T>(f: Forest<T>, g: Forest<T>, root: T, n: T)
    requires WellFormed(f) && WellFormed(g) && Rescan(f, root) == Rescan(g, root)
    ensures n in f.kids && Rooted(f, root, n) <==> n in g.kids && Rooted(g, root, n)
    ensures n in f.kids && Rooted(f, root, n) ==> g.parent[n] == f.parent[n] && g.kids[n] == f.kids[n]
  {
    assert n in Rescan(f, root) <==> n in f.kids && Rooted(f, root, n);
    assert n in Rescan(g, root) <==> n in g.kids && Rooted(g, root, n);
    if n in Rescan(f, root) { assert Rescan(f, root)[n] == Rescan(g, root)[n]; }
  }
}
