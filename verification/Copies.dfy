/** Copying and appending: why the whole copy reaches the database. */
module Copies {
  import opened Chains
  import opened Forests
  import opened WriteBack
  import opened Shapes

  /** Copying does not make the marks lose track. */
  lemma CopyTracked<T, L>(f: Forest<T>, fl: map<T, L>, g: Forest<T>, gl: map<T, L>, source: T, node: T,
                          root: T, stored: map<T, Row<T>>)
    requires Copied(f, fl, g, gl, source, node) && Sound(f, root) && Tracked(f, root, stored)
    ensures Sound(g, root) && Tracked(g, root, stored)
  {
    forall n | n in g.kids && n !in g.changed
      ensures (n in stored <==> Rooted(g, root, n)) && (n in stored ==> stored[n] == Row(g.parent[n], g.kids[n]))
    {
      if n in f.kids {
        GrownUnder(f, fl, g, gl, n, root);
      } else {
        assert n in Subtree(g.parent, node);
        UnderStep(g.parent, node, root);
      }
    }
  }

  /** A fresh copy may be appended to any node that was there before, rooted or not: all of it that
      needs a mark has one. */
  lemma CopyReady<T, L>(f: Forest<T>, fl: map<T, L>, g: Forest<T>, gl: map<T, L>, source: T, node: T, root: T, p: T)
    requires Copied(f, fl, g, gl, source, node) && Sound(f, root) && p in f.kids
    ensures Sound(g, root) && p in g.kids && Ready(g, root, p, node)
  {
    GrownUnder(f, fl, g, gl, p, node);
    if Under(f.parent, p, node) { UnderIsDeeper(f.parent, p, node); }
  }

  /** A copy that is appended to a rooted node, with no write in between, is stored as a whole. */
  lemma CopyStored<T, L>(f: Forest<T>, fl: map<T, L>, g: Forest<T>, gl: map<T, L>, source: T, node: T,
                         root: T, stored: map<T, Row<T>>, p: T)
    requires Copied(f, fl, g, gl, source, node) && Sound(f, root) && Tracked(f, root, stored)
    requires p in f.kids && Rooted(f, root, p)
    ensures p in g.kids && WellFormed(AppendChild(g, p, node))
    ensures AppendChild(g, p, node).changed <= AppendChild(g, p, node).kids.Keys
    ensures Flush(AppendChild(g, p, node), root, stored, AppendChild(g, p, node).changed) ==
      Rescan(AppendChild(g, p, node), root)
    ensures Subtree(g.parent, node) <= Rescan(AppendChild(g, p, node), root).Keys
  {
    CopyTracked(f, fl, g, gl, source, node, root, stored);
    CopyReady(f, fl, g, gl, source, node, root, p);
    AppendTracked(g, root, stored, p, node);
    var h := AppendChild(g, p, node);
    FlushIsRescan(h, root, stored);
    GrownUnder(f, fl, g, gl, p, root);
    forall m | m in Subtree(g.parent, node) ensures m in h.kids && Rooted(h, root, m) {
      AppendRooted(g, root, p, node, m);
    }
  }
}
