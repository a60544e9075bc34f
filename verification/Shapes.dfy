/** A subtree seen without the identity of its nodes: what a copy has to reproduce. */
module Shapes {
  import opened Sequences
  import opened Chains
  import opened Forests

  datatype Shape<L> = Shape(label': L, kids: seq<Shape<L>>)

  /** The labels of `n` and of everything below it, in place. */
  ghost function Unfold<T, L>(f: Forest<T>, labels: map<T, L>, n: T): Shape<L>
    requires WellFormed(f) && labels.Keys == f.kids.Keys && n in f.kids
    decreases Subtree(f.parent, n), |f.kids[n]| + 1
  {
    Shape(labels[n], UnfoldFirst(f, labels, n, |f.kids[n]|))
  }

  /** The same for the first `i` children of `n`. */
  ghost function UnfoldFirst<T, L>(f: Forest<T>, labels: map<T, L>, n: T, i: nat): (r: seq<Shape<L>>)
    requires WellFormed(f) && labels.Keys == f.kids.Keys && n in f.kids && i <= |f.kids[n]|
    ensures |r| == i
    decreases Subtree(f.parent, n), i
  {
    if i == 0 then [] else
      ChildSubtree(f, n, i - 1);
      UnfoldFirst(f, labels, n, i - 1) + [Unfold(f, labels, f.kids[n][i - 1])]
  }

  lemma {:induction false} UnfoldFirstAt<T, L>(f: Forest<T>, labels: map<T, L>, n: T, i: nat, j: nat)
    requires WellFormed(f) && labels.Keys == f.kids.Keys && n in f.kids && j < i <= |f.kids[n]|
    ensures f.kids[n][j] in f.kids && UnfoldFirst(f, labels, n, i)[j] == Unfold(f, labels, f.kids[n][j])
  {
    ChildSubtree(f, n, j);
    if j < i - 1 { UnfoldFirstAt(f, labels, n, i - 1, j); }
  }

  /** `g` shows the nodes in `s` as `f` does. */
  ghost predicate SameInside<T, L>(f: Forest<T>, fl: map<T, L>, g: Forest<T>, gl: map<T, L>, s: set<T>) {
    forall m | m in s :: m in f.kids && m in g.kids && m in fl && m in gl && g.kids[m] == f.kids[m] && gl[m] == fl[m]
  }

  lemma SameInsideLess<T, L>(f: Forest<T>, fl: map<T, L>, g: Forest<T>, gl: map<T, L>, s: set<T>, t: set<T>)
    requires SameInside(f, fl, g, gl, s) && t <= s
    ensures SameInside(f, fl, g, gl, t)
  {}

  /** A subtree that no change has touched unfolds to the same shape. */
  lemma {:induction false} UnfoldSame<T, L>(f: Forest<T>, fl: map<T, L>, g: Forest<T>, gl: map<T, L>, n: T)
    requires WellFormed(f) && fl.Keys == f.kids.Keys && n in f.kids
    requires WellFormed(g) && gl.Keys == g.kids.Keys
    requires SameInside(f, fl, g, gl, Subtree(f.parent, n))
    ensures n in g.kids && Unfold(g, gl, n) == Unfold(f, fl, n)
    decreases Subtree(f.parent, n), |f.kids[n]| + 1
  {
    UnderStep(f.parent, n, n);
    assert n in Subtree(f.parent, n);
    UnfoldFirstSame(f, fl, g, gl, n, |f.kids[n]|);
  }

  lemma {:induction false} UnfoldFirstSame<T, L>(f: Forest<T>, fl: map<T, L>, g: Forest<T>, gl: map<T, L>, n: T, i: nat)
    requires WellFormed(f) && fl.Keys == f.kids.Keys && n in f.kids && i <= |f.kids[n]|
    requires WellFormed(g) && gl.Keys == g.kids.Keys
    requires n in g.kids && i <= |g.kids[n]| && g.kids[n][..i] == f.kids[n][..i]
    requires SameInside(f, fl, g, gl, Subtree(f.parent, n) - {n})
    ensures UnfoldFirst(g, gl, n, i) == UnfoldFirst(f, fl, n, i)
    decreases Subtree(f.parent, n), i
  {
    if i > 0 {
      ChildSubtree(f, n, i - 1);
      assert g.kids[n][i - 1] == g.kids[n][..i][i - 1] == f.kids[n][..i][i - 1];
      SameInsideLess(f, fl, g, gl, Subtree(f.parent, n) - {n}, Subtree(f.parent, f.kids[n][i - 1]));
      UnfoldSame(f, fl, g, gl, f.kids[n][i - 1]);
      assert g.kids[n][..i - 1] == g.kids[n][..i][..i - 1] == f.kids[n][..i - 1];
      UnfoldFirstSame(f, fl, g, gl, n, i - 1);
    }
  }

  // ---------- copying ----------

  /** `g` is `f` with more nodes; the old ones are as they were. */
  ghost predicate Grown<T, L>(f: Forest<T>, fl: map<T, L>, g: Forest<T>, gl: map<T, L>)
    requires WellFormed(f) && WellFormed(g)
  {
    SameInside(f, fl, g, gl, f.kids.Keys) && forall m | m in f.parent :: m in g.parent && g.parent[m] == f.parent[m]
  }

  lemma GrownUnder<T, L>(f: Forest<T>, fl: map<T, L>, g: Forest<T>, gl: map<T, L>, m: T, a: T)
    requires WellFormed(f) && WellFormed(g) && Grown(f, fl, g, gl) && m in f.kids
    ensures m in g.kids && (Under(g.parent, m, a) <==> Under(f.parent, m, a))
  {
    SameChain(f.parent, g.parent, m);
  }

  lemma GrownShape<T, L>(f: Forest<T>, fl: map<T, L>, g: Forest<T>, gl: map<T, L>, n: T)
    requires WellFormed(f) && WellFormed(g) && Grown(f, fl, g, gl) && n in f.kids
    requires fl.Keys == f.kids.Keys && gl.Keys == g.kids.Keys
    ensures n in g.kids && Unfold(g, gl, n) == Unfold(f, fl, n)
  {
    UnfoldSame(f, fl, g, gl, n);
  }

  /** `node` is a new, loose node whose children are copies of the first `i` children of `source`:
      all nodes new since `f` are below it, and all of them are marked, `node` itself from the
      first child on. */
  ghost predicate CopiedFirst<T, L>(f: Forest<T>, fl: map<T, L>, g: Forest<T>, gl: map<T, L>, source: T, node: T,
                                    i: nat)
  {
    && WellFormed(f) && fl.Keys == f.kids.Keys && source in f.kids && i <= |f.kids[source]|
    && WellFormed(g) && gl.Keys == g.kids.Keys && node in g.kids && node !in f.kids
    && Grown(f, fl, g, gl)
    && g.parent[node].None? && Subtree(g.parent, node) == g.kids.Keys - f.kids.Keys
    && |g.kids[node]| == i && UnfoldFirst(g, gl, node, i) == UnfoldFirst(f, fl, source, i)
    && g.changed == f.changed + (Subtree(g.parent, node) - {node}) + if i > 0 then {node} else {}
  }

  /** `node` is a copy of `source` with everything below it. */
  ghost predicate Copied<T, L>(f: Forest<T>, fl: map<T, L>, g: Forest<T>, gl: map<T, L>, source: T, node: T) {
    && source in f.kids && CopiedFirst(f, fl, g, gl, source, node, |f.kids[source]|)
    && gl[node] == fl[source]
  }

  lemma CopyNone<T, L>(f: Forest<T>, fl: map<T, L>, g: Forest<T>, gl: map<T, L>, source: T, node: T)
    requires WellFormed(f) && fl.Keys == f.kids.Keys && source in f.kids && node !in f.kids
    requires g == Forest(f.parent[node := None], f.kids[node := []], f.changed) && gl.Keys == g.kids.Keys
    requires forall m | m in f.kids :: gl[m] == fl[m]
    ensures CopiedFirst(f, fl, g, gl, source, node, 0)
  {
    ExtendAcyclic(f.parent, node);
    assert Owned(g);
    forall m | m in g.kids ensures Under(g.parent, m, node) <==> m == node {
      UnderStep(g.parent, node, node);
      if m != node { ExtendChain(f.parent, node, m); }
    }
  }

  lemma CopyDone<T, L>(f: Forest<T>, fl: map<T, L>, g: Forest<T>, gl: map<T, L>, source: T, node: T)
    requires source in f.kids && CopiedFirst(f, fl, g, gl, source, node, |f.kids[source]|)
    ensures Copied(f, fl, g, gl[node := fl[source]], source, node)
  {
    UnfoldFirstSame(g, gl, g, gl[node := fl[source]], node, |f.kids[source]|);
  }

  lemma CopyIsomorphic<T, L>(f: Forest<T>, fl: map<T, L>, g: Forest<T>, gl: map<T, L>, source: T, node: T)
    requires Copied(f, fl, g, gl, source, node)
    ensures Unfold(g, gl, node) == Unfold(f, fl, source)
    ensures source in g.kids && Unfold(g, gl, source) == Unfold(f, fl, source)
    ensures Subtree(g.parent, node) !! Subtree(g.parent, source)
  {
    GrownShape(f, fl, g, gl, source);
    forall m | m in Subtree(g.parent, source) ensures m !in Subtree(g.parent, node) {
      if m in Subtree(g.parent, node) {
        AncestorsComparable(g.parent, m, node, source);
        UnderStep(g.parent, node, source);
      }
    }
  }

  /** Who is where once the copy of the next child is there too. */
  lemma CopyBeside<T, L>(f: Forest<T>, fl: map<T, L>, g: Forest<T>, gl: map<T, L>, h: Forest<T>, hl: map<T, L>,
                         source: T, node: T, i: nat, c: T)
    requires CopiedFirst(f, fl, g, gl, source, node, i) && i < |f.kids[source]|
    requires f.kids[source][i] in g.kids && Copied(g, gl, h, hl, f.kids[source][i], c)
    ensures node in h.kids && node != c && h.parent[node].None? && !Under(h.parent, node, c)
    ensures Subtree(h.parent, node) == Subtree(g.parent, node)
    ensures Grown(f, fl, h, hl)
  {
    GrownUnder(g, gl, h, hl, node, c);
    UnderStep(h.parent, node, c);
    forall m | m in h.kids ensures Under(h.parent, m, node) <==> m in g.kids && Under(g.parent, m, node) {
      if m in g.kids {
        GrownUnder(g, gl, h, hl, m, node);
      } else {
        assert m in Subtree(h.parent, c);
        UnderStep(h.parent, c, node);
        if Under(h.parent, m, node) { AncestorsComparable(h.parent, m, node, c); }
      }
    }
  }

  lemma CopyHung<T>(h: Forest<T>, node: T, c: T)
    requires WellFormed(h) && node in h.kids && c in h.kids && node != c && h.parent[node].None? && h.parent[c].None?
    ensures var k := AppendChild(h, node, c);
      && WellFormed(k) && k.kids.Keys == h.kids.Keys && k.parent == h.parent[c := Some(node)]
      && k.kids == h.kids[node := h.kids[node] + [c]] && k.changed == h.changed + {node, c}
      && Subtree(k.parent, node) == Subtree(h.parent, node) + Subtree(h.parent, c)
  {
    var k := AppendChild(h, node, c);
    UnderStep(h.parent, node, c);
    UnderStep(h.parent, node, node);
    AppendChildWellFormed(h, node, c);
    AppendChildLinked(h, node, c);
    forall m | m in h.kids ensures Under(k.parent, m, node) <==> Under(h.parent, m, node) || Under(h.parent, m, c) {
      AppendUnder(h, node, c, m, node);
    }
  }

  lemma CopyNextShape<T, L>(f: Forest<T>, fl: map<T, L>, g: Forest<T>, gl: map<T, L>, h: Forest<T>, hl: map<T, L>,
                            k: Forest<T>, source: T, node: T, i: nat, c: T)
    requires CopiedFirst(f, fl, g, gl, source, node, i) && i < |f.kids[source]|
    requires f.kids[source][i] in g.kids && Copied(g, gl, h, hl, f.kids[source][i], c)
    requires WellFormed(k) && node in h.kids && node !in Subtree(h.parent, c)
    requires k.kids == h.kids[node := h.kids[node] + [c]]
    ensures |k.kids[node]| == i + 1 && UnfoldFirst(k, hl, node, i + 1) == UnfoldFirst(f, fl, source, i + 1)
  {
    assert h.kids[node] == g.kids[node];
    assert c !in g.kids;
    UnfoldFirstSame(g, gl, k, hl, node, i);
    CopyIsomorphic(g, gl, h, hl, f.kids[source][i], c);
    UnfoldSame(h, hl, k, hl, c);
    ChildSubtree(f, source, i);
    GrownShape(f, fl, g, gl, f.kids[source][i]);
  }

  /** One turn of the loop: the copy of the next child is appended. */
  lemma CopyNext<T, L>(f: Forest<T>, fl: map<T, L>, g: Forest<T>, gl: map<T, L>, h: Forest<T>, hl: map<T, L>,
                       source: T, node: T, i: nat, c: T)
    requires CopiedFirst(f, fl, g, gl, source, node, i) && i < |f.kids[source]|
    requires f.kids[source][i] in g.kids && Copied(g, gl, h, hl, f.kids[source][i], c)
    ensures node in h.kids && c in h.kids && CopiedFirst(f, fl, AppendChild(h, node, c), hl, source, node, i + 1)
  {
    CopyBeside(f, fl, g, gl, h, hl, source, node, i, c);
    CopyHung(h, node, c);
    var k := AppendChild(h, node, c);
    CopyNextShape(f, fl, g, gl, h, hl, k, source, node, i, c);
    UnderStep(h.parent, c, c);
    CopyNextRest(f, fl, g, gl, h, hl, k, source, node, i, c);
    MarksAddUp(f.changed, Subtree(g.parent, node), Subtree(h.parent, c), node, c,
      if i > 0 then {node} else {}, if |g.kids[f.kids[source][i]]| > 0 then {c} else {});
  }

  lemma MarksAddUp<T>(before: set<T>, a: set<T>, b: set<T>, node: T, c: T, extra: set<T>, extra': set<T>)
    requires extra <= {node} && extra' <= {c} && c in b
    ensures (before + (a - {node}) + extra) + (b - {c}) + extra' + {node, c} == before + (a + b - {node}) + {node}
  {}

  lemma CopyNextRest<T, L>(f: Forest<T>, fl: map<T, L>, g: Forest<T>, gl: map<T, L>, h: Forest<T>, hl: map<T, L>,
                           k: Forest<T>, source: T, node: T, i: nat, c: T)
    requires CopiedFirst(f, fl, g, gl, source, node, i) && i < |f.kids[source]|
    requires f.kids[source][i] in g.kids && Copied(g, gl, h, hl, f.kids[source][i], c)
    requires node in h.kids && node != c && c in Subtree(h.parent, c)
    requires Subtree(h.parent, node) == Subtree(g.parent, node)
    requires WellFormed(k) && k.kids.Keys == h.kids.Keys && k.parent == h.parent[c := Some(node)] && Grown(f, fl, h, hl)
    requires k.kids == h.kids[node := h.kids[node] + [c]] && k.changed == h.changed + {node, c}
    requires Subtree(k.parent, node) == Subtree(h.parent, node) + Subtree(h.parent, c)
    ensures Grown(f, fl, k, hl)
    ensures Subtree(k.parent, node) == k.kids.Keys - f.kids.Keys
  {
    assert c !in f.kids;
  }
}
