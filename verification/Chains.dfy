/** Parent pointers on their own: every question about ancestors is a question about the chain
    of parents of a node, read upwards from the node itself. */
module Chains {
  import opened Sequences

  /** From `n`, at most `k` steps to the parent reach a node without parent. */
  ghost predicate Grounded<T>(up: map<T, Option<T>>, n: T, k: nat) {
    n in up && (up[n].None? || (k > 0 && Grounded(up, up[n].value, k - 1)))
  }

  ghost predicate Ends<T>(up: map<T, Option<T>>, n: T) {
    exists k: nat :: Grounded(up, n, k)
  }

  /** No parent chain runs in a circle. */
  ghost predicate Acyclic<T>(up: map<T, Option<T>>) {
    forall n {:trigger Ends(up, n)} | n in up :: Ends(up, n)
  }

  ghost function Least<T>(up: map<T, Option<T>>, n: T, k: nat): (d: nat)
    requires Grounded(up, n, k)
    ensures Grounded(up, n, d) && (d > 0 ==> !Grounded(up, n, d - 1))
  {
    if k > 0 && Grounded(up, n, k - 1) then Least(up, n, k - 1) else k
  }

  /** How many steps above `n` its topmost ancestor is. */
  ghost function Depth<T>(up: map<T, Option<T>>, n: T): (d: nat)
    requires Acyclic(up) && n in up
    ensures Grounded(up, n, d) && (d > 0 ==> !Grounded(up, n, d - 1))
  {
    assert Ends(up, n);
    var k: nat :| Grounded(up, n, k);
    Least(up, n, k)
  }

  lemma {:induction false} GroundedLater<T>(up: map<T, Option<T>>, n: T, j: nat, k: nat)
    requires j <= k && Grounded(up, n, j)
    ensures Grounded(up, n, k)
  {
    if up[n].Some? {
      GroundedLater(up, up[n].value, j - 1, k - 1);
    }
  }

  lemma DepthOfParent<T>(up: map<T, Option<T>>, n: T)
    requires Acyclic(up) && n in up && up[n].Some?
    ensures up[n].value in up && Depth(up, n) == Depth(up, up[n].value) + 1
  {
    var p := up[n].value;
    var d := Depth(up, n);
    assert Grounded(up, p, d - 1);
    var e := Depth(up, p);
    if e + 1 < d {
      GroundedLater(up, p, e, d - 2);
    } else if d < e + 1 {
      GroundedLater(up, p, d - 1, e - 1);
    }
  }

  /** `n`, its parent, and so on up to a node without parent. */
  ghost function Chain<T>(up: map<T, Option<T>>, n: T): (c: seq<T>)
    requires Acyclic(up) && n in up
    ensures |c| > 0 && c[0] == n
    ensures forall m {:trigger m in c} | m in c :: m in up
    decreases Depth(up, n)
  {
    if up[n].None? then [n] else
      DepthOfParent(up, n);
      [n] + Chain(up, up[n].value)
  }

  /** The nodes above `n`, topmost first: the first has no parent, each is the parent of the next, and the last
      is the parent of `n`. */
  ghost predicate DownTo<T>(up: map<T, Option<T>>, s: seq<T>, n: T) {
    && n in up && (forall m | m in s :: m in up)
    && (if s == [] then up[n].None? else up[s[0]].None? && up[n] == Some(s[|s| - 1]))
    && forall i | 0 <= i < |s| - 1 :: up[s[i + 1]] == Some(s[i])
  }

  lemma {:induction false} ReversedChain<T>(up: map<T, Option<T>>, n: T)
    requires Acyclic(up) && n in up
    ensures DownTo(up, Reversed(Chain(up, n)[1..]), n)
    decreases Depth(up, n)
  {
    if up[n].Some? {
      DepthOfParent(up, n);
      var p := up[n].value;
      var above := Reversed(Chain(up, p)[1..]);
      ReversedChain(up, p);
      assert Chain(up, n)[1..] == Chain(up, p);
      assert Reversed(Chain(up, p)) == above + [p];
    }
  }

  /** `n` is `a` or a descendant of `a`. */
  ghost predicate Under<T>(up: map<T, Option<T>>, n: T, a: T)
    requires Acyclic(up) && n in up
  {
    a in Chain(up, n)
  }

  /** `a` and everything below it. */
  ghost function Subtree<T>(up: map<T, Option<T>>, a: T): set<T>
    requires Acyclic(up)
  {
    set n | n in up && Under(up, n, a)
  }

  lemma UnderStep<T>(up: map<T, Option<T>>, n: T, a: T)
    requires Acyclic(up) && n in up
    ensures up[n].Some? ==> up[n].value in up
    ensures Under(up, n, a) <==> n == a || (up[n].Some? && Under(up, up[n].value, a))
  {
    if up[n].Some? {
      DepthOfParent(up, n);
    }
  }

  lemma {:induction false} UnderIsDeeper<T>(up: map<T, Option<T>>, n: T, a: T)
    requires Acyclic(up) && n in up && Under(up, n, a)
    ensures a in up && Depth(up, a) <= Depth(up, n)
    ensures Depth(up, a) == Depth(up, n) ==> a == n
    decreases Depth(up, n)
  {
    UnderStep(up, n, a);
    if n != a {
      DepthOfParent(up, n);
      UnderIsDeeper(up, up[n].value, a);
    }
  }

  lemma {:induction false} UnderTransitive<T>(up: map<T, Option<T>>, n: T, a: T, b: T)
    requires Acyclic(up) && n in up && Under(up, n, a) && a in up && Under(up, a, b)
    ensures Under(up, n, b)
    decreases Depth(up, n)
  {
    UnderStep(up, n, a);
    UnderStep(up, n, b);
    if n != a {
      DepthOfParent(up, n);
      UnderTransitive(up, up[n].value, a, b);
    }
  }

  /** Two ancestors of one node are above one another. */
  lemma {:induction false} AncestorsComparable<T>(up: map<T, Option<T>>, n: T, a: T, b: T)
    requires Acyclic(up) && n in up && Under(up, n, a) && Under(up, n, b)
    ensures a in up && b in up && (Under(up, a, b) || Under(up, b, a))
    decreases Depth(up, n)
  {
    UnderStep(up, n, a);
    UnderStep(up, n, b);
    if n != a && n != b {
      DepthOfParent(up, n);
      AncestorsComparable(up, up[n].value, a, b);
    }
  }

  /** A node is never below one of its own children. */
  lemma ParentNotUnder<T>(up: map<T, Option<T>>, c: T)
    requires Acyclic(up) && c in up && up[c].Some?
    ensures up[c].value in up && !Under(up, up[c].value, c)
  {
    DepthOfParent(up, c);
    if Under(up, up[c].value, c) {
      UnderIsDeeper(up, up[c].value, c);
    }
  }

  /** A strict descendant of `a` is below the child of `a` that its chain passes. */
  lemma {:induction false} ChildAbove<T>(up: map<T, Option<T>>, n: T, a: T) returns (c: T)
    requires Acyclic(up) && n in up && Under(up, n, a) && n != a
    ensures c in up && up[c] == Some(a) && Under(up, n, c)
    decreases Depth(up, n)
  {
    UnderStep(up, n, a);
    DepthOfParent(up, n);
    if up[n].value == a {
      c := n;
    } else {
      c := ChildAbove(up, up[n].value, a);
    }
    UnderStep(up, n, c);
    UnderStep(up, c, c);
  }

  // ---------- cutting and hanging ----------

  /** `low` has the links of `up`, some of them cut. */
  ghost predicate Pruned<T>(up: map<T, Option<T>>, low: map<T, Option<T>>) {
    low.Keys == up.Keys && forall n | n in up :: low[n] == up[n] || low[n].None?
  }

  lemma {:induction false} PrunedGrounded<T>(up: map<T, Option<T>>, low: map<T, Option<T>>, n: T, k: nat)
    requires Pruned(up, low) && Grounded(up, n, k)
    ensures Grounded(low, n, k)
  {
    if low[n].Some? {
      PrunedGrounded(up, low, up[n].value, k - 1);
    }
  }

  lemma PrunedAcyclic<T>(up: map<T, Option<T>>, low: map<T, Option<T>>)
    requires Pruned(up, low) && Acyclic(up)
    ensures Acyclic(low)
  {
    forall n | n in low ensures Ends(low, n) {
      PrunedGrounded(up, low, n, Depth(up, n));
    }
  }

  /** Cutting links only takes descendants away. */
  lemma {:induction false} PrunedUnder<T>(up: map<T, Option<T>>, low: map<T, Option<T>>, n: T, a: T)
    requires Pruned(up, low) && Acyclic(up) && Acyclic(low) && n in up && Under(low, n, a)
    ensures Under(up, n, a)
    decreases Depth(low, n)
  {
    UnderStep(up, n, a);
    UnderStep(low, n, a);
    if n != a {
      DepthOfParent(low, n);
      PrunedUnder(up, low, low[n].value, a);
    }
  }

  /** Links cut outside the inside of a subtree leave that subtree whole. */
  lemma {:induction false} PrunedKeeps<T>(up: map<T, Option<T>>, low: map<T, Option<T>>, n: T, a: T)
    requires Pruned(up, low) && Acyclic(up) && Acyclic(low) && n in up && Under(up, n, a)
    requires forall m | m in Subtree(up, a) && m != a :: low[m] == up[m]
    ensures Under(low, n, a)
    decreases Depth(up, n)
  {
    UnderStep(up, n, a);
    UnderStep(low, n, a);
    if n != a {
      DepthOfParent(up, n);
      PrunedKeeps(up, low, up[n].value, a);
    }
  }

  /** A chain none of whose links changed is the same chain. */
  lemma {:induction false} SameChain<T>(up: map<T, Option<T>>, low: map<T, Option<T>>, n: T)
    requires Acyclic(up) && Acyclic(low) && n in up
    requires forall m | m in Chain(up, n) :: m in low && low[m] == up[m]
    ensures n in low && Chain(low, n) == Chain(up, n)
    decreases Depth(up, n)
  {
    if up[n].Some? {
      DepthOfParent(up, n);
      SameChain(up, low, up[n].value);
      DepthOfParent(low, n);
    }
  }

  /** Cutting `c` off keeps, below `c`, exactly what is up to `c`; elsewhere nothing changes. */
  lemma {:induction false} CutUnder<T>(up: map<T, Option<T>>, c: T, n: T, a: T)
    requires Acyclic(up) && c in up && n in up
    ensures Acyclic(up[c := None])
    ensures Under(up[c := None], n, a) <==>
      Under(up, n, a) && (Under(up, n, c) ==> a in up && Under(up, a, c))
    decreases Depth(up, n)
  {
    var low := up[c := None];
    PrunedAcyclic(up, low);
    UnderStep(up, n, a);
    UnderStep(low, n, a);
    UnderStep(up, n, c);
    if n == c {
      if Under(up, n, a) {
        UnderIsDeeper(up, n, a);
        if Under(up, a, c) {
          UnderIsDeeper(up, a, c);
        }
      }
    } else if up[n].Some? {
      DepthOfParent(up, n);
      CutUnder(up, c, up[n].value, a);
    }
  }

  lemma {:induction false} HangGrounded<T>(up: map<T, Option<T>>, p: T, c: T, n: T)
    requires Acyclic(up) && c in up && p in up && n in up
    requires up[c].None? && !Under(up, p, c)
    ensures Grounded(up[c := Some(p)], n, Depth(up, n) + Depth(up, p) + 1)
    decreases Depth(up, n)
  {
    var hung := up[c := Some(p)];
    UnderStep(up, n, c);
    if n == c {
      HangFree(up, p, c, p);
      GroundedLater(hung, p, Depth(up, p), Depth(up, n) + Depth(up, p));
    } else if up[n].Some? {
      DepthOfParent(up, n);
      HangGrounded(up, p, c, up[n].value);
    }
  }

  lemma {:induction false} HangFree<T>(up: map<T, Option<T>>, p: T, c: T, n: T)
    requires Acyclic(up) && n in up && !Under(up, n, c)
    ensures Grounded(up[c := Some(p)], n, Depth(up, n))
    decreases Depth(up, n)
  {
    UnderStep(up, n, c);
    if up[n].Some? {
      DepthOfParent(up, n);
      HangFree(up, p, c, up[n].value);
    }
  }

  /** Hanging a loose node `c` below `p`: what was under `c` is now also under all of `p`'s chain. */
  lemma {:induction false} HangUnder<T>(up: map<T, Option<T>>, p: T, c: T, n: T, a: T)
    requires Acyclic(up) && c in up && p in up && n in up
    requires up[c].None? && !Under(up, p, c)
    ensures Acyclic(up[c := Some(p)])
    ensures Under(up[c := Some(p)], n, a) <==> Under(up, n, a) || (Under(up, n, c) && Under(up, p, a))
    decreases Depth(up, n)
  {
    var hung := up[c := Some(p)];
    forall m | m in hung ensures Ends(hung, m) {
      HangGrounded(up, p, c, m);
    }
    UnderStep(up, n, a);
    UnderStep(hung, n, a);
    UnderStep(up, n, c);
    if n == c {
      forall m | m in Chain(up, p) ensures m != c {}
      SameChain(up, hung, p);
    } else if up[n].Some? {
      DepthOfParent(up, n);
      HangUnder(up, p, c, up[n].value, a);
    }
  }

  lemma {:induction false} ExtendGrounded<T>(up: map<T, Option<T>>, n: T, m: T, k: nat)
    requires n !in up && Grounded(up, m, k)
    ensures Grounded(up[n := None], m, k)
  {
    if up[m].Some? { ExtendGrounded(up, n, up[m].value, k - 1); }
  }

  /** A new node without parent changes no chain. */
  lemma ExtendAcyclic<T>(up: map<T, Option<T>>, n: T)
    requires Acyclic(up) && n !in up
    ensures Acyclic(up[n := None])
  {
    var more := up[n := None];
    forall m | m in more ensures Ends(more, m) {
      if m == n {
        assert Grounded(more, n, 0);
      } else {
        ExtendGrounded(up, n, m, Depth(up, m));
      }
    }
  }

  lemma ExtendChain<T>(up: map<T, Option<T>>, n: T, m: T)
    requires Acyclic(up) && n !in up && m in up
    ensures Acyclic(up[n := None]) && Chain(up[n := None], m) == Chain(up, m)
  {
    ExtendAcyclic(up, n);
    SameChain(up, up[n := None], m);
  }
}
