/** Relative paths, what ids that pass validation are good for, and finding a child where it was put. */
module Addresses {
  import opened Sequences
  import opened Chains
  import opened Forests
  import opened Patterns
  import opened Paths
  import opened Reorders
  import opened Runs
  import opened WriteBack

  // ---------- relative paths ----------

  /** The ids on the way down from `x` to `n`. */
  ghost function NamesFrom<T>(s: Site<T>, x: T, n: T): seq<string>
    requires Proper(s) && x in s.ids && n in s.ids && Under(s.tree.parent, n, x)
    decreases Depth(s.tree.parent, n)
  {
    if n == x then []
    else
      UnderStep(s.tree.parent, n, x);
      DepthOfParent(s.tree.parent, n);
      NamesFrom(s, x, s.tree.parent[n].value) + [s.ids[n]]
  }

  /** `n` is at or below `x`, and every node on the way has a plain id, unique among its siblings. */
  ghost predicate PlainFrom<T>(s: Site<T>, x: T, n: T) {
    && Proper(s) && x in s.ids && n in s.ids && Under(s.tree.parent, n, x)
    && forall m | m in s.ids && Under(s.tree.parent, n, m) && Under(s.tree.parent, m, x) && m != x ::
         Plain(s.ids[m]) && UniqueId(s, m)
  }

  /** The segments, with a slash between each two of them. */
  ghost function Route(segments: seq<string>): string {
    if segments == [] then "" else Join(segments)[1..]
  }

  lemma PlainFromUp<T>(s: Site<T>, x: T, n: T)
    requires PlainFrom(s, x, n) && n != x
    ensures Plain(s.ids[n]) && UniqueId(s, n) && s.tree.parent[n].Some? && s.tree.parent[n].value in s.ids
    ensures PlainFrom(s, x, s.tree.parent[n].value)
  {
    var up := s.tree.parent;
    UnderStep(up, n, x);
    UnderStep(up, n, n);
    DepthOfParent(up, n);
    forall m | m in s.ids && Under(up, up[n].value, m) ensures Under(up, n, m) { UnderStep(up, n, m); }
  }

  lemma {:induction false} WalkFrom<T>(s: Site<T>, x: T, n: T)
    requires PlainFrom(s, x, n)
    ensures Walk(s, x, NamesFrom(s, x, n)) == Found(n)
    ensures forall name | name in NamesFrom(s, x, n) :: Plain(name)
    decreases Depth(s.tree.parent, n)
  {
    if n != x {
      PlainFromUp(s, x, n);
      var p := s.tree.parent[n].value;
      DepthOfParent(s.tree.parent, n);
      WalkFrom(s, x, p);
      WalkFurther(s, x, NamesFrom(s, x, p), s.ids[n]);
      ChildFound(s, n, p);
    }
  }

  lemma {:induction false} WalkOn<T>(s: Site<T>, x: T, a: seq<string>, b: seq<string>)
    requires Proper(s) && x in s.ids && Walk(s, x, a).Found?
    ensures Walk(s, x, a + b) == Walk(s, Walk(s, x, a).node, b)
  {
    if a == [] {
      assert a + b == b;
    } else {
      assert (a + b)[1..] == a[1..] + b;
      WalkOn(s, Follow(s, x, a[0]).node, a[1..], b);
    }
  }

  /** Segments that a route can carry. */
  ghost predicate Sayable(segments: seq<string>) {
    forall x | x in segments :: x != "" && '/' !in x
  }

  lemma RouteWalks<T>(s: Site<T>, x: T, segments: seq<string>)
    requires Proper(s) && x in s.ids && |segments| > 1 && Sayable(segments)
    ensures GetChild(s, x, Route(segments)) == Walk(s, x, segments)
  {
    assert segments[0] in segments && segments[|segments| - 1] in segments;
    SplitJoin(segments);
    JoinTail(segments);
  }

  /** The ids on the way down from a node to one below it, joined with slashes, lead from the one to the
      other; with one id, the bare id does. */
  lemma RouteFound<T>(s: Site<T>, x: T, n: T)
    requires PlainFrom(s, x, n) && n != x
    ensures GetChild(s, x, Route(NamesFrom(s, x, n))) == Found(n)
  {
    var names := NamesFrom(s, x, n);
    WalkFrom(s, x, n);
    if |names| > 1 {
      RouteWalks(s, x, names);
    } else {
      PlainFromUp(s, x, n);
      var p := s.tree.parent[n].value;
      assert p == x && names == [s.ids[n]];
      assert Join(names) == "/" + (s.ids[n] + "");
      assert Route(names) == s.ids[n];
      ChildFound(s, n, p);
    }
  }

  /** Where the segment `.` leads to from `m`: to the nearest container. */
  ghost predicate StaysAt<T>(s: Site<T>, m: T, t: T) {
    && Proper(s) && m in s.ids && t in s.ids
    && if m in s.containers || s.tree.parent[m].None? then t == m else s.tree.parent[m] == Some(t)
  }

  /** Where the segment `..` leads to from `m`: from a container to its parent, from a leaf to the parent of
      its parent; a node from which that does not exist is not left. */
  ghost predicate ClimbsTo<T>(s: Site<T>, m: T, t: T) {
    && Proper(s) && m in s.ids && t in s.ids
    && if m in s.containers then s.tree.parent[m] == Some(t) || (s.tree.parent[m].None? && t == m)
       else s.tree.parent[m].Some? && s.tree.parent[m].value in s.ids &&
            (s.tree.parent[s.tree.parent[m].value] == Some(t)
             || (s.tree.parent[s.tree.parent[m].value].None? && t == m))
  }

  lemma SayableAround(a: seq<string>, dot: string, b: seq<string>)
    requires (forall x | x in a :: Plain(x)) && (forall x | x in b :: Plain(x)) && dot in [".", ".."]
    ensures Sayable(a + [dot] + b)
  {}

  /** Folders, trashes and factories are containers for `.` and `..`, references and access objects are leaves. */
  lemma ContainersAre<T>(w: World<T>, n: T)
    requires n in w.kinds && !w.kinds[n].Other?
    ensures n in Look(w).containers <==> w.kinds[n] in [Folder, Trash, Factory]
  {}

  lemma AroundDot<T>(s: Site<T>, x: T, m: T, t: T, n: T, dot: string)
    requires PlainFrom(s, x, m) && PlainFrom(s, t, n) && dot in [".", ".."] && Follow(s, m, dot) == Found(t)
    requires m != x || n != t
    ensures GetChild(s, x, Route(NamesFrom(s, x, m) + [dot] + NamesFrom(s, t, n))) == Found(n)
  {
    var a, b := NamesFrom(s, x, m), NamesFrom(s, t, n);
    WalkFrom(s, x, m);
    WalkFrom(s, t, n);
    WalkFurther(s, x, a, dot);
    WalkOn(s, x, a + [dot], b);
    assert m != x ==> a != [];
    assert n != t ==> b != [];
    SayableAround(a, dot, b);
    RouteWalks(s, x, a + [dot] + b);
  }

  /** A route with one `.` in it, at its start, in the middle or at its end. */
  lemma DotRoute<T>(s: Site<T>, x: T, m: T, t: T, n: T)
    requires PlainFrom(s, x, m) && StaysAt(s, m, t) && PlainFrom(s, t, n) && (m != x || n != t)
    ensures GetChild(s, x, Route(NamesFrom(s, x, m) + ["."] + NamesFrom(s, t, n))) == Found(n)
  {
    AroundDot(s, x, m, t, n, ".");
  }

  /** A route with one `..` in it. */
  lemma ClimbRoute<T>(s: Site<T>, x: T, m: T, t: T, n: T)
    requires PlainFrom(s, x, m) && ClimbsTo(s, m, t) && PlainFrom(s, t, n) && (m != x || n != t)
    ensures GetChild(s, x, Route(NamesFrom(s, x, m) + [".."] + NamesFrom(s, t, n))) == Found(n)
  {
    AroundDot(s, x, m, t, n, "..");
  }

  /** From a leaf without parent `..` crashes. */
  lemma ClimbCrashes<T>(s: Site<T>, x: T, rest: seq<string>)
    requires Proper(s) && x in s.ids && x !in s.containers && s.tree.parent[x].None? && rest != [] && Sayable(rest)
    ensures GetChild(s, x, Route([".."] + rest)) == Crash
  {
    RouteWalks(s, x, [".."] + rest);
  }

  // ---------- ids that pass validation ----------

  /** Exactly which ids pass: letters, digits and four other characters. */
  lemma ValidIdExactly(id: string)
    ensures ValidId(id) <==>
      && id != ""
      && forall c | c in id ::
           || 'a' <= c <= 'z' || 'A' <= c <= 'Z' || '0' <= c <= '9' || c == '.' || c == '-' || c == '*' || c == '_'
  {}

  /** So a path can carry them, but for the two dotted ones, and the star is their only character with a
      meaning in patterns that is not harmless. */
  lemma ValidIdPlain(id: string)
    requires ValidId(id)
    ensures Plain(id) <==> id != "." && id != ".."
    ensures '/' !in id && (Quiet(id) <==> '*' !in id)
  {}

  /** Every node with a parent has an id that passes validation. */
  ghost predicate ValidIds<T>(w: World<T>) {
    Typed(w) && forall n | n in w.ids && w.tree.parent[n].Some? :: ValidId(w.ids[n])
  }

  /** What renames and moves without validation have to see to. */
  ghost predicate Careful<T>(w: World<T>, op: Op<T>)
    requires Typed(w) && Applicable(w, op)
  {
    match op
    case Rename(n, id) => w.tree.parent[n].Some? ==> ValidId(id)
    case SetParent(c, Some(_)) => ValidId(w.ids[c])
    case _ => true
  }

  lemma AppendedIds<T>(w: World<T>, p: T, c: T)
    requires ValidIds(w) && p in w.ids && c in w.ids && ValidId(w.ids[c]) && !Under(w.tree.parent, p, c)
    ensures ValidIds(w.(tree := AppendChild(w.tree, p, c)))
  {
    AppendMoved(w.tree, p, c);
    AppendChildLinked(w.tree, p, c);
  }

  lemma {:induction false} AppendSeqParents<T>(f: Forest<T>, p: T, cs: seq<T>, m: T)
    requires Linked(f) && p in f.kids && m in f.kids && forall c | c in cs :: c in f.kids
    ensures m in AppendSeq(f, p, cs).parent
    ensures AppendSeq(f, p, cs).parent[m] == if m in cs then Some(p) else f.parent[m]
  {
    if cs != [] {
      var front, c := cs[..|cs| - 1], cs[|cs| - 1];
      assert cs == front + [c];
      AppendSeqParents(f, p, front, m);
      AppendChildAt(AppendSeq(f, p, front), p, c, m);
    }
  }

  lemma BulkIdOf<T>(w: World<T>, p: T, cs: seq<T>, n: T)
    requires ValidIds(w) && Applicable(w, AppendAll(p, cs)) && Accepted(w, AppendAll(p, cs)) && n in w.ids
    ensures n in AllMoved(w.tree, p, cs).parent && (AllMoved(w.tree, p, cs).parent[n].Some? ==> ValidId(w.ids[n]))
  {
    AppendSeqParents(w.tree, p, Arrange(w.tree.kids[p], cs), n);
    if n in cs {
      assert Validate(w, p, n, Some(w.ids[n])).None?;
    } else if n in w.tree.kids[p] {
      assert w.tree.parent[n] == Some(p);
    }
  }

  lemma BulkIds<T>(w: World<T>, p: T, cs: seq<T>)
    requires ValidIds(w) && Applicable(w, AppendAll(p, cs)) && Accepted(w, AppendAll(p, cs))
    ensures ValidIds(w.(tree := AllMoved(w.tree, p, cs)))
  {
    WrittenWellFormed(w, AppendAll(p, cs));
    forall n | n in w.ids && AllMoved(w.tree, p, cs).parent[n].Some? ensures ValidId(w.ids[n]) {
      BulkIdOf(w, p, cs, n);
    }
  }

  lemma MovedIds<T>(w: World<T>, op: Op<T>)
    requires ValidIds(w) && Applicable(w, op) && Accepted(w, op) && Careful(w, op)
    requires Writes(op) || op.SetParent?
    requires op.SetParent? && op.newParent.Some? ==> !Under(w.tree.parent, op.newParent.value, op.child)
    ensures ValidIds(w.(tree := Moved(w, op)))
  {
    match op
    case Append(p, c) => AcceptedIsFree(w, p, c); AppendedIds(w, p, c);
    case AppendAll(p, cs) => BulkIds(w, p, cs);
    case SetParent(c, Some(p)) => if w.tree.parent[c] != Some(p) { AppendedIds(w, p, c); }
    case SetParent(c, None) => LoosenedIds(w, c);
    case Delete(n) => IsolateAcyclic(w.tree, n);
    case Save(_) =>
  }

  lemma LoosenedIds<T>(w: World<T>, c: T)
    requires ValidIds(w) && c in w.ids
    ensures ValidIds(w.(tree := DetachParent(w.tree, c)))
  {
    DetachParentLinked(w.tree, c);
    PrunedAcyclic(w.tree.parent, DetachParent(w.tree, c).parent);
  }

  lemma WrittenIds<T>(w: World<T>, root: T)
    requires ValidIds(w)
    ensures ValidIds(Flushed(w, root))
  {}

  lemma QuietIds<T>(w: World<T>, root: T, op: Op<T>)
    requires ValidIds(w) && root in w.ids && Applicable(w, op) && Careful(w, op) && !Writes(op) && !op.SetParent?
    requires Typed(Step(w, root, op))
    ensures ValidIds(Step(w, root, op))
  {}

  /** Every careful step keeps the ids valid: appends because of validation. */
  lemma StepValid<T>(w: World<T>, root: T, op: Op<T>)
    requires Good(w, root) && Permitted(w, root, op) && ValidIds(w) && Careful(w, op)
    ensures ValidIds(Step(w, root, op))
  {
    if !Accepted(w, op) {
    } else if Writes(op) {
      MovedIds(w, op);
      WrittenIds(w.(tree := Moved(w, op)), root);
    } else if op.SetParent? {
      MovedIds(w, op);
    } else {
      StepKeeps(w, root, op);
      QuietIds(w, root, op);
    }
  }

  /** Over every run in which renames and moves without validation see to it, all ids of nodes with a parent
      stay valid. */
  lemma {:induction false} RunValid<T>(ws: seq<World<T>>, root: T, ops: seq<Op<T>>, i: nat)
    requires Run(ws, root, ops) && i <= |ops| && ValidIds(ws[0])
    requires forall j | 0 <= j < |ops| && Typed(ws[j]) && Applicable(ws[j], ops[j]) :: Careful(ws[j], ops[j])
    ensures ValidIds(ws[i])
  {
    if i > 0 {
      RunValid(ws, root, ops, i - 1);
      RunKeeps(ws, root, ops, i - 1);
      StepValid(ws[i - 1], root, ops[i - 1]);
    }
  }

  // ---------- an appended child is found ----------

  /** Below the same parent nothing but `c` may have gone or come. */
  lemma {:induction false} StillPlain<T>(s: Site<T>, t: Site<T>, p: T, c: T, m: T)
    requires Proper(s) && Proper(t) && p in s.ids && c in s.ids && !Under(s.tree.parent, p, c)
    requires t == s.(tree := t.tree) && AppendChild(s.tree, p, c).parent == t.tree.parent
    requires AppendChild(s.tree, p, c).kids == t.tree.kids
    requires m in s.ids && Under(s.tree.parent, p, m)
    ensures Top(t, m) == Top(s, m) && (PlainBelow(s, m) ==> PlainBelow(t, m))
    decreases Depth(s.tree.parent, m)
  {
    var up := s.tree.parent;
    AppendChildAt(s.tree, p, c, m);
    if up[m].Some? {
      var q := up[m].value;
      DepthOfParent(up, m);
      DepthOfParent(t.tree.parent, m);
      UnderStep(up, m, q);
      UnderStep(up, q, q);
      UnderTransitive(up, p, m, q);
      StillPlain(s, t, p, c, q);
      AppendChildAt(s.tree, p, c, q);
      ParentNotUnder(up, m);
      forall k | k in t.tree.kids[q] ensures k in s.tree.kids[q] {
        WithoutIn(s.tree.kids[q], c, k);
      }
    }
  }

  lemma AppendedPlain<T>(s: Site<T>, t: Site<T>, p: T, c: T)
    requires Proper(s) && Proper(t) && p in s.ids && c in s.ids && !Under(s.tree.parent, p, c)
    requires t == s.(tree := t.tree) && AppendChild(s.tree, p, c).parent == t.tree.parent
    requires AppendChild(s.tree, p, c).kids == t.tree.kids
    requires Printable(s, p) && Plain(s.ids[c]) && forall k | k in s.tree.kids[p] && k != c :: s.ids[k] != s.ids[c]
    ensures Top(t, c) == Top(s, p) && Printable(t, c)
  {
    UnderStep(s.tree.parent, p, p);
    StillPlain(s, t, p, c, p);
    AppendChildAt(s.tree, p, c, c);
    AppendChildAt(s.tree, p, c, p);
    DepthOfParent(t.tree.parent, c);
    forall k | k in t.tree.kids[p] && k != c ensures k in s.tree.kids[p] { WithoutIn(s.tree.kids[p], c, k); }
  }

  /** A child that validation accepts below a parent with a printable path is found under its own path from
      every node of the tree once it is appended, unless its id is one of the two dotted ones or, in a trash,
      that of another child. */
  lemma AppendedFound<T>(w: World<T>, root: T, p: T, c: T, x: T)
    requires Typed(w) && root in w.ids && p in w.ids && c in w.ids && x in w.ids && Printable(Look(w), p)
    requires Validate(w, p, c, Some(w.ids[c])) == None && w.ids[c] != "." && w.ids[c] != ".."
    requires w.kinds[p] == Trash ==> forall k | k in w.tree.kids[p] && k != c :: w.ids[k] != w.ids[c]
    ensures Typed(Step(w, root, Append(p, c)))
    ensures var t := Look(Step(w, root, Append(p, c)));
      Top(t, x) == Top(t, c) ==> GetChild(t, x, GetPath(t, c)) == Found(c)
  {
    StepAppend(w, root, p, c);
    AcceptedIsFree(w, p, c);
    ValidIdPlain(w.ids[c]);
    var v := Step(w, root, Append(p, c));
    MarkedAppend(w, root, p, c);
    AppendedPlain(Look(w), Look(v), p, c);
    if Top(Look(v), x) == Top(Look(v), c) { PathRoundTrip(Look(v), x, c); }
  }

  lemma MarkedAppend<T>(w: World<T>, root: T, p: T, c: T)
    requires Typed(w) && root in w.ids && p in w.ids && c in w.ids && Validate(w, p, c, Some(w.ids[c])) == None
    ensures var v := Step(w, root, Append(p, c));
      && Typed(v) && v.ids == w.ids && v.kinds == w.kinds
      && v.tree.parent == AppendChild(w.tree, p, c).parent && v.tree.kids == AppendChild(w.tree, p, c).kids
  {
    StepAppend(w, root, p, c);
  }

  // ---------- what validation accepts ----------

  /** No two children of a factory are of one class. */
  ghost predicate DistinctKinds<T>(kinds: map<T, Kind>, some: set<T>) {
    some <= kinds.Keys && forall a, b | a in some && b in some && a != b :: kinds[a] != kinds[b]
  }

  /** The children of `p` differ as they should: in id, but for a trash, and in a factory in class. */
  ghost predicate WellSorted<T>(w: World<T>, kids: set<T>, p: T) {
    && p in w.kinds
    && (w.kinds[p] != Trash ==> DistinctIds(w.ids, kids))
    && (w.kinds[p] == Factory ==> DistinctKinds(w.kinds, kids))
  }

  lemma NoDuplicate<T>(w: World<T>, p: T, c: T)
    requires Typed(w) && p in w.ids && c in w.ids && WellSorted(w, Elems(w.tree.kids[p]), p)
    ensures !Duplicate(w, p, c, Some(w.ids[c])) <==> WellSorted(w, Elems(w.tree.kids[p]) + {c}, p)
  {
    if Duplicate(w, p, c, Some(w.ids[c])) { DuplicateClashes(w, p, c); }
  }

  lemma DuplicateClashes<T>(w: World<T>, p: T, c: T)
    requires Typed(w) && p in w.ids && c in w.ids && Duplicate(w, p, c, Some(w.ids[c]))
    ensures !WellSorted(w, Elems(w.tree.kids[p]) + {c}, p)
  {
    var k :| k in w.tree.kids[p] && k != c &&
      (w.ids[k] == w.ids[c] || (w.kinds[p] == Factory && w.kinds[k] == w.kinds[c]));
    assert k in Elems(w.tree.kids[p]) + {c};
  }

  lemma AppendedKids<T>(f: Forest<T>, p: T, c: T)
    requires Linked(f) && p in f.kids && c in f.kids
    ensures p in AppendChild(f, p, c).kids && Elems(AppendChild(f, p, c).kids[p]) == Elems(f.kids[p]) + {c}
  {
    AppendChildAt(f, p, c, p);
    ElemsMoved(f.kids[p], c);
  }

  lemma ElemsMoved<T>(s: seq<T>, x: T)
    ensures Elems(Without(s, x) + [x]) == Elems(s) + {x}
  {
    var after := Elems(Without(s, x) + [x]);
    forall y ensures y in after <==> y == x || y in s {
      WithoutIn(s, x, y);
      if y == x { assert (Without(s, x) + [x])[|Without(s, x)|] == y; }
    }
    assert after == Elems(s) + {x};
  }

  /** Validation accepts a child if and only if its id is valid, no circle arises, and the children that the
      parent has afterwards differ as they should. */
  lemma AcceptedExactly<T>(w: World<T>, p: T, c: T)
    requires Typed(w) && p in w.ids && c in w.ids && WellSorted(w, Elems(w.tree.kids[p]), p)
    ensures p in AppendChild(w.tree, p, c).kids
    ensures Validate(w, p, c, Some(w.ids[c])) == None <==>
      && ValidId(w.ids[c]) && WellFormed(AppendChild(w.tree, p, c))
      && WellSorted(w, Elems(AppendChild(w.tree, p, c).kids[p]), p)
  {
    AppendChildWellFormed(w.tree, p, c);
    AppendedKids(w.tree, p, c);
    NoDuplicate(w, p, c);
  }

  /** Another child bears the id; no id is borne by none. */
  ghost predicate Borne<T>(w: World<T>, p: T, c: T, id: Option<string>)
    requires Typed(w) && p in w.ids
  {
    id.Some? && exists k :: k in w.tree.kids[p] && k != c && w.ids[k] == id.value
  }

  /** Another child is of the same class. */
  ghost predicate Represented<T>(w: World<T>, p: T, c: T)
    requires Typed(w) && p in w.ids && c in w.ids
  {
    exists k :: k in w.tree.kids[p] && k != c && w.kinds[k] == w.kinds[c]
  }

  /** Which objection validation raises: to the id before the others, and to a circle last. No id stands for
      `null`, which is neither invalid nor borne by another child. */
  lemma ObjectionExactly<T>(w: World<T>, p: T, c: T, id: Option<string>)
    requires Typed(w) && p in w.ids && c in w.ids
    ensures var e := Validate(w, p, c, id);
      && (e == Some(IllegalId) <==> id.Some? && !ValidId(id.value))
      && (e == Some(IllegalDuplicate) <==>
            && (id.Some? ==> ValidId(id.value)) && w.kinds[p] != Trash
            && (Borne(w, p, c, id) || (w.kinds[p] == Factory && Represented(w, p, c))))
      && (e == Some(IllegalNesting) ==> !WellFormed(AppendChild(w.tree, p, c)))
      && (e == None ==> WellFormed(AppendChild(w.tree, p, c)))
  {
    AppendChildWellFormed(w.tree, p, c);
    assert w.kinds[p] != Trash ==>
      (Duplicate(w, p, c, id) <==> Borne(w, p, c, id) || (w.kinds[p] == Factory && Represented(w, p, c)));
  }

  // ---------- printed paths and single ids ----------

  /** The ids of some nodes that are not empty, in order. */
  ghost function SaidIds<T>(ids: map<T, string>, nodes: seq<T>): seq<string>
    requires forall n | n in nodes :: n in ids
  {
    if nodes == [] then []
    else
      var last := nodes[|nodes| - 1];
      SaidIds(ids, nodes[..|nodes| - 1]) + if ids[last] == "" then [] else [ids[last]]
  }

  lemma SaidMore<T>(ids: map<T, string>, nodes: seq<T>, n: T)
    requires (forall m | m in nodes :: m in ids) && n in ids
    ensures Join(SaidIds(ids, nodes + [n])) == Join(SaidIds(ids, nodes)) + if ids[n] == "" then "" else "/" + ids[n]
  {
    assert (nodes + [n])[..|nodes|] == nodes;
    var said := SaidIds(ids, nodes);
    if ids[n] == "" {
      assert said + [] == said && Join(said) + "" == Join(said);
    } else {
      JoinOneMore(said, ids[n]);
    }
  }

  /** The path of a node is made of the ids of the nodes above it and its own, from the top down, each after
      a slash, without the empty ones; of a node without parent it is the slash and the id. */
  lemma {:induction false} PathIsWay<T>(s: Site<T>, n: T, above: seq<T>)
    requires Proper(s) && n in s.ids && DownTo(s.tree.parent, above, n)
    ensures PathFromTop(s, n) == Join(SaidIds(s.ids, above + [n]))
    ensures GetPath(s, n) == if above == [] then "/" + s.ids[n] else Join(SaidIds(s.ids, above + [n]))
    decreases |above|
  {
    SaidMore(s.ids, above, n);
    if above != [] {
      var front, p := above[..|above| - 1], above[|above| - 1];
      assert above == front + [p];
      PathIsWay(s, p, front);
    }
  }

  /** A bare id leads to the first child that bears it, if there is one. */
  lemma {:induction false} FirstWithIdIs<T>(ids: map<T, string>, kids: seq<T>, id: string, i: nat)
    requires (forall k | k in kids :: k in ids) && i < |kids| && ids[kids[i]] == id
    requires forall j | 0 <= j < i :: ids[kids[j]] != id
    ensures FirstWithId(ids, kids, id) == Found(kids[i])
  {
    if i > 0 {
      assert forall j | 0 <= j < i - 1 :: kids[1..][j] == kids[j + 1];
      FirstWithIdIs(ids, kids[1..], id, i - 1);
    }
  }
}
