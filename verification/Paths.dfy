/** Printing the path of a node and resolving a path to a node. */
module Paths {
  import opened Sequences
  import opened Chains
  import opened Forests
  import opened Patterns

  // ---------- path strings ----------

  /** The pieces between slashes, empty ones included. */
  function SplitAll(s: string): (r: seq<string>)
    ensures |r| > 0
    ensures forall x | x in r :: '/' !in x && |x| <= |s| && ('/' in s ==> |x| < |s|)
  {
    if s == "" then [""]
    else
      var r := SplitAll(s[1..]);
      if s[0] == '/' then [""] + r else [[s[0]] + r[0]] + r[1..]
  }

  function DropTrailingEmpty(r: seq<string>): (t: seq<string>)
    ensures forall x | x in t :: x in r
  {
    if r != [] && r[|r| - 1] == "" then DropTrailingEmpty(r[..|r| - 1]) else r
  }

  /** `String.split("/")`: no empty pieces at the end, but a string without slash stays whole. */
  function Split(s: string): (r: seq<string>)
    ensures forall x | x in r :: '/' !in x && |x| <= |s| && ('/' in s ==> |x| < |s|)
  {
    if '/' in s then DropTrailingEmpty(SplitAll(s)) else [s]
  }

  function Join(names: seq<string>): string {
    if names == [] then "" else "/" + (names[0] + Join(names[1..]))
  }

  ghost predicate SlashFree(names: seq<string>) {
    forall x | x in names :: '/' !in x
  }

  lemma SplitSlash(t: string)
    ensures SplitAll("/" + t) == [""] + SplitAll(t)
  {
    assert ("/" + t)[1..] == t;
  }

  lemma SplitLetter(c: char, t: string)
    requires c != '/'
    ensures SplitAll([c] + t) == [[c] + SplitAll(t)[0]] + SplitAll(t)[1..]
  {
    assert ([c] + t)[1..] == t;
  }

  lemma {:induction false} SplitAtSlash(a: string, r: string)
    requires '/' !in a
    ensures SplitAll(a + ("/" + r)) == [a] + SplitAll(r)
  {
    if a == "" {
      assert a + ("/" + r) == "/" + r;
      SplitSlash(r);
    } else {
      SplitAtSlash(a[1..], r);
      SplitLetter(a[0], a[1..] + ("/" + r));
      FirstApart(a, "/" + r);
      assert [a[0]] + a[1..] == a;
    }
  }

  lemma {:induction false} SplitWhole(a: string)
    requires '/' !in a
    ensures SplitAll(a) == [a]
  {
    if a != "" {
      SplitWhole(a[1..]);
      assert [a[0]] + a[1..] == a;
    }
  }

  lemma JoinTail(names: seq<string>)
    requires |names| > 1
    ensures Join(names)[1..] == names[0] + ("/" + Join(names[1..])[1..])
  {
    var r := Join(names[1..]);
    assert r == "/" + r[1..];
    assert Join(names) == "/" + (names[0] + r);
  }

  lemma {:induction false} SplitAllJoin(names: seq<string>)
    requires names != [] && SlashFree(names)
    ensures SplitAll(Join(names)[1..]) == names
  {
    var rest := names[1..];
    assert names[0] in names;
    if rest == [] {
      assert Join(names)[1..] == names[0];
      SplitWhole(names[0]);
    } else {
      JoinTail(names);
      SplitAtSlash(names[0], Join(rest)[1..]);
      assert forall x | x in rest :: x in names;
      SplitAllJoin(rest);
    }
  }

  /** Splitting what was joined gives the names back, provided the last one is not empty. */
  lemma SplitJoin(names: seq<string>)
    requires names != [] && SlashFree(names) && names[|names| - 1] != ""
    ensures Split(Join(names)[1..]) == names
  {
    SplitAllJoin(names);
    var s := Join(names)[1..];
    if '/' !in s {
      SplitWhole(s);
    }
  }

  /** With its first slash there is an empty piece before them. */
  lemma SplitJoinWhole(names: seq<string>)
    requires names != [] && SlashFree(names) && names[|names| - 1] != ""
    ensures Split(Join(names)) == [""] + names
  {
    SplitAllJoin(names);
    SplitSlash(Join(names)[1..]);
    assert Join(names) == "/" + Join(names)[1..];
  }

  lemma {:induction false} JoinOneMore(names: seq<string>, x: string)
    ensures Join(names + [x]) == Join(names) + ("/" + x)
  {
    if names == [] {
      assert Join([x]) == "/" + x + Join([]);
    } else {
      assert (names + [x])[1..] == names[1..] + [x];
      JoinOneMore(names[1..], x);
    }
  }

  // ---------- paths of nodes ----------

  /** What path resolution can see: the tree, the ids and which nodes accept children. */
  datatype Site<T(==)> = Site(tree: Forest<T>, ids: map<T, string>, containers: set<T>)

  ghost predicate Proper<T>(s: Site<T>) {
    WellFormed(s.tree) && s.ids.Keys == s.tree.kids.Keys
  }

  /** The outcome of a lookup; `Crash` is an exception: of `..` on a lone leaf, or of a path of the top that
      is no pattern. */
  datatype Lookup<+T> = Found(node: T) | Missing | Crash

  ghost function Top<T>(s: Site<T>, n: T): (t: T)
    requires Proper(s) && n in s.ids
    ensures t in s.ids && s.tree.parent[t].None? && Under(s.tree.parent, n, t)
    decreases Depth(s.tree.parent, n)
  {
    UnderStep(s.tree.parent, n, n);
    match s.tree.parent[n]
    case None => n
    case Some(p) =>
      DepthOfParent(s.tree.parent, n);
      UnderStep(s.tree.parent, n, Top(s, p));
      Top(s, p)
  }

  /** The ids from the top down to `n`, each after a slash, empty ones left out. */
  ghost function PathFromTop<T>(s: Site<T>, n: T): string
    requires Proper(s) && n in s.ids
    decreases Depth(s.tree.parent, n), 1
  {
    PathAbove(s, n) + if s.ids[n] == "" then "" else "/" + s.ids[n]
  }

  ghost function PathAbove<T>(s: Site<T>, n: T): string
    requires Proper(s) && n in s.ids
    decreases Depth(s.tree.parent, n), 0
  {
    match s.tree.parent[n]
    case None => ""
    case Some(p) => DepthOfParent(s.tree.parent, n); PathFromTop(s, p)
  }

  ghost function GetPath<T>(s: Site<T>, n: T): string
    requires Proper(s) && n in s.ids
  {
    if s.tree.parent[n].None? then "/" + s.ids[n] else PathFromTop(s, n)
  }

  /** The first of `kids` with the given id. */
  ghost function FirstWithId<T>(ids: map<T, string>, kids: seq<T>, id: string): (r: Lookup<T>)
    requires forall k | k in kids :: k in ids
    ensures r.Found? ==> r.node in kids && ids[r.node] == id
  {
    if kids == [] then Missing
    else if ids[kids[0]] == id then Found(kids[0])
    else FirstWithId(ids, kids[1..], id)
  }

  ghost function ChildById<T>(s: Site<T>, n: T, id: string): (r: Lookup<T>)
    requires Proper(s) && n in s.ids
    ensures r.Found? ==> r.node in s.ids
  {
    FirstWithId(s.ids, s.tree.kids[n], id)
  }

  /** One segment of a path, seen from `n`. */
  ghost function Follow<T>(s: Site<T>, n: T, segment: string): (r: Lookup<T>)
    requires Proper(s) && n in s.ids
    ensures r.Found? ==> r.node in s.ids
  {
    var up := s.tree.parent;
    if segment == "" then Found(n)
    else if segment == "." then
      Found(if n in s.containers || up[n].None? then n else up[n].value)
    else if segment == ".." then
      if n in s.containers then Found(if up[n].None? then n else up[n].value)
      else if up[n].None? then Crash
      else Found(if up[up[n].value].None? then n else up[up[n].value].value)
    else ChildById(s, n, segment)
  }

  ghost function Walk<T>(s: Site<T>, n: T, segments: seq<string>): (r: Lookup<T>)
    requires Proper(s) && n in s.ids
    ensures r.Found? ==> r.node in s.ids
  {
    if segments == [] then Found(n)
    else match Follow(s, n, segments[0])
      case Found(m) => Walk(s, m, segments[1..])
      case other => other
  }

  ghost function GetChild<T>(s: Site<T>, n: T, path: string): (r: Lookup<T>)
    requires Proper(s) && n in s.ids
    ensures r.Found? ==> r.node in s.ids
  {
    if path == "" then Found(n)
    else if '/' !in path then ChildById(s, n, path)
    else if path[0] == '/' then
      match RemoveFirst(path, GetPath(s, Top(s, n)))
      case None => Crash
      case Some(rest) => Walk(s, Top(s, n), Split(rest))
    else Walk(s, n, Split(path))
  }

  // ---------- the round trip ----------

  /** An id that a path can carry: not empty, no slash, not one of the two dotted segments. */
  ghost predicate Plain(id: string) {
    id != "" && '/' !in id && id != "." && id != ".."
  }

  ghost predicate UniqueId<T>(s: Site<T>, n: T)
    requires Proper(s) && n in s.ids
  {
    s.tree.parent[n].Some? ==>
      forall k | k in s.tree.kids[s.tree.parent[n].value] && k != n :: s.ids[k] != s.ids[n]
  }

  /** Every node on the way to `n` below the top has a plain id, unique among its siblings. */
  ghost predicate PlainBelow<T>(s: Site<T>, n: T)
    requires Proper(s) && n in s.ids
    decreases Depth(s.tree.parent, n)
  {
    match s.tree.parent[n]
    case None => true
    case Some(p) =>
      DepthOfParent(s.tree.parent, n);
      Plain(s.ids[n]) && UniqueId(s, n) && PlainBelow(s, p)
  }

  /** As a pattern the id takes itself: of the characters that have a meaning in patterns it has none
      but `.`, and of those `validateId` lets only the star pass. */
  ghost predicate Quiet(id: string) {
    forall c | c in id :: c !in ['*', '\\', '^', '$', '|', '?', '+', '(', ')', '[', '{']
  }

  /** And the top has a quiet id. */
  ghost predicate Printable<T>(s: Site<T>, n: T)
    requires Proper(s) && n in s.ids
  {
    PlainBelow(s, n) && Quiet(s.ids[Top(s, n)])
  }

  ghost function Names<T>(s: Site<T>, n: T): seq<string>
    requires Proper(s) && n in s.ids
    decreases Depth(s.tree.parent, n)
  {
    match s.tree.parent[n]
    case None => []
    case Some(p) => DepthOfParent(s.tree.parent, n); Names(s, p) + [s.ids[n]]
  }

  /** What the id of the top adds to the paths of the nodes below it. */
  ghost function TopPart<T>(s: Site<T>, n: T): string
    requires Proper(s) && n in s.ids
  {
    if s.ids[Top(s, n)] == "" then "" else "/" + s.ids[Top(s, n)]
  }

  lemma {:induction false} NamesJoined<T>(s: Site<T>, n: T)
    requires Proper(s) && n in s.ids && PlainBelow(s, n)
    ensures PathFromTop(s, n) == TopPart(s, n) + Join(Names(s, n))
    decreases Depth(s.tree.parent, n)
  {
    match s.tree.parent[n] {
      case None =>
      case Some(p) =>
        DepthOfParent(s.tree.parent, n);
        NamesJoined(s, p);
        JoinOneMore(Names(s, p), s.ids[n]);
    }
  }

  lemma {:induction false} NamesPlain<T>(s: Site<T>, n: T)
    requires Proper(s) && n in s.ids && PlainBelow(s, n)
    ensures SlashFree(Names(s, n))
    decreases Depth(s.tree.parent, n)
  {
    match s.tree.parent[n] {
      case None =>
      case Some(p) =>
        DepthOfParent(s.tree.parent, n);
        NamesPlain(s, p);
    }
  }

  lemma {:induction false} WalkFurther<T>(s: Site<T>, n: T, segments: seq<string>, x: string)
    requires Proper(s) && n in s.ids && Walk(s, n, segments).Found?
    ensures Walk(s, n, segments + [x]) == Follow(s, Walk(s, n, segments).node, x)
  {
    if segments != [] {
      assert (segments + [x])[1..] == segments[1..] + [x];
      WalkFurther(s, Follow(s, n, segments[0]).node, segments[1..], x);
    }
  }

  lemma {:induction false} FirstIsOnly<T>(ids: map<T, string>, kids: seq<T>, n: T)
    requires forall k | k in kids :: k in ids
    requires n in kids && forall k | k in kids && k != n :: ids[k] != ids[n]
    ensures FirstWithId(ids, kids, ids[n]) == Found(n)
  {
    if kids[0] != n { FirstIsOnly(ids, kids[1..], n); }
  }

  lemma ChildFound<T>(s: Site<T>, n: T, p: T)
    requires Proper(s) && n in s.ids && s.tree.parent[n] == Some(p) && p in s.ids && UniqueId(s, n)
    ensures ChildById(s, p, s.ids[n]) == Found(n)
  {
    var kids := s.tree.kids[p];
    assert n in kids;
    FirstIsOnly(s.ids, kids, n);
  }

  lemma {:induction false} WalkNames<T>(s: Site<T>, n: T)
    requires Proper(s) && n in s.ids && PlainBelow(s, n)
    ensures Walk(s, Top(s, n), Names(s, n)) == Found(n)
    decreases Depth(s.tree.parent, n)
  {
    match s.tree.parent[n] {
      case None =>
      case Some(p) =>
        DepthOfParent(s.tree.parent, n);
        WalkNames(s, p);
        WalkFurther(s, Top(s, p), Names(s, p), s.ids[n]);
        ChildFound(s, n, p);
    }
  }

  /** The path printed for a node below a printable parent is the part of the top and then the ids on
      the way from it. */
  lemma PrintedPath<T>(s: Site<T>, n: T, p: T)
    requires Proper(s) && n in s.ids && s.tree.parent[n] == Some(p) && p in s.ids && PlainBelow(s, p)
    requires s.ids[n] != ""
    ensures GetPath(s, n) == TopPart(s, n) + Join(Names(s, p) + [s.ids[n]])
  {
    DepthOfParent(s.tree.parent, n);
    NamesJoined(s, p);
    JoinOneMore(Names(s, p), s.ids[n]);
    assert PathAbove(s, n) == PathFromTop(s, p);
    assert PathFromTop(s, n) == PathAbove(s, n) + ("/" + s.ids[n]);
    Regroup(TopPart(s, p), Join(Names(s, p)), "/" + s.ids[n]);
  }

  /** What is left of it without the path of the top. */
  lemma PrintedRest<T>(s: Site<T>, n: T, p: T)
    requires Proper(s) && n in s.ids && s.tree.parent[n] == Some(p) && p in s.ids && Printable(s, p)
    requires s.ids[n] != ""
    ensures GetPath(s, n) != "" && GetPath(s, n)[0] == '/'
    ensures RemoveFirst(GetPath(s, n), "/" + s.ids[Top(s, n)]) ==
      Some(Join(Names(s, p) + [s.ids[n]])[if s.ids[Top(s, n)] == "" then 1 else 0..])
  {
    DepthOfParent(s.tree.parent, n);
    PrintedPath(s, n, p);
    var joined := Join(Names(s, p) + [s.ids[n]]);
    if s.ids[Top(s, n)] == "" {
      assert joined == "/" + joined[1..] == TopPart(s, n) + joined;
      RemovePrefix("/", joined[1..]);
      assert "/" + s.ids[Top(s, n)] == "/";
    } else {
      RemovePrefix("/" + s.ids[Top(s, n)], joined);
      assert joined[0..] == joined;
    }
  }

  /** It splits into those ids; after a top whose id is not empty, an empty piece comes first. */
  lemma PrintedNames<T>(s: Site<T>, n: T, p: T)
    requires Proper(s) && n in s.ids && s.tree.parent[n] == Some(p) && p in s.ids && Printable(s, p)
    requires s.ids[n] != "" && '/' !in s.ids[n]
    ensures RemoveFirst(GetPath(s, n), "/" + s.ids[Top(s, n)]).Some?
    ensures var names := Names(s, p) + [s.ids[n]];
      Split(RemoveFirst(GetPath(s, n), "/" + s.ids[Top(s, n)]).value) ==
        if s.ids[Top(s, n)] == "" then names else [""] + names
  {
    PrintedRest(s, n, p);
    NamesPlain(s, p);
    var names := Names(s, p) + [s.ids[n]];
    if s.ids[Top(s, n)] == "" {
      SplitJoin(names);
    } else {
      SplitJoinWhole(names);
      assert Join(names)[0..] == Join(names);
    }
  }

  /** An empty piece leads nowhere. */
  lemma WalkEmpty<T>(s: Site<T>, n: T, segments: seq<string>)
    requires Proper(s) && n in s.ids
    ensures Walk(s, n, [""] + segments) == Walk(s, n, segments)
  {
    assert ([""] + segments)[1..] == segments;
  }

  lemma TopOfParent<T>(s: Site<T>, n: T, p: T)
    requires Proper(s) && n in s.ids && s.tree.parent[n] == Some(p) && p in s.ids
    ensures Top(s, n) == Top(s, p) && GetPath(s, Top(s, n)) == "/" + s.ids[Top(s, n)]
  {
    DepthOfParent(s.tree.parent, n);
  }

  lemma WalkPrinted<T>(s: Site<T>, n: T, p: T, names: seq<string>)
    requires Proper(s) && n in s.ids && s.tree.parent[n] == Some(p) && p in s.ids && PlainBelow(s, p)
    requires names == Names(s, p) + [s.ids[n]]
    ensures Walk(s, Top(s, p), names) == Walk(s, Top(s, p), [""] + names) == Follow(s, p, s.ids[n])
  {
    WalkNames(s, p);
    WalkFurther(s, Top(s, p), Names(s, p), s.ids[n]);
    WalkEmpty(s, Top(s, p), names);
  }

  /** Resolving that path, from anywhere in the tree, comes down to one step from the parent. */
  lemma ResolvePrinted<T>(s: Site<T>, x: T, n: T, p: T)
    requires Proper(s) && x in s.ids && n in s.ids && s.tree.parent[n] == Some(p) && p in s.ids
    requires Top(s, x) == Top(s, n) && Printable(s, p)
    requires s.ids[n] != "" && '/' !in s.ids[n]
    ensures GetChild(s, x, GetPath(s, n)) == Follow(s, p, s.ids[n])
  {
    PrintedRest(s, n, p);
    PrintedNames(s, n, p);
    TopOfParent(s, n, p);
    WalkPrinted(s, n, p, Names(s, p) + [s.ids[n]]);
  }

  lemma ResolveTop<T>(s: Site<T>, x: T)
    requires Proper(s) && x in s.ids && Quiet(s.ids[Top(s, x)])
    ensures GetChild(s, x, GetPath(s, Top(s, x))) == Found(Top(s, x))
  {
    var path := GetPath(s, Top(s, x));
    RemovePrefix(path, "");
    assert path + "" == path;
    assert GetPath(s, Top(s, Top(s, x))) == path;
    assert Split("") == [""] + [];
    WalkEmpty(s, Top(s, x), []);
  }

  /** Every printable node is found again under its path, from every node of its tree. */
  lemma PathRoundTrip<T>(s: Site<T>, x: T, n: T)
    requires Proper(s) && x in s.ids && n in s.ids && Top(s, x) == Top(s, n) && Printable(s, n)
    ensures GetChild(s, x, GetPath(s, n)) == Found(n)
  {
    match s.tree.parent[n] {
      case None =>
        ResolveTop(s, x);
      case Some(p) =>
        DepthOfParent(s.tree.parent, n);
        ResolvePrinted(s, x, n, p);
        ChildFound(s, n, p);
    }
  }

  /** Hence no two printable nodes of one tree share a path. */
  lemma PathsDistinct<T>(s: Site<T>, n: T, m: T)
    requires Proper(s) && n in s.ids && m in s.ids && Top(s, n) == Top(s, m)
    requires Printable(s, n) && Printable(s, m) && GetPath(s, n) == GetPath(s, m)
    ensures n == m
  {
    PathRoundTrip(s, n, n);
    PathRoundTrip(s, n, m);
  }

  /** The two dotted ids pass `validateId`, yet a node that bears one is never found under its path:
      below a printable parent the round trip holds exactly for the undotted ids. */
  lemma DottedIdsLost<T>(s: Site<T>, x: T, n: T, p: T)
    requires Proper(s) && x in s.ids && n in s.ids && s.tree.parent[n] == Some(p) && p in s.ids
    requires Top(s, x) == Top(s, n) && Printable(s, p)
    requires s.ids[n] != "" && '/' !in s.ids[n] && UniqueId(s, n)
    ensures GetChild(s, x, GetPath(s, n)) == Found(n) <==> s.ids[n] != "." && s.ids[n] != ".."
  {
    ResolvePrinted(s, x, n, p);
    ChildFound(s, n, p);
    var up := s.tree.parent;
    DepthOfParent(up, n);
    if up[p].Some? {
      DepthOfParent(up, p);
      if up[up[p].value].Some? { DepthOfParent(up, up[p].value); }
    }
  }

  // ---------- a star in the id of the top ----------

  ghost function AllStars(names: seq<string>): nat {
    if names == [] then 0 else Stars(names[0]) + AllStars(names[1..])
  }

  lemma {:induction false} AllStarsMore(names: seq<string>, x: string)
    ensures AllStars(names + [x]) == AllStars(names) + Stars(x)
  {
    if names != [] {
      assert (names + [x])[1..] == names[1..] + [x];
      AllStarsMore(names[1..], x);
    }
  }

  lemma {:induction false} SplitAllStars(s: string)
    ensures AllStars(SplitAll(s)) == Stars(s)
    ensures '.' !in s ==> forall x | x in SplitAll(s) :: '.' !in x
  {
    if s != "" {
      var r := SplitAll(s[1..]);
      SplitAllStars(s[1..]);
      if s[0] == '/' {
        assert ([""] + r)[1..] == r;
      } else {
        assert ([[s[0]] + r[0]] + r[1..])[1..] == r[1..];
        StarsAdd([s[0]], r[0]);
      }
    }
  }

  lemma {:induction false} DropStars(r: seq<string>)
    ensures AllStars(DropTrailingEmpty(r)) == AllStars(r)
  {
    if r != [] && r[|r| - 1] == "" {
      DropStars(r[..|r| - 1]);
      AllStarsMore(r[..|r| - 1], "");
      assert r == r[..|r| - 1] + [""];
    }
  }

  lemma SplitStars(s: string)
    ensures AllStars(Split(s)) == Stars(s)
    ensures '.' !in s ==> forall x | x in Split(s) :: '.' !in x
  {
    SplitAllStars(s);
    DropStars(SplitAll(s));
    if '/' !in s { SplitWhole(s); }
  }

  /** A path of the top and of all nodes below it starts with the part of the top. */
  lemma {:induction false} PathStarts<T>(s: Site<T>, n: T)
    requires Proper(s) && n in s.ids
    ensures TopPart(s, n) <= PathFromTop(s, n)
    ensures Stars(PathFromTop(s, n)) == Stars(s.ids[Top(s, n)]) + AllStars(Names(s, n))
    decreases Depth(s.tree.parent, n)
  {
    var own := if s.ids[n] == "" then "" else "/" + s.ids[n];
    StarsAdd("/", s.ids[n]);
    StarsAdd(PathAbove(s, n), own);
    if s.tree.parent[n].Some? {
      DepthOfParent(s.tree.parent, n);
      PathStarts(s, s.tree.parent[n].value);
      AllStarsMore(Names(s, s.tree.parent[n].value), s.ids[n]);
    }
  }

  lemma ChildNames<T>(s: Site<T>, n: T, id: string)
    requires Proper(s) && n in s.ids && ChildById(s, n, id).Found?
    ensures Names(s, ChildById(s, n, id).node) == Names(s, n) + [id]
  {
    assert ChildById(s, n, id).node in s.tree.kids[n];
  }

  /** Without dotted segments a walk leads down, and the ids on the way are the segments. */
  lemma {:induction false} WalkStars<T>(s: Site<T>, n: T, segments: seq<string>)
    requires Proper(s) && n in s.ids && Walk(s, n, segments).Found? && forall x | x in segments :: '.' !in x
    ensures AllStars(Names(s, Walk(s, n, segments).node)) == AllStars(Names(s, n)) + AllStars(segments)
  {
    if segments != [] {
      var x := segments[0];
      assert x in segments;
      WalkStars(s, Follow(s, n, x).node, segments[1..]);
      if x != "" {
        ChildNames(s, n, x);
        AllStarsMore(Names(s, n), x);
      }
    }
  }

  lemma RestStars(path: string, pattern: string)
    requires '.' !in path && '.' !in pattern && RemoveFirst(path, pattern).Some?
    ensures AllStars(Split(RemoveFirst(path, pattern).value)) == Stars(path)
    ensures forall x | x in Split(RemoveFirst(path, pattern).value) :: '.' !in x
  {
    RemoveStarless(path, pattern);
    if '.' in RemoveFirst(path, pattern).value { CutIn(Pieces(pattern).value, path, '.'); }
    SplitStars(RemoveFirst(path, pattern).value);
  }

  lemma StarredPath<T>(s: Site<T>, n: T)
    requires Proper(s) && n in s.ids && '*' in s.ids[Top(s, n)] && '.' !in GetPath(s, n)
    ensures GetPath(s, n) != "" && GetPath(s, n)[0] == '/' && '.' !in s.ids[Top(s, n)]
    ensures Stars(GetPath(s, n)) > AllStars(Names(s, n))
  {
    PathStarts(s, n);
    var id, path := s.ids[Top(s, n)], GetPath(s, n);
    assert path == PathFromTop(s, n) && TopPart(s, n) == "/" + id;
    assert forall i | 0 <= i < |id| :: path[i + 1] == id[i];
    StarsNone(id);
  }

  /** A star stands for a repetition when the path of the top is cut off the path of a node, so it is left
      over: if no id has a dot, nothing is found under its path once the id of the top has a star. */
  lemma StarredTopLost<T>(s: Site<T>, x: T, n: T)
    requires Proper(s) && x in s.ids && n in s.ids && Top(s, x) == Top(s, n)
    requires '*' in s.ids[Top(s, n)] && '.' !in GetPath(s, n)
    ensures GetChild(s, x, GetPath(s, n)) != Found(n)
  {
    var t, path := Top(s, n), GetPath(s, n);
    StarredPath(s, n);
    var rest := RemoveFirst(path, "/" + s.ids[t]);
    if rest.Some? && Walk(s, t, Split(rest.value)).Found? {
      RestStars(path, "/" + s.ids[t]);
      WalkStars(s, t, Split(rest.value));
    }
  }

  /** An example: a node x below a top a*. */
  ghost function Starred(): Site<int> {
    Site(Forest(map[0 := None, 1 := Some(0)], map[0 := [1], 1 := []], {}), map[0 := "a*", 1 := "x"], {0, 1})
  }

  lemma StarredProper()
    ensures Proper(Starred())
  {
    var f := Starred().tree;
    assert Owned(f) && Listed(f);
    forall n | n in f.parent ensures Ends(f.parent, n) { assert Grounded(f.parent, n, 1); }
  }

  lemma StarredLost()
    ensures Proper(Starred()) && GetPath(Starred(), 1) == "/a*/x" && PlainBelow(Starred(), 1)
    ensures GetChild(Starred(), 0, "/a*/x") != Found(1)
  {
    var s := Starred();
    StarredProper();
    assert Top(s, 0) == 0 && Top(s, 1) == Top(s, 0);
    assert PathFromTop(s, 0) == "/a*";
    StarredTopLost(s, 0, 1);
  }

  /** Where no id has a dot, and the id of the top has only characters that validation lets pass, a node
      with plain ids below the top is found under its path exactly if the id of the top has no star. */
  lemma PathRoundTripExactly<T>(s: Site<T>, x: T, n: T)
    requires Proper(s) && x in s.ids && n in s.ids && Top(s, x) == Top(s, n) && PlainBelow(s, n)
    requires '.' !in GetPath(s, n) && forall c | c in s.ids[Top(s, n)] :: c == '*' || Quiet([c])
    ensures GetChild(s, x, GetPath(s, n)) == Found(n) <==> '*' !in s.ids[Top(s, n)]
  {
    if '*' in s.ids[Top(s, n)] {
      StarredTopLost(s, x, n);
    } else {
      PathRoundTrip(s, x, n);
    }
  }

  // ---------- nodes elsewhere do not matter ----------

  /** `t` shows every node of `s` as `s` does, and may show more nodes. */
  ghost predicate Agrees<T>(s: Site<T>, t: Site<T>)
    requires Proper(s) && Proper(t)
  {
    s.ids.Keys <= t.ids.Keys &&
    forall m | m in s.ids ::
      && t.tree.parent[m] == s.tree.parent[m] && t.tree.kids[m] == s.tree.kids[m]
      && t.ids[m] == s.ids[m] && (m in t.containers <==> m in s.containers)
  }

  lemma {:induction false} SameTop<T>(s: Site<T>, t: Site<T>, n: T)
    requires Proper(s) && Proper(t) && Agrees(s, t) && n in s.ids
    ensures Top(t, n) == Top(s, n) && PathFromTop(t, n) == PathFromTop(s, n)
    decreases Depth(s.tree.parent, n)
  {
    if s.tree.parent[n].Some? {
      DepthOfParent(s.tree.parent, n);
      SameTop(s, t, s.tree.parent[n].value);
    }
  }

  lemma {:induction false} SameFirst<T>(a: map<T, string>, b: map<T, string>, kids: seq<T>, id: string)
    requires forall k | k in kids :: k in a && k in b && a[k] == b[k]
    ensures FirstWithId(a, kids, id) == FirstWithId(b, kids, id)
  {
    if kids != [] { SameFirst(a, b, kids[1..], id); }
  }

  lemma SameChild<T>(s: Site<T>, t: Site<T>, n: T, id: string)
    requires Proper(s) && Proper(t) && Agrees(s, t) && n in s.ids
    ensures ChildById(t, n, id) == ChildById(s, n, id)
  {
    SameFirst(s.ids, t.ids, s.tree.kids[n], id);
  }

  lemma {:induction false} SameWalk<T>(s: Site<T>, t: Site<T>, n: T, segments: seq<string>)
    requires Proper(s) && Proper(t) && Agrees(s, t) && n in s.ids
    ensures Walk(t, n, segments) == Walk(s, n, segments)
  {
    if segments != [] {
      SameChild(s, t, n, segments[0]);
      assert Follow(t, n, segments[0]) == Follow(s, n, segments[0]);
      if Follow(s, n, segments[0]).Found? {
        SameWalk(s, t, Follow(s, n, segments[0]).node, segments[1..]);
      }
    }
  }

  lemma SameGetChild<T>(s: Site<T>, t: Site<T>, n: T, path: string)
    requires Proper(s) && Proper(t) && Agrees(s, t) && n in s.ids
    ensures GetChild(t, n, path) == GetChild(s, n, path)
  {
    SameTop(s, t, n);
    SameTop(s, t, Top(s, n));
    SameChild(s, t, n, path);
    SameWalk(s, t, n, Split(path));
    if RemoveFirst(path, GetPath(s, Top(s, n))).Some? {
      SameWalk(s, t, Top(s, n), Split(RemoveFirst(path, GetPath(s, Top(s, n))).value));
    }
  }
}
