/** Guards: children of an ancestor that influence a node, found by looking upwards. */
module Guards {
  import opened Sequences
  import opened Chains
  import opened Forests
  import opened Runs
  import opened WriteBack
  import opened Deletion

  /** The nodes of one kind, in order. */
  ghost function OfKind<T>(kinds: map<T, Kind>, s: seq<T>, k: Kind): (r: seq<T>)
    requires forall x | x in s :: x in kinds
    ensures forall x | x in r :: x in s && kinds[x] == k
    ensures forall x | x in s && kinds[x] == k :: x in r
  {
    if s == [] then [] else (if kinds[s[0]] == k then [s[0]] else []) + OfKind(kinds, s[1..], k)
  }

  /** One turn of the filtering loop. */
  lemma OfKindNext<T>(kinds: map<T, Kind>, s: seq<T>, i: nat, k: Kind, r: seq<T>)
    requires i < |s| && forall x | x in s :: x in kinds
    ensures r + OfKind(kinds, s[i..], k) == (if kinds[s[i]] == k then r + [s[i]] else r) + OfKind(kinds, s[i + 1..], k)
  {
    assert s[i..][1..] == s[i + 1..];
  }

  lemma {:induction false} NoneOfKind<T>(kinds: map<T, Kind>, s: seq<T>, k: Kind)
    requires forall x | x in s :: x in kinds && kinds[x] != k
    ensures OfKind(kinds, s, k) == []
  {
    if s != [] { NoneOfKind(kinds, s[1..], k); }
  }

  ghost predicate Kinded<T>(f: Forest<T>, kinds: map<T, Kind>) {
    WellFormed(f) && kinds.Keys == f.kids.Keys
  }

  /** `getChildren` of one class. */
  ghost function KidsOfKind<T>(f: Forest<T>, kinds: map<T, Kind>, n: T, k: Kind): (r: seq<T>)
    requires Kinded(f, kinds) && n in f.kids
    ensures forall x | x in r :: x in f.kids && kinds[x] == k
  {
    assert forall x | x in f.kids[n] :: x in kinds;
    OfKind(kinds, f.kids[n], k)
  }

  /** The children of kind `k` of the first node, from `n` upwards, that has any. */
  ghost function UpwardGuards<T>(f: Forest<T>, kinds: map<T, Kind>, n: T, k: Kind): (r: Option<seq<T>>)
    requires Kinded(f, kinds) && n in f.kids
    ensures r.Some? ==> r.value != [] && forall x | x in r.value :: x in f.kids && kinds[x] == k
    decreases Depth(f.parent, n)
  {
    if KidsOfKind(f, kinds, n, k) != [] then Some(KidsOfKind(f, kinds, n, k))
    else match f.parent[n]
      case None => None
      case Some(p) => DepthOfParent(f.parent, n); UpwardGuards(f, kinds, p, k)
  }

  // ---------- the trash for a node ----------

  /** The trash that guards `c`: the first one among the guards found from its parent upwards. */
  ghost function TrashFor<T>(f: Forest<T>, kinds: map<T, Kind>, c: T): (t: Option<T>)
    requires Kinded(f, kinds) && c in f.kids
    ensures t.Some? ==> t.value in f.kids && kinds[t.value] == Trash
  {
    match f.parent[c]
    case None => None
    case Some(p) =>
      match UpwardGuards(f, kinds, p, Trash)
      case None => None
      case Some(guards) => assert guards[0] in guards; Some(guards[0])
  }

  /** A guard is a child of the node it was found from or of one of its ancestors. */
  lemma {:induction false} GuardAbove<T>(f: Forest<T>, kinds: map<T, Kind>, n: T, k: Kind, t: T) returns (q: T)
    requires Kinded(f, kinds) && n in f.kids
    requires UpwardGuards(f, kinds, n, k).Some? && t in UpwardGuards(f, kinds, n, k).value
    ensures q in f.kids && t in f.kids && f.parent[t] == Some(q) && Under(f.parent, n, q)
    decreases Depth(f.parent, n)
  {
    UnderStep(f.parent, n, n);
    if KidsOfKind(f, kinds, n, k) != [] {
      q := n;
      assert t in f.kids[n];
    } else {
      DepthOfParent(f.parent, n);
      q := GuardAbove(f, kinds, f.parent[n].value, k, t);
      UnderStep(f.parent, n, q);
    }
  }

  /** Moving a node into its trash is safe: the trash is not inside the node, and it is rooted just
      if the node is. */
  lemma TrashReady<T>(f: Forest<T>, kinds: map<T, Kind>, root: T, c: T)
    requires Kinded(f, kinds) && Sound(f, root)
    requires c in f.kids && c != root && kinds[c] != Trash && TrashFor(f, kinds, c).Some?
    ensures Ready(f, root, TrashFor(f, kinds, c).value, c)
    ensures Rooted(f, root, c) <==> Rooted(f, root, TrashFor(f, kinds, c).value)
  {
    var p, t := f.parent[c].value, TrashFor(f, kinds, c).value;
    ParentNotUnder(f.parent, c);
    var q := GuardAbove(f, kinds, p, Trash, t);
    UnderStep(f.parent, t, c);
    if Under(f.parent, q, c) { UnderTransitive(f.parent, p, q, c); }
    UnderStep(f.parent, c, root);
    UnderStep(f.parent, t, root);
    if q != root { RootedLikeTop(f, root, q, p); } else { UnderStep(f.parent, q, root); }
  }

  lemma OfKindFirst<T>(kinds: map<T, Kind>, x: T, s: seq<T>, k: Kind)
    requires x in kinds && forall y | y in s :: y in kinds
    ensures OfKind(kinds, [x] + s, k) == if kinds[x] == k then [x] + OfKind(kinds, s, k) else OfKind(kinds, s, k)
  {
    assert ([x] + s)[1..] == s;
  }

  lemma {:induction false} OfKindMinus<T>(kinds: map<T, Kind>, s: seq<T>, k: Kind, gone: set<T>)
    requires forall x | x in s :: x in kinds
    ensures OfKind(kinds, Minus(s, gone), k) == Minus(OfKind(kinds, s, k), gone)
  {
    if s != [] {
      var x, rest := s[0], s[1..];
      assert s == [x] + rest;
      OfKindMinus(kinds, rest, k, gone);
      MinusFirst(x, rest, gone);
      OfKindFirst(kinds, x, rest, k);
      OfKindFirst(kinds, x, Minus(rest, gone), k);
      MinusFirst(x, OfKind(kinds, rest, k), gone);
    }
  }

  lemma HeadKept<T>(all: seq<T>, gone: set<T>, t: T)
    requires [t] <= all && t !in gone
    ensures [t] <= Minus(all, gone)
  {
    assert all == [t] + all[1..];
  }

  lemma CutOffKinds<T>(f: Forest<T>, kinds: map<T, Kind>, gone: set<T>, q: T, k: Kind)
    requires Kinded(f, kinds) && Downward(f, gone) && q in f.kids && q !in gone
    ensures Kinded(CutOff(f, gone), kinds)
    ensures KidsOfKind(CutOff(f, gone), kinds, q, k) == Minus(KidsOfKind(f, kinds, q, k), gone)
  {
    CutOffWellFormed(f, gone);
    assert forall x | x in f.kids[q] :: x in kinds;
    OfKindMinus(kinds, f.kids[q], k, gone);
  }

  // ---------- access guards ----------

  /** What decides about access: the tree, the kinds, what references refer to, and which access
      objects are guarding at the moment. */
  datatype Gate<T(==)> = Gate(tree: Forest<T>, kinds: map<T, Kind>, targets: map<T, Option<T>>, guarding: set<T>)

  ghost predicate GateTyped<T>(g: Gate<T>) {
    && Kinded(g.tree, g.kinds) && g.targets.Keys == g.kinds.Keys
    && forall r | r in g.targets && g.targets[r].Some? :: g.targets[r].value in g.kinds
  }

  /** The access objects that some references refer to. */
  ghost function Referred<T>(g: Gate<T>, refs: seq<T>): (r: seq<T>)
    requires GateTyped(g) && forall x | x in refs :: x in g.kinds
    ensures forall x | x in r :: x in g.kinds && g.kinds[x] == Access
  {
    if refs == [] then []
    else
      var t := g.targets[refs[0]];
      (if t.Some? && g.kinds[t.value] == Access then [t.value] else []) + Referred(g, refs[1..])
  }

  /** The guards selected for `n`, active or not: access objects if there are any upwards, else
      those that the nearest references refer to. */
  ghost function Selected<T>(g: Gate<T>, n: T): (r: seq<T>)
    requires GateTyped(g) && n in g.kinds
    ensures forall x | x in r :: x in g.kinds && g.kinds[x] == Access
  {
    match UpwardGuards(g.tree, g.kinds, n, Access)
    case Some(guards) => guards
    case None =>
      match UpwardGuards(g.tree, g.kinds, n, Reference)
      case Some(refs) => Referred(g, refs)
      case None => []
  }

  /** The list of guards found upwards; an empty one stands for none. */
  ghost function Found<T>(g: Gate<T>, n: T, k: Kind): (r: seq<T>)
    requires GateTyped(g) && n in g.kinds
    ensures forall x | x in r :: x in g.kinds
  {
    match UpwardGuards(g.tree, g.kinds, n, k)
    case Some(guards) => guards
    case None => []
  }

  lemma SelectedIs<T>(g: Gate<T>, n: T)
    requires GateTyped(g) && n in g.kinds
    ensures Selected(g, n) ==
      if Found(g, n, Access) != [] then Found(g, n, Access) else Referred(g, Found(g, n, Reference))
  {}

  ghost function Active<T>(s: seq<T>, guarding: set<T>): (r: seq<T>) {
    if s == [] then [] else (if s[0] in guarding then [s[0]] else []) + Active(s[1..], guarding)
  }

  /** The active ones are what is left without the others, in order. */
  lemma {:induction false} ActiveIs<T>(s: seq<T>, guarding: set<T>, others: set<T>)
    requires forall x | x in s :: x in others <==> x !in guarding
    ensures Active(s, guarding) == Minus(s, others)
  {
    if s != [] { ActiveIs(s[1..], guarding, others); }
  }

  /** One turn of the loop over references. */
  lemma ReferredNext<T>(g: Gate<T>, refs: seq<T>, i: nat, r: seq<T>)
    requires GateTyped(g) && i < |refs| && forall x | x in refs :: x in g.kinds
    ensures r + Referred(g, refs[i..]) ==
      (var t := g.targets[refs[i]]; if t.Some? && g.kinds[t.value] == Access then r + [t.value] else r) +
      Referred(g, refs[i + 1..])
  {
    assert refs[i..][1..] == refs[i + 1..];
  }

  lemma ActiveNext<T>(s: seq<T>, guarding: set<T>, i: nat, r: seq<T>)
    requires i < |s|
    ensures r + Active(s[i..], guarding) == (if s[i] in guarding then r + [s[i]] else r) + Active(s[i + 1..], guarding)
  {
    assert s[i..][1..] == s[i + 1..];
  }

  /** What is remembered for some nodes is what would be selected for them anew. */
  ghost predicate GuardsRemembered<T>(g: Gate<T>, cache: map<T, seq<T>>) {
    GateTyped(g) && forall n {:trigger Recalls(g, cache, n)} | n in cache :: Recalls(g, cache, n)
  }

  ghost predicate Recalls<T>(g: Gate<T>, cache: map<T, seq<T>>, n: T) {
    GateTyped(g) && n in cache && n in g.kinds && cache[n] == Selected(g, n)
  }

  lemma GuardsRememberedMore<T>(g: Gate<T>, cache: map<T, seq<T>>, n: T)
    requires GuardsRemembered(g, cache) && n in g.kinds
    ensures GuardsRemembered(g, cache[n := Selected(g, n)]) && (n in cache ==> cache[n] == Selected(g, n))
  {
    assert n in cache ==> Recalls(g, cache, n);
    forall m | m in cache && m != n ensures Recalls(g, cache[n := Selected(g, n)], m) {
      assert Recalls(g, cache, m);
    }
  }

  /** `Authorizations.getGuards`: the active ones of the selected guards of the first node, from
      `n` upwards, that has an active one. */
  ghost function AccessGuards<T>(g: Gate<T>, n: T): Option<seq<T>>
    requires GateTyped(g) && n in g.kinds
    decreases Depth(g.tree.parent, n)
  {
    var active := Active(Selected(g, n), g.guarding);
    if active != [] then Some(active)
    else match g.tree.parent[n]
      case None => None
      case Some(p) => DepthOfParent(g.tree.parent, n); AccessGuards(g, p)
  }

  /** The active access objects directly inside `n`. */
  ghost function ActiveInside<T>(g: Gate<T>, n: T): seq<T>
    requires GateTyped(g) && n in g.kinds
  {
    Active(KidsOfKind(g.tree, g.kinds, n, Access), g.guarding)
  }

  /** The nearest level, from `n` upwards, that holds an active access object. */
  ghost function NearestActive<T>(g: Gate<T>, n: T): Option<seq<T>>
    requires GateTyped(g) && n in g.kinds
    decreases Depth(g.tree.parent, n)
  {
    if ActiveInside(g, n) != [] then Some(ActiveInside(g, n))
    else match g.tree.parent[n]
      case None => None
      case Some(p) => DepthOfParent(g.tree.parent, n); NearestActive(g, p)
  }

  /** No reference upwards of `n` refers to an access object. */
  ghost predicate AccessOnly<T>(g: Gate<T>, n: T)
    requires GateTyped(g) && n in g.kinds
    decreases Depth(g.tree.parent, n)
  {
    && Referred(g, KidsOfKind(g.tree, g.kinds, n, Reference)) == []
    && match g.tree.parent[n]
       case None => true
       case Some(p) => DepthOfParent(g.tree.parent, n); AccessOnly(g, p)
  }

  /** If there are active ones among the guards selected upwards, the nearest level with an active
      one is the level they came from; levels that have only inactive ones are passed over. */
  lemma {:induction false} UpwardIsNearest<T>(g: Gate<T>, n: T)
    requires GateTyped(g) && n in g.kinds
    ensures var u := UpwardGuards(g.tree, g.kinds, n, Access);
      && (u.None? ==> NearestActive(g, n).None?)
      && (u.Some? && Active(u.value, g.guarding) != [] ==> NearestActive(g, n) == Some(Active(u.value, g.guarding)))
    decreases Depth(g.tree.parent, n)
  {
    if KidsOfKind(g.tree, g.kinds, n, Access) == [] && g.tree.parent[n].Some? {
      DepthOfParent(g.tree.parent, n);
      UpwardIsNearest(g, g.tree.parent[n].value);
    }
  }

  lemma {:induction false} NoReferredUpwards<T>(g: Gate<T>, n: T)
    requires GateTyped(g) && n in g.kinds && AccessOnly(g, n)
    ensures var u := UpwardGuards(g.tree, g.kinds, n, Reference); u.Some? ==> Referred(g, u.value) == []
    decreases Depth(g.tree.parent, n)
  {
    if g.tree.parent[n].Some? {
      DepthOfParent(g.tree.parent, n);
      NoReferredUpwards(g, g.tree.parent[n].value);
    }
  }

  /** With access objects as the only guards, the answer is the nearest active ones, whatever
      inactive ones are in between. */
  lemma {:induction false} GuardsAreNearest<T>(g: Gate<T>, n: T)
    requires GateTyped(g) && n in g.kinds && AccessOnly(g, n)
    ensures AccessGuards(g, n) == NearestActive(g, n)
    decreases Depth(g.tree.parent, n)
  {
    UpwardIsNearest(g, n);
    NoReferredUpwards(g, n);
    if Active(Selected(g, n), g.guarding) == [] {
      if g.tree.parent[n].Some? {
        DepthOfParent(g.tree.parent, n);
        GuardsAreNearest(g, g.tree.parent[n].value);
      }
    }
  }
}
