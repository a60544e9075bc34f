/** The repository as a state machine: tree, ids, database rows and path cache, the operations on
    them, and what every run of permitted operations keeps. */
module Runs {
  import opened Sequences
  import opened Chains
  import opened Forests
  import opened Reorders
  import opened WriteBack
  import opened Paths

  datatype Kind = Folder | Trash | Factory | Reference | Access | Other(name: string, container: bool)

  predicate IsContainer(k: Kind) {
    match k
    case Folder | Trash | Factory => true
    case Reference | Access => false
    case Other(_, container) => container
  }

  datatype NodeError = IllegalId | IllegalDuplicate | IllegalNesting

  predicate UrlChar(c: char) {
    'a' <= c <= 'z' || 'A' <= c <= 'Z' || '0' <= c <= '9' || c in ".-*_"
  }

  /** An id is valid if URL encoding leaves it alone and it is not blank. */
  predicate ValidId(id: string) {
    id != "" && forall c | c in id :: UrlChar(c)
  }

  datatype World<T(==)> = World(
    tree: Forest<T>, ids: map<T, string>, kinds: map<T, Kind>,
    stored: map<T, Row<T>>, cache: map<string, T>)

  ghost function Look<T>(w: World<T>): Site<T> {
    Site(w.tree, w.ids, set n | n in w.kinds && IsContainer(w.kinds[n]))
  }

  ghost predicate Typed<T>(w: World<T>) {
    WellFormed(w.tree) && w.ids.Keys == w.kinds.Keys == w.tree.kids.Keys
  }

  // ---------- operations ----------

  /** Another child of `p` has the id already, or, in a factory, the same class. */
  ghost predicate Duplicate<T>(w: World<T>, p: T, c: T, id: Option<string>)
    requires Typed(w) && p in w.ids && c in w.ids
  {
    w.kinds[p] != Trash &&
    exists k :: k in w.tree.kids[p] && k != c &&
      (Some(w.ids[k]) == id || (w.kinds[p] == Factory && w.kinds[k] == w.kinds[c]))
  }

  /** `validateChild`: what is wrong with `c` under the given id as a child of `p`; no id stands for `null`. */
  ghost function Validate<T>(w: World<T>, p: T, c: T, id: Option<string>): Option<NodeError>
    requires Typed(w) && p in w.ids && c in w.ids
  {
    if id.Some? && !ValidId(id.value) then Some(IllegalId)
    else if Duplicate(w, p, c, id) then Some(IllegalDuplicate)
    else if Under(w.tree.parent, p, c) then Some(IllegalNesting)
    else None
  }

  datatype Op<T> =
    | Create(node: T, id: string, kind: Kind)
    | Rename(node: T, id: string)
    | SetParent(child: T, newParent: Option<T>)
    | Append(parent: T, child: T)
    | AppendAll(parent: T, children: seq<T>)
    | Save(node: T)
    | Delete(node: T)
    | GetByPath(path: string)

  /** The changed nodes are written to the database; the write also empties the path cache. */
  ghost function Flushed<T>(w: World<T>, root: T): World<T>
    requires Typed(w) && w.tree.changed <= w.tree.kids.Keys
  {
    w.(tree := w.tree.(changed := {}),
       stored := Flush(w.tree, root, w.stored, w.tree.changed),
       cache := map[])
  }

  /** The nodes an operation names exist, and the one it creates does not. */
  ghost predicate Applicable<T>(w: World<T>, op: Op<T>) {
    match op
    case Create(n, _, _) => n !in w.ids
    case Rename(n, _) => n in w.ids
    case SetParent(c, p) => c in w.ids && (p.Some? ==> p.value in w.ids)
    case Append(p, c) => p in w.ids && c in w.ids
    case AppendAll(p, cs) => p in w.ids && forall c | c in cs :: c in w.ids
    case Save(n) => n in w.ids
    case Delete(n) => n in w.ids
    case GetByPath(_) => true
  }

  /** Validation finds nothing to object to; operations without validation are always accepted. */
  ghost predicate Accepted<T>(w: World<T>, op: Op<T>)
    requires Typed(w) && Applicable(w, op)
  {
    match op
    case Append(p, c) => Validate(w, p, c, Some(w.ids[c])).None?
    case AppendAll(p, cs) => forall c | c in cs :: Validate(w, p, c, Some(w.ids[c])).None?
    case _ => true
  }

  ghost function Created<T>(f: Forest<T>, n: T): Forest<T> {
    Forest(f.parent[n := None], f.kids[n := []], f.changed)
  }

  ghost function Marked<T>(f: Forest<T>, n: T): Forest<T> {
    f.(changed := f.changed + {n})
  }

  ghost function AllMoved<T>(f: Forest<T>, p: T, cs: seq<T>): Forest<T>
    requires Linked(f) && p in f.kids && forall c | c in cs :: c in f.kids
  {
    Marked(AppendSeq(f, p, Arrange(f.kids[p], cs)), p)
  }

  /** No parent detaches, the old one is left alone, a new one appends. */
  ghost function Reparented<T>(f: Forest<T>, c: T, p: Option<T>): Forest<T>
    requires Linked(f) && c in f.kids && (p.Some? ==> p.value in f.kids)
  {
    match p
    case None => DetachParent(f, c)
    case Some(q) => if f.parent[c] == p then f else AppendChild(f, q, c)
  }

  /** The forest after an accepted operation, before anything is written. */
  ghost function Moved<T>(w: World<T>, op: Op<T>): (g: Forest<T>)
    requires Typed(w) && Applicable(w, op)
  {
    var f := w.tree;
    match op
    case Create(n, _, _) => Created(f, n)
    case SetParent(c, p) => Reparented(f, c, p)
    case Append(p, c) => AppendChild(f, p, c)
    case AppendAll(p, cs) => AllMoved(f, p, cs)
    case Save(n) => Marked(f, n)
    case Delete(n) => Isolate(f, n)
    case _ => f
  }

  predicate Writes<T>(op: Op<T>) {
    op.Append? || op.AppendAll? || op.Save? || op.Delete?
  }

  lemma AppendMoved<T>(f: Forest<T>, p: T, c: T)
    requires WellFormed(f) && p in f.kids && c in f.kids && !Under(f.parent, p, c)
    ensures WellFormed(AppendChild(f, p, c)) && AppendChild(f, p, c).kids.Keys == f.kids.Keys
  {
    AppendChildWellFormed(f, p, c);
    AppendChildAt(f, p, c, p);
  }

  lemma MarkedWellFormed<T>(f: Forest<T>, n: T)
    requires WellFormed(f) && n in f.kids
    ensures WellFormed(Marked(f, n))
  {}

  lemma AllMovedWellFormed<T>(f: Forest<T>, p: T, cs: seq<T>)
    requires WellFormed(f) && p in f.kids && forall c | c in cs :: c in f.kids && !Under(f.parent, p, c)
    ensures WellFormed(AllMoved(f, p, cs)) && AllMoved(f, p, cs).kids.Keys == f.kids.Keys
  {
    ArrangedWellFormed(f, p, cs);
    MarkedWellFormed(AppendSeq(f, p, Arrange(f.kids[p], cs)), p);
  }

  /** Whatever is written back is a well-formed forest: validation keeps circles out. */
  lemma WrittenWellFormed<T>(w: World<T>, op: Op<T>)
    requires Typed(w) && Applicable(w, op) && Accepted(w, op) && Writes(op)
    ensures WellFormed(Moved(w, op)) && Moved(w, op).kids.Keys == w.ids.Keys
  {
    match op
    case Append(p, c) => AppendMoved(w.tree, p, c);
    case AppendAll(p, cs) => AllMovedWellFormed(w.tree, p, cs);
    case Save(n) => MarkedWellFormed(w.tree, n);
    case Delete(n) => IsolateAcyclic(w.tree, n);
  }

  /** One operation. A rejected one changes nothing. */
  ghost function Step<T>(w: World<T>, root: T, op: Op<T>): World<T>
    requires Typed(w) && root in w.ids && Applicable(w, op)
  {
    if !Accepted(w, op) then w else
      var v := w.(tree := Moved(w, op));
      match op
      case Create(n, id, kind) => v.(ids := w.ids[n := id], kinds := w.kinds[n := kind])
      case Rename(n, id) => v.(ids := w.ids[n := id])
      case SetParent(_, _) => v
      case GetByPath(path) =>
        var found := GetChild(Look(w), root, path);
        if path !in w.cache && found.Found? then w.(cache := w.cache[path := found.node]) else w
      case _ => WrittenWellFormed(w, op); Flushed(v, root)
  }

  /** The single append: validated, appended, written. */
  lemma StepAppend<T>(w: World<T>, root: T, p: T, c: T)
    requires Typed(w) && root in w.ids && p in w.ids && c in w.ids && Validate(w, p, c, Some(w.ids[c])).None?
    ensures var v := w.(tree := Marked(AppendChild(w.tree, p, c), p));
      Typed(v) && Step(w, root, Append(p, c)) == Flushed(v, root)
  {
    AppendMoved(w.tree, p, c);
    assert Marked(AppendChild(w.tree, p, c), p) == AppendChild(w.tree, p, c);
  }

  /** The bulk append: all validated, arranged, appended one by one, written. */
  lemma StepAppendAll<T>(w: World<T>, root: T, p: T, cs: seq<T>)
    requires Typed(w) && root in w.ids && Applicable(w, AppendAll(p, cs)) && Accepted(w, AppendAll(p, cs))
    ensures Typed(w.(tree := AllMoved(w.tree, p, cs)))
    ensures Step(w, root, AppendAll(p, cs)) == Flushed(w.(tree := AllMoved(w.tree, p, cs)), root)
  {
    WrittenWellFormed(w, AppendAll(p, cs));
  }

  // ---------- invariants ----------

  ghost predicate DistinctIds<T>(ids: map<T, string>, some: set<T>) {
    some <= ids.Keys && forall a, b | a in some && b in some && a != b :: ids[a] != ids[b]
  }

  /** No two children of a node share an id, except in a trash. */
  ghost predicate UniqueIds<T>(w: World<T>)
    requires Typed(w)
  {
    forall p | p in w.ids && w.kinds[p] != Trash :: DistinctIds(w.ids, Elems(w.tree.kids[p]))
  }

  /** What holds between any two operations of a permitted run. */
  ghost predicate Good<T>(w: World<T>, root: T) {
    Typed(w) && Sound(w.tree, root) && Tracked(w.tree, root, w.stored) && UniqueIds(w)
  }

  /** What the cache answers is what resolving the path anew would answer. */
  ghost predicate Coherent<T>(w: World<T>, root: T)
    requires Typed(w) && root in w.ids
  {
    forall path | path in w.cache :: GetChild(Look(w), root, path) == Found(w.cache[path])
  }

  /** The database holds exactly the rooted nodes, each with its parent and children as they are. */
  ghost predicate InStep<T>(w: World<T>, root: T)
    requires Good(w, root)
  {
    w.stored == Rescan(w.tree, root) && w.tree.changed == {} && Coherent(w, root)
  }

  ghost predicate Fitting<T>(w: World<T>, root: T, p: T, c: T)
    requires Typed(w) && p in w.ids && c in w.ids
  {
    c != root &&
    ((Rooted(w.tree, root, c) <==> Rooted(w.tree, root, p)) || Subtree(w.tree.parent, c) - {c} <= w.tree.changed)
  }

  ghost predicate FreeId<T>(w: World<T>, p: T, c: T, id: string)
    requires Typed(w) && p in w.ids
  {
    w.kinds[p] != Trash ==> forall k | k in w.tree.kids[p] && k != c :: w.ids[k] != id
  }

  /** What a caller has to see to. Moving without validation needs the checks validation would make. */
  ghost predicate Permitted<T>(w: World<T>, root: T, op: Op<T>)
    requires Typed(w)
  {
    && Applicable(w, op)
    && match op
       case Rename(n, id) => w.tree.parent[n].Some? ==> FreeId(w, w.tree.parent[n].value, n, id)
       case SetParent(c, None) => Loose(w.tree, root, c)
       case SetParent(c, Some(p)) => Fitting(w, root, p, c) && FreeId(w, p, c, w.ids[c]) && !Under(w.tree.parent, p, c)
       case Append(p, c) => Fitting(w, root, p, c)
       case AppendAll(p, cs) =>
         && (forall c | c in cs :: Fitting(w, root, p, c))
         && (w.kinds[p] != Trash ==> DistinctIds(w.ids, Elems(cs)))
       case _ => true
  }

  // ---------- ids stay unique ----------

  /** The child arrays hold what they held, `p` perhaps also some of `added`. */
  ghost predicate OnlyAdded<T>(f: Forest<T>, h: Forest<T>, p: T, added: set<T>) {
    f.kids.Keys == h.kids.Keys &&
    forall m | m in f.kids :: Elems(h.kids[m]) <= Elems(f.kids[m]) + if m == p then added else {}
  }

  /** `added` may join the children of `p`: new to them in id, and different among themselves. */
  ghost predicate NewIds<T>(w: World<T>, p: T, added: set<T>)
    requires Typed(w) && p in w.ids
  {
    w.kinds[p] != Trash ==>
      DistinctIds(w.ids, added) && forall c | c in added :: FreeId(w, p, c, w.ids[c])
  }

  lemma DistinctJoined<T>(ids: map<T, string>, before: set<T>, after: set<T>, added: set<T>)
    requires DistinctIds(ids, before) && DistinctIds(ids, added) && after <= before + added
    requires forall c, k | c in added && k in before && k != c :: ids[k] != ids[c]
    ensures DistinctIds(ids, after)
  {}

  lemma UniqueKept<T>(w: World<T>, h: Forest<T>, p: T, added: set<T>)
    requires Typed(w) && UniqueIds(w) && p in w.ids && NewIds(w, p, added)
    requires WellFormed(h) && OnlyAdded(w.tree, h, p, added)
    ensures UniqueIds(w.(tree := h))
  {
    forall q | q in w.ids && w.kinds[q] != Trash ensures DistinctIds(w.ids, Elems(h.kids[q])) {
      var before := Elems(w.tree.kids[q]);
      var extra := if q == p then added else {};
      DistinctJoined(w.ids, before, Elems(h.kids[q]), extra);
    }
  }

  lemma AppendAdds<T>(f: Forest<T>, p: T, c: T)
    requires WellFormed(f) && p in f.kids && c in f.kids
    ensures OnlyAdded(f, AppendChild(f, p, c), p, {c})
  {
    var h := AppendChild(f, p, c);
    AppendChildAt(f, p, c, p);
    forall m | m in f.kids ensures Elems(h.kids[m]) <= Elems(f.kids[m]) + if m == p then {c} else {} {
      AppendChildAt(f, p, c, m);
      forall d | d in Without(f.kids[m], c) ensures d in f.kids[m] { WithoutIn(f.kids[m], c, d); }
    }
  }

  lemma DetachAdds<T>(f: Forest<T>, c: T)
    requires WellFormed(f) && c in f.kids
    ensures OnlyAdded(f, DetachParent(f, c), c, {})
  {
    var h := DetachParent(f, c);
    DetachParentLinked(f, c);
    forall m | m in f.kids ensures Elems(h.kids[m]) <= Elems(f.kids[m]) {
      forall d | d in Without(f.kids[m], c) ensures d in f.kids[m] { WithoutIn(f.kids[m], c, d); }
    }
  }

  lemma AllMovedAdds<T>(f: Forest<T>, p: T, cs: seq<T>)
    requires Linked(f) && p in f.kids && forall c | c in cs :: c in f.kids
    ensures OnlyAdded(f, AllMoved(f, p, cs), p, Elems(cs))
  {
    var all := Arrange(f.kids[p], cs);
    var h := AppendSeq(f, p, all);
    forall m | m in f.kids ensures Elems(h.kids[m]) <= Elems(f.kids[m]) + if m == p then Elems(cs) else {} {
      forall d | d in h.kids[m] ensures d in f.kids[m] || (m == p && d in cs) {
        AppendSeqKids(f, p, all, m, d);
      }
    }
  }

  lemma IsolateAdds<T>(f: Forest<T>, n: T)
    requires WellFormed(f) && n in f.kids
    ensures OnlyAdded(f, Isolate(f, n), n, {})
  {
    IsolateAcyclic(f, n);
    var h := Isolate(f, n);
    forall m | m in f.kids ensures Elems(h.kids[m]) <= Elems(f.kids[m]) {
      forall d | d in Without(f.kids[m], n) ensures d in f.kids[m] { WithoutIn(f.kids[m], n, d); }
    }
  }

  lemma AcceptedIsFree<T>(w: World<T>, p: T, c: T)
    requires Typed(w) && p in w.ids && c in w.ids && Validate(w, p, c, Some(w.ids[c])).None?
    ensures FreeId(w, p, c, w.ids[c]) && !Under(w.tree.parent, p, c)
  {
    if w.kinds[p] != Trash {
      forall k | k in w.tree.kids[p] && k != c ensures w.ids[k] != w.ids[c] {}
    }
  }

  lemma BulkKids<T>(w: World<T>, p: T, cs: seq<T>)
    requires Typed(w) && Applicable(w, AppendAll(p, cs)) && Accepted(w, AppendAll(p, cs)) && NoDup(cs)
    ensures WellFormed(AllMoved(w.tree, p, cs)) && AllMoved(w.tree, p, cs).kids.Keys == w.ids.Keys
    ensures Elems(AllMoved(w.tree, p, cs).kids[p]) == Elems(w.tree.kids[p]) + Elems(cs)
  {
    WrittenWellFormed(w, AppendAll(p, cs));
    AppendArranged(w.tree, p, cs);
    ArrangeOnce(w.tree.kids[p], cs);
  }

  /** A bulk append of children that each passed validation keeps the ids unique exactly when the
      new children differ among themselves: each was only compared with the children already there. */
  lemma BulkUnique<T>(w: World<T>, p: T, cs: seq<T>)
    requires Typed(w) && UniqueIds(w) && Applicable(w, AppendAll(p, cs)) && Accepted(w, AppendAll(p, cs))
    requires NoDup(cs) && w.kinds[p] != Trash
    ensures WellFormed(AllMoved(w.tree, p, cs)) && AllMoved(w.tree, p, cs).kids.Keys == w.ids.Keys
    ensures UniqueIds(w.(tree := AllMoved(w.tree, p, cs))) <==> DistinctIds(w.ids, Elems(cs))
  {
    BulkKids(w, p, cs);
    if DistinctIds(w.ids, Elems(cs)) {
      forall c | c in Elems(cs) ensures FreeId(w, p, c, w.ids[c]) { AcceptedIsFree(w, p, c); }
      AllMovedAdds(w.tree, p, cs);
      UniqueKept(w, AllMoved(w.tree, p, cs), p, Elems(cs));
    } else {
      assert Elems(cs) <= Elems(AllMoved(w.tree, p, cs).kids[p]);
    }
  }

  /** An example: a folder without children and two new nodes with the same id. */
  ghost function Twins(): World<int> {
    World(Forest(map[0 := None, 1 := None, 2 := None], map[0 := [], 1 := [], 2 := []], {}),
      map[0 := "", 1 := "a", 2 := "a"], map[0 := Folder, 1 := Folder, 2 := Folder], map[], map[])
  }

  lemma TwinsTyped()
    ensures Typed(Twins()) && UniqueIds(Twins())
  {
    var up := Twins().tree.parent;
    forall n | n in up ensures Ends(up, n) { assert Grounded(up, n, 0); }
  }

  lemma TwinsValid(c: int)
    requires c == 1 || c == 2
    ensures Typed(Twins()) && Validate(Twins(), 0, c, Some("a")).None?
  {
    TwinsTyped();
    UnderStep(Twins().tree.parent, 0, c);
  }

  lemma TwinsEqual(s: set<int>)
    requires 1 in s && 2 in s
    ensures !DistinctIds(Twins().ids, s)
  {
    assert Twins().ids[1] == Twins().ids[2];
  }

  /** Both pass validation, and then the folder has two children with one id. */
  lemma TwinsAccepted(w: World<int>, cs: seq<int>)
    requires w == Twins() && cs == [1, 2]
    ensures Typed(w) && UniqueIds(w) && Applicable(w, AppendAll(0, cs)) && Accepted(w, AppendAll(0, cs))
    ensures WellFormed(AllMoved(w.tree, 0, cs)) && AllMoved(w.tree, 0, cs).kids.Keys == w.ids.Keys
    ensures !UniqueIds(w.(tree := AllMoved(w.tree, 0, cs)))
  {
    TwinsTyped();
    forall c | c in cs ensures Validate(w, 0, c, Some(w.ids[c])).None? { TwinsValid(c); }
    assert cs[0] in Elems(cs) && cs[1] in Elems(cs);
    TwinsEqual(Elems(cs));
    BulkUnique(w, 0, cs);
  }

  // ---------- what every operation keeps ----------

  lemma CreatedSound<T>(f: Forest<T>, root: T, stored: map<T, Row<T>>, n: T)
    requires Sound(f, root) && Tracked(f, root, stored) && n !in f.kids
    ensures Sound(Created(f, n), root) && Tracked(Created(f, n), root, stored)
  {
    var h := Created(f, n);
    ExtendAcyclic(f.parent, n);
    assert Owned(h);
    UnderStep(h.parent, n, root);
    forall m | m in f.kids ensures Rooted(h, root, m) <==> Rooted(f, root, m) {
      ExtendChain(f.parent, n, m);
    }
  }

  lemma CreateKeeps<T>(w: World<T>, root: T, op: Op<T>)
    requires Good(w, root) && op.Create? && Permitted(w, root, op)
    ensures Good(Step(w, root, op), root)
  {
    CreatedSound(w.tree, root, w.stored, op.node);
    var v := Step(w, root, op);
    forall p | p in v.ids && v.kinds[p] != Trash ensures DistinctIds(v.ids, Elems(v.tree.kids[p])) {
      if p != op.node { assert DistinctIds(w.ids, Elems(w.tree.kids[p])); }
    }
  }

  lemma RenameKeeps<T>(w: World<T>, root: T, op: Op<T>)
    requires Good(w, root) && op.Rename? && Permitted(w, root, op)
    ensures Good(Step(w, root, op), root)
  {
    var v := Step(w, root, op);
    forall p | p in v.ids && v.kinds[p] != Trash ensures DistinctIds(v.ids, Elems(v.tree.kids[p])) {
      assert DistinctIds(w.ids, Elems(w.tree.kids[p]));
      if op.node in w.tree.kids[p] {
        assert w.tree.parent[op.node] == Some(p);
      }
    }
  }

  /** The tree of an accepted and permitted operation that may write keeps the invariant. */
  lemma MovedKeeps<T>(w: World<T>, root: T, op: Op<T>)
    requires Good(w, root) && Permitted(w, root, op) && Accepted(w, op)
    requires Writes(op) || op.SetParent?
    ensures Good(w.(tree := Moved(w, op)), root)
  {
    var f := w.tree;
    match op
    case SetParent(c, None) => DetachKeeps(w, root, c);
    case SetParent(c, Some(p)) => AppendKeeps(w, root, p, c);
    case Append(p, c) => AcceptedIsFree(w, p, c); AppendKeeps(w, root, p, c);
    case AppendAll(p, cs) => AppendAllKeeps(w, root, p, cs);
    case Save(n) => MarkedKeeps(w, root, f, n);
    case Delete(n) =>
      IsolateTracked(f, root, w.stored, n);
      IsolateAcyclic(f, n);
      IsolateAdds(f, n);
      UniqueKept(w, Isolate(f, n), n, {});
  }

  lemma AppendKeeps<T>(w: World<T>, root: T, p: T, c: T)
    requires Good(w, root) && p in w.ids && c in w.ids
    requires Fitting(w, root, p, c) && FreeId(w, p, c, w.ids[c]) && !Under(w.tree.parent, p, c)
    ensures Good(w.(tree := AppendChild(w.tree, p, c)), root)
  {
    AppendTracked(w.tree, root, w.stored, p, c);
    AppendMoved(w.tree, p, c);
    AppendKeepsIds(w, p, c);
  }

  lemma DetachKeeps<T>(w: World<T>, root: T, c: T)
    requires Good(w, root) && c in w.ids && Loose(w.tree, root, c)
    ensures Good(w.(tree := DetachParent(w.tree, c)), root)
  {
    DetachTracked(w.tree, root, w.stored, c);
    DetachAdds(w.tree, c);
    UniqueKept(w, DetachParent(w.tree, c), c, {});
  }

  lemma AppendKeepsIds<T>(w: World<T>, p: T, c: T)
    requires Typed(w) && UniqueIds(w) && p in w.ids && c in w.ids
    requires FreeId(w, p, c, w.ids[c]) && WellFormed(AppendChild(w.tree, p, c))
    ensures AppendChild(w.tree, p, c).kids.Keys == w.ids.Keys
    ensures UniqueIds(w.(tree := AppendChild(w.tree, p, c)))
  {
    AppendAdds(w.tree, p, c);
    UniqueKept(w, AppendChild(w.tree, p, c), p, {c});
  }

  lemma MarkedKeeps<T>(w: World<T>, root: T, g: Forest<T>, n: T)
    requires Sound(g, root) && Tracked(g, root, w.stored) && n in g.kids
    ensures Sound(Marked(g, n), root) && Tracked(Marked(g, n), root, w.stored)
    ensures Good(w.(tree := g), root) ==> Good(w.(tree := Marked(g, n)), root)
  {}

  lemma AppendAllKeeps<T>(w: World<T>, root: T, p: T, cs: seq<T>)
    requires Good(w, root) && Permitted(w, root, AppendAll(p, cs)) && Accepted(w, AppendAll(p, cs))
    ensures Good(w.(tree := AllMoved(w.tree, p, cs)), root)
  {
    forall c | c in cs ensures Ready(w.tree, root, p, c) && FreeId(w, p, c, w.ids[c]) {
      AcceptedIsFree(w, p, c);
    }
    AppendAllTracked(w.tree, root, w.stored, p, cs);
    var g := AppendSeq(w.tree, p, Arrange(w.tree.kids[p], cs));
    MarkedKeeps(w, root, g, p);
    AllMovedAdds(w.tree, p, cs);
    UniqueKept(w, AllMoved(w.tree, p, cs), p, Elems(cs));
  }

  lemma FlushedInStep<T>(w: World<T>, root: T)
    requires Good(w, root)
    ensures Good(Flushed(w, root), root) && InStep(Flushed(w, root), root)
  {
    FlushIsRescan(w.tree, root, w.stored);
  }

  lemma WriteKeeps<T>(w: World<T>, root: T, op: Op<T>)
    requires Good(w, root) && Permitted(w, root, op) && Accepted(w, op) && Writes(op)
    ensures Good(Step(w, root, op), root) && InStep(Step(w, root, op), root)
  {
    MovedKeeps(w, root, op);
    FlushedInStep(w.(tree := Moved(w, op)), root);
  }

  /** Every permitted operation keeps the invariant, and after every accepted one that writes, the
      database is what a scan of the whole tree would have produced. */
  lemma StepKeeps<T>(w: World<T>, root: T, op: Op<T>)
    requires Good(w, root) && Permitted(w, root, op)
    ensures Good(Step(w, root, op), root)
    ensures Accepted(w, op) && Writes(op) ==> InStep(Step(w, root, op), root)
  {
    if !Accepted(w, op) {
    } else if Writes(op) {
      WriteKeeps(w, root, op);
    } else {
      match op
      case Create(_, _, _) => CreateKeeps(w, root, op);
      case Rename(_, _) => RenameKeeps(w, root, op);
      case SetParent(_, _) => MovedKeeps(w, root, op);
      case GetByPath(_) =>
    }
  }

  lemma CreateAgrees<T>(w: World<T>, root: T, op: Op<T>)
    requires Good(w, root) && op.Create? && Permitted(w, root, op) && Good(Step(w, root, op), root)
    ensures Agrees(Look(w), Look(Step(w, root, op)))
  {}

  lemma CreateCoherent<T>(w: World<T>, root: T, op: Op<T>)
    requires Good(w, root) && op.Create? && Permitted(w, root, op) && Coherent(w, root)
    requires Good(Step(w, root, op), root)
    ensures Coherent(Step(w, root, op), root)
  {
    CreateAgrees(w, root, op);
    forall path | path in w.cache ensures GetChild(Look(Step(w, root, op)), root, path) == Found(w.cache[path]) {
      SameGetChild(Look(w), Look(Step(w, root, op)), root, path);
    }
  }

  /** The cache stays right through lookups, rejected operations, new nodes and everything that
      writes; only moves and renames without a write may leave it behind. */
  lemma StepCoherent<T>(w: World<T>, root: T, op: Op<T>)
    requires Good(w, root) && Permitted(w, root, op) && Coherent(w, root)
    requires !op.Rename? && !op.SetParent?
    ensures Good(Step(w, root, op), root) && Coherent(Step(w, root, op), root)
  {
    StepKeeps(w, root, op);
    if op.Create? { CreateCoherent(w, root, op); }
  }

  /** `ws` is the run that `ops` make from its first world, every operation permitted when it comes. */
  ghost predicate Run<T>(ws: seq<World<T>>, root: T, ops: seq<Op<T>>) {
    && |ws| == |ops| + 1
    && Good(ws[0], root)
    && forall i | 0 <= i < |ops| ::
         Good(ws[i], root) ==> Permitted(ws[i], root, ops[i]) && ws[i + 1] == Step(ws[i], root, ops[i])
  }

  /** Over every run: the forest stays well formed, ids unique, the marks cover what is not yet
      written, and after each write nothing is left to write. */
  lemma {:induction false} RunKeeps<T>(ws: seq<World<T>>, root: T, ops: seq<Op<T>>, i: nat)
    requires Run(ws, root, ops) && i <= |ops|
    ensures Good(ws[i], root)
    ensures i > 0 && Good(ws[i - 1], root) && Accepted(ws[i - 1], ops[i - 1]) && Writes(ops[i - 1]) ==>
      InStep(ws[i], root)
  {
    if i > 0 {
      RunKeeps(ws, root, ops, i - 1);
      StepKeeps(ws[i - 1], root, ops[i - 1]);
    }
  }

  /** A lookup remembers exactly what it finds: it is not made a second time. */
  lemma LookupRemembers<T>(w: World<T>, root: T, path: string, other: string)
    requires Typed(w) && root in w.ids
    ensures var v := Step(w, root, GetByPath(path));
      && v == w.(cache := v.cache)
      && (other in v.cache <==> other in w.cache || (other == path && GetChild(Look(w), root, path).Found?))
      && (other in w.cache ==> other in v.cache && v.cache[other] == w.cache[other])
      && (path in v.cache && path !in w.cache ==> Found(v.cache[path]) == GetChild(Look(w), root, path))
  {}

  lemma RunCoherentNext<T>(ws: seq<World<T>>, root: T, ops: seq<Op<T>>, i: nat)
    requires Run(ws, root, ops) && i < |ops| && Right(ws[i], root)
    requires !ops[i].Rename? && !ops[i].SetParent?
    ensures Right(ws[i + 1], root)
  {
    StepCoherent(ws[i], root, ops[i]);
  }

  ghost predicate Right<T>(w: World<T>, root: T) {
    Together(Good(w, root) && Coherent(w, root))
  }

  lemma {:induction false} RunRight<T>(ws: seq<World<T>>, root: T, ops: seq<Op<T>>, i: nat)
    requires Run(ws, root, ops) && i <= |ops| && Right(ws[0], root)
    requires forall j | 0 <= j < |ops| :: !ops[j].Rename? && !ops[j].SetParent?
    ensures Right(ws[i], root)
  {
    if i > 0 {
      RunRight(ws, root, ops, i - 1);
      RunCoherentNext(ws, root, ops, i - 1);
    }
  }

  /** The path cache over whole runs: as long as nodes are moved and renamed only by operations that
      write, every lookup is answered as if there were no cache. */
  lemma RunCoherent<T>(ws: seq<World<T>>, root: T, ops: seq<Op<T>>, i: nat)
    requires Run(ws, root, ops) && i <= |ops| && Coherent(ws[0], root)
    requires forall op | op in ops :: !op.Rename? && !op.SetParent?
    ensures Good(ws[i], root) && Coherent(ws[i], root)
  {
    RunRight(ws, root, ops, i);
  }
}
