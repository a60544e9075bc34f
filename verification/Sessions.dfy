/** What a database does, told of the plain set of stored objects and of the remembered answers. */
module Sessions {
  import opened Sequences
  import opened Circles
  import opened Reflections
  import opened Repository
  import opened Ownership

  /** What the code inside a transaction may do; it may also throw. */
  datatype Action = Save(obj: Obj) | Delete(obj: Obj) | DeleteDeliberately(obj: Obj) | Throw

  /** The world of objects a database works on: their classes follow the schema, and the values they
      hold are in it too. */
  datatype Domain = Domain(k: Roles, schema: Schema, top: Class, universe: set<Obj>)

  ghost predicate WellTyped(d: Domain) {
    && PartsInside(d.k, d.universe)
    && forall o | o in d.universe :: Conforms(d.schema, o) && IsInstance(o, d.top)
  }

  /** The recursion of a save along the values held comes to its end. */
  ghost predicate Savable(d: Domain, o: Obj) {
    o in d.universe && Stops(Holdings(d.k, d.universe), o)
  }

  ghost predicate Known(d: Domain, a: Action) {
    match a
    case Throw => true
    case Save(o) => Savable(d, o)
    case Delete(o) => o in d.universe
    case DeleteDeliberately(o) => o in d.universe
  }

  // ---------- transactions ----------

  ghost function Saved(d: Domain, objects: set<Obj>, o: Obj): set<Obj>
    requires WellTyped(d) && o in d.universe
  {
    objects + Persistents(d.k, Span(d.k, d.universe, o))
  }

  /** What is stored when a deletion of `o` decides: a collection comes first if something is seen to refer to `o`. */
  ghost function Cleared(d: Domain, objects: set<Obj>, o: Obj): set<Obj> {
    if Referrers(objects, o) == {} then objects else Collected(d.k, objects)
  }

  /** A deletion is refused if something is seen to refer to the object even after a collection. */
  ghost function Deleted(d: Domain, objects: set<Obj>, o: Obj): Option<set<Obj>> {
    var before := Cleared(d, objects, o);
    if Referrers(before, o) == {} then Some(before - Taken(d.k, o)) else None
  }

  ghost function Done(d: Domain, objects: set<Obj>, a: Action): Option<set<Obj>>
    requires WellTyped(d) && Known(d, a)
  {
    match a
    case Save(o) => Some(Saved(d, objects, o))
    case Delete(o) => Deleted(d, objects, o)
    case DeleteDeliberately(o) => Some(objects - Taken(d.k, o))
    case Throw => None
  }

  ghost predicate AllKnown(d: Domain, script: seq<Action>) {
    forall a | a in script :: Known(d, a)
  }

  /** The stored objects after the first `i` actions, unless one of them throws. */
  ghost function Transacted(d: Domain, objects: set<Obj>, script: seq<Action>, i: nat): Option<set<Obj>>
    requires WellTyped(d) && AllKnown(d, script) && i <= |script|
  {
    if i == 0 then Some(objects)
    else match Transacted(d, objects, script, i - 1)
      case None => None
      case Some(before) => Done(d, before, script[i - 1])
  }

  lemma {:induction false} TransactedStops(d: Domain, objects: set<Obj>, script: seq<Action>, i: nat, j: nat)
    requires WellTyped(d) && AllKnown(d, script) && i <= j <= |script|
    requires Transacted(d, objects, script, i).None?
    ensures Transacted(d, objects, script, j).None?
    decreases j - i
  {
    if i < j {
      assert Transacted(d, objects, script, i + 1).None?;
      TransactedStops(d, objects, script, i + 1, j);
    }
  }

  /** What is stored at the turn of the `i`-th action, if none before it throws. */
  ghost function AtTurn(d: Domain, objects: set<Obj>, script: seq<Action>, i: nat): set<Obj>
    requires WellTyped(d) && AllKnown(d, script) && i <= |script|
  {
    if i == 0 then objects
    else
      var before := AtTurn(d, objects, script, i - 1);
      match script[i - 1]
      case Save(o) => assert Known(d, script[i - 1]); Saved(d, before, o)
      case Delete(o) => Cleared(d, before, o) - Taken(d.k, o)
      case DeleteDeliberately(o) => before - Taken(d.k, o)
      case Throw => before
  }

  /** One of the first `i` actions throws of itself or is a deletion that is refused at its turn. */
  ghost predicate Breaks(d: Domain, objects: set<Obj>, script: seq<Action>, i: nat)
    requires WellTyped(d) && AllKnown(d, script) && i <= |script|
  {
    exists j: nat :: j < i && ThrowsAt(d, objects, script, j)
  }

  ghost predicate ThrowsAt(d: Domain, objects: set<Obj>, script: seq<Action>, j: nat)
    requires WellTyped(d) && AllKnown(d, script) && j < |script|
  {
    match script[j]
    case Throw => true
    case Delete(o) => Referrers(Cleared(d, AtTurn(d, objects, script, j), o), o) != {}
    case _ => false
  }

  lemma BreaksExactly(d: Domain, objects: set<Obj>, script: seq<Action>)
    requires WellTyped(d) && AllKnown(d, script)
    ensures Breaks(d, objects, script, |script|) <==>
      || Throw in script
      || exists j: nat, o ::
           j < |script| && script[j] == Delete(o) && Referrers(Cleared(d, AtTurn(d, objects, script, j), o), o) != {}
  {
    if Throw in script {
      var j :| 0 <= j < |script| && script[j] == Throw;
      assert ThrowsAt(d, objects, script, j);
    }
    if j: nat, o :|
      && j < |script| && script[j] == Delete(o)
      && Referrers(Cleared(d, AtTurn(d, objects, script, j), o), o) != {}
    {
      assert ThrowsAt(d, objects, script, j);
    }
  }

  /** The actions come to an end if and only if none of them throws, at whatever position. */
  lemma {:induction false} TransactedExactly(d: Domain, objects: set<Obj>, script: seq<Action>, i: nat)
    requires WellTyped(d) && AllKnown(d, script) && i <= |script|
    ensures Transacted(d, objects, script, i) ==
      if Breaks(d, objects, script, i) then None else Some(AtTurn(d, objects, script, i))
  {
    if i > 0 {
      TransactedExactly(d, objects, script, i - 1);
      assert Breaks(d, objects, script, i) <==>
        Breaks(d, objects, script, i - 1) || ThrowsAt(d, objects, script, i - 1);
    }
  }

  /** What is stored once some of the values an object holds are saved. */
  ghost function SavedAll(d: Domain, objects: set<Obj>, s: set<Obj>): set<Obj>
    requires WellTyped(d) && s <= d.universe
  {
    objects + Persistents(d.k, Spans(d.k, d.universe, s))
  }

  lemma SavedOneMore(d: Domain, objects: set<Obj>, s: set<Obj>, v: Obj)
    requires WellTyped(d) && s <= d.universe && v in d.universe
    ensures Saved(d, SavedAll(d, objects, s), v) == SavedAll(d, objects, s + {v})
  {
    assert Spans(d.k, d.universe, s + {v}) == Spans(d.k, d.universe, s) + Span(d.k, d.universe, v);
  }

  lemma SavedLast(d: Domain, objects: set<Obj>, x: Obj)
    requires WellTyped(d) && x in d.universe
    ensures Parts(d.k, x) <= d.universe
    ensures Saved(d, objects, x) ==
      SavedAll(d, objects, Parts(d.k, x)) + if IsInstance(x, d.k.persistent) then {x} else {}
  {
    SpanSteps(d.k, d.universe, x);
  }

  // ---------- sessions ----------

  /** A database between two calls; a closed one is of no use any more. */
  datatype Session<S(==), R> = Session(objects: set<Obj>, cache: map<S, R>, closed: bool)

  /** What a program does with a database. Setting the path of a blob or removing its file may throw in
      a write: `error` tells whether it does in a call of one write, `failing` in which of its writes,
      counted from 0, in a call of many. `order` lists the orphans that a collection finds. */
  datatype Call<S> =
    | Ask(supplier: S)
    | Writing(script: seq<Action>, error: bool)
    | Saving(obj: Obj, error: bool)
    | Persisting(obj: Obj, error: bool)
    | Deleting(obj: Obj, order: seq<Obj>, failing: Option<nat>)
    | DeletingDeliberately(obj: Obj, error: bool)
    | Collecting(order: seq<Obj>, failing: Option<nat>)

  /** The orphans, each once. */
  ghost predicate Listing(d: Domain, objects: set<Obj>, order: seq<Obj>) {
    NoDup(order) && Elems(order) == Orphans(objects, d.k.value)
  }

  lemma {:induction false} SomeListing(s: set<Obj>) returns (order: seq<Obj>)
    ensures NoDup(order) && Elems(order) == s
  {
    order := [];
    if o :| o in s {
      var rest := SomeListing(s - {o});
      NoDupAppended(rest, o);
      order := rest + [o];
      assert Elems(order) == Elems(rest) + {o};
    }
  }

  ghost predicate Allowed<S, R>(d: Domain, s: Session<S, R>, c: Call<S>) {
    match c
    case Ask(_) => true
    case Writing(script, _) => AllKnown(d, script)
    case Saving(o, _) => Savable(d, o)
    case Persisting(o, _) => Savable(d, o)
    case Deleting(o, order, _) => o in d.universe && Listing(d, s.objects, order)
    case DeletingDeliberately(o, _) => o in d.universe
    case Collecting(order, _) => Listing(d, s.objects, order)
  }

  /** A write that fails closes the database; one that succeeds forgets what is remembered, unless it
      is told to keep it. */
  ghost function Written<S, R>(s: Session<S, R>, result: Option<set<Obj>>, error: bool, keep: bool): Session<S, R> {
    if result.None? || error then Session(s.objects, map[], true)
    else Session(result.value, if keep then s.cache else map[], false)
  }

  /** After the first `i` writes of a collection. */
  ghost function CollectedSome<S, R>(s: Session<S, R>, order: seq<Obj>, i: nat): Session<S, R>
    requires i <= |order|
  {
    if i == 0 then s else Session(s.objects - Elems(order[..i]), map[], false)
  }

  /** A collection is one write for every orphan; what was written before one that fails stays. */
  ghost function CollectedAll<S, R>(s: Session<S, R>, order: seq<Obj>, failing: Option<nat>): Session<S, R> {
    if failing.Some? && failing.value < |order| then Session(s.objects - Elems(order[..failing.value]), map[], true)
    else CollectedSome(s, order, |order|)
  }

  /** Which write fails once `n` have succeeded. */
  function Later(failing: Option<nat>, n: nat): Option<nat> {
    match failing
    case None => None
    case Some(i) => if n <= i then Some(i - n) else None
  }

  /** The collection for a deletion. */
  ghost function ClearedFor<S, R>(s: Session<S, R>, o: Obj, order: seq<Obj>, failing: Option<nat>): Session<S, R> {
    if Referrers(s.objects, o) == {} then s else CollectedAll(s, order, failing)
  }

  /** It stays even if the deletion is refused. */
  ghost function AfterDeleting<S, R>(d: Domain, s: Session<S, R>, o: Obj, order: seq<Obj>, failing: Option<nat>):
    Session<S, R>
  {
    var t := ClearedFor(s, o, order, failing);
    var left := if Referrers(s.objects, o) == {} then failing else Later(failing, |order|);
    if t.closed || Referrers(t.objects, o) != {} then t
    else Written(t, Some(t.objects - Taken(d.k, o)), left == Some(0), false)
  }

  ghost function After<S, R>(d: Domain, supply: (S, set<Obj>) -> R, s: Session<S, R>, c: Call<S>): Session<S, R>
    requires WellTyped(d) && Allowed(d, s, c)
  {
    if s.closed then s
    else match c
      case Ask(q) => if q in s.cache then s else s.(cache := s.cache[q := supply(q, s.objects)])
      case Writing(script, error) => Written(s, Transacted(d, s.objects, script, |script|), error, false)
      case Saving(o, error) => Written(s, Some(Saved(d, s.objects, o)), error, false)
      case Persisting(o, error) => Written(s, Some(Saved(d, s.objects, o)), error, true)
      case Deleting(o, order, failing) => AfterDeleting(d, s, o, order, failing)
      case DeletingDeliberately(o, error) => Written(s, Some(s.objects - Taken(d.k, o)), error, false)
      case Collecting(order, failing) => CollectedAll(s, order, failing)
  }

  /** A collection in which a write fails has taken the orphans before it and closed the database; one
      without has taken all of them, and nothing is remembered if there was any. */
  lemma CollectionExactly<S, R>(d: Domain, s: Session<S, R>, order: seq<Obj>, failing: Option<nat>, x: Obj)
    requires Listing(d, s.objects, order) && !s.closed
    ensures var t := CollectedAll(s, order, failing);
      && (t.closed <==> failing.Some? && failing.value < |order|)
      && (x in t.objects <==>
            x in s.objects && forall j: nat | j < |order| && (failing.Some? ==> j < failing.value) :: order[j] != x)
      && t.cache == (if order == [] then s.cache else map[])
      && (!t.closed ==> t.objects == Collected(d.k, s.objects))
  {
    var n := if failing.Some? && failing.value < |order| then failing.value else |order|;
    assert x in Elems(order[..n]) <==> exists j: nat :: j < n && order[..n][j] == x;
    assert order[..|order|] == order;
  }

  /** A deletion in which no write fails: done if nothing is seen to refer to the object, if need be after a
      collection; else the store is what the collection leaves, and the database stays open. */
  lemma DeletingExactly<S, R>(d: Domain, s: Session<S, R>, o: Obj, order: seq<Obj>)
    requires Listing(d, s.objects, order) && !s.closed
    ensures var t := AfterDeleting(d, s, o, order, None);
      && !t.closed
      && t.objects ==
           (if Referrers(s.objects, o) == {} then s.objects - Taken(d.k, o)
            else if Referrers(Collected(d.k, s.objects), o) == {} then Collected(d.k, s.objects) - Taken(d.k, o)
            else Collected(d.k, s.objects))
  {
    assert order[..|order|] == order;
  }

  /** One more write of a collection. */
  lemma CollectedMore<S, R>(d: Domain, supply: (S, set<Obj>) -> R, s: Session<S, R>, order: seq<Obj>, i: nat,
                            error: bool)
    requires WellTyped(d) && !s.closed && i < |order| && order[i] in d.universe && IsInstance(order[i], d.k.value)
    ensures After(d, supply, CollectedSome(s, order, i), DeletingDeliberately(order[i], error)) ==
      if error then Session(s.objects - Elems(order[..i]), map[], true) else CollectedSome(s, order, i + 1)
  {
    assert order[..i + 1] == order[..i] + [order[i]];
  }

  /** What is remembered of a supplier is what it would answer now. */
  ghost predicate Remembers<S, R>(supply: (S, set<Obj>) -> R, s: Session<S, R>) {
    forall q | q in s.cache :: s.cache[q] == supply(q, s.objects)
  }

  /** What is remembered after a call was remembered before, over no change of the stored objects unless by a
      `persist`; or it is the supplier's answer at the start of the call. */
  lemma AfterForgets<S, R>(d: Domain, supply: (S, set<Obj>) -> R, s: Session<S, R>, c: Call<S>, t: Session<S, R>, q: S)
    requires WellTyped(d) && Allowed(d, s, c) && t == After(d, supply, s, c) && q in t.cache
    ensures c.Persisting? || t.objects == s.objects
    ensures (q in s.cache && t.cache[q] == s.cache[q]) || t.cache[q] == supply(q, s.objects)
  {}

  /** `ss` are the sessions before and after each call. */
  ghost predicate IsRun<S, R>(d: Domain, supply: (S, set<Obj>) -> R, ss: seq<Session<S, R>>, cs: seq<Call<S>>) {
    && WellTyped(d) && |ss| == |cs| + 1
    && forall i | 0 <= i < |cs| :: Allowed(d, ss[i], cs[i]) && ss[i + 1] == After(d, supply, ss[i], cs[i])
  }

  /** From the `j`-th session to the `i`-th only a `persist` changed what is stored. */
  ghost predicate OnlyPersists<S, R>(ss: seq<Session<S, R>>, cs: seq<Call<S>>, j: nat, i: nat)
    requires j <= i < |ss| == |cs| + 1
  {
    forall l | j <= l < i :: cs[l].Persisting? || ss[l + 1].objects == ss[l].objects
  }

  /** Over every run of calls: a remembered answer was right at some moment of the run, and from then
      on nothing but `persist` has changed what is stored. */
  lemma {:induction false} SessionsRemember<S, R>(d: Domain, supply: (S, set<Obj>) -> R, ss: seq<Session<S, R>>,
                                                  cs: seq<Call<S>>, i: nat, q: S) returns (j: nat)
    requires IsRun(d, supply, ss, cs) && i < |ss| && Remembers(supply, ss[0]) && q in ss[i].cache
    ensures j <= i && ss[i].cache[q] == supply(q, ss[j].objects) && OnlyPersists(ss, cs, j, i)
  {
    if i == 0 { return 0; }
    AfterForgets(d, supply, ss[i - 1], cs[i - 1], ss[i], q);
    if q in ss[i - 1].cache && ss[i].cache[q] == ss[i - 1].cache[q] {
      j := SessionsRemember(d, supply, ss, cs, i - 1, q);
    } else {
      j := i - 1;
    }
  }

  lemma {:induction false} NothingStored<S, R>(ss: seq<Session<S, R>>, cs: seq<Call<S>>, j: nat, i: nat)
    requires j <= i < |ss| == |cs| + 1 && OnlyPersists(ss, cs, j, i)
    requires forall l | j <= l < i && cs[l].Persisting? :: ss[l + 1].objects == ss[l].objects
    ensures ss[j].objects == ss[i].objects
  {
    if j < i { NothingStored(ss, cs, j, i - 1); }
  }

  /** So what is remembered is what would be answered anew, if no `persist` stored anything new. */
  lemma SessionsCoherent<S, R>(d: Domain, supply: (S, set<Obj>) -> R, ss: seq<Session<S, R>>, cs: seq<Call<S>>, i: nat)
    requires IsRun(d, supply, ss, cs) && i < |ss| && Remembers(supply, ss[0])
    requires forall l | 0 <= l < i && cs[l].Persisting? :: Saved(d, ss[l].objects, cs[l].obj) == ss[l].objects
    ensures Remembers(supply, ss[i])
  {
    forall q | q in ss[i].cache ensures ss[i].cache[q] == supply(q, ss[i].objects) {
      var j := SessionsRemember(d, supply, ss, cs, i, q);
      NothingStored(ss, cs, j, i);
    }
  }

  /** A supplier that asks for all objects. */
  ghost function Everything(q: int, objects: set<Obj>): set<Obj> {
    objects
  }

  /** A `persist` leaves every right memory of every supplier right, if and only if it stores nothing new. */
  lemma PersistExactly(d: Domain, objects: set<Obj>, o: Obj)
    requires WellTyped(d) && Savable(d, o)
    ensures Saved(d, objects, o) == objects <==>
      forall supply: (int, set<Obj>) -> set<Obj>, cache | Remembers(supply, Session(objects, cache, false)) ::
        Remembers(supply, After(d, supply, Session(objects, cache, false), Persisting(o, false)))
  {
    if Saved(d, objects, o) != objects {
      var s := Session(objects, map[0 := objects], false);
      var t := After(d, Everything, s, Persisting(o, false));
      assert Remembers(Everything, s) && t.cache[0] != Everything(0, t.objects);
    }
  }
}
