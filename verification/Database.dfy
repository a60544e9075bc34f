/** The object database: transactions over the index and the engine, cascades, garbage collection,
    and the memory of query results. */
module Database {
  import opened Sequences
  import opened Circles
  import opened Reflections
  import opened Repository
  import opened Engine
  import opened Ownership
  import opened Sessions

  class ObjectDatabase<S(==), R> {
    const repository: ObjectRepository
    const engine: PersistenceEngineXStream<Obj>
    const k: Roles
    const supply: (S, set<Obj>) -> R
    ghost const domain: Domain
    var closed: bool
    var transactionInProgress: bool
    var supplierCacheRetention: bool
    var supplierCache: map<S, R>
    var blobError: Option<nat>  // in which of the next writes, counted from 0, handling blob files throws

    /** Between any two steps: index and engine hold the same objects, and the engine can get back
        to where the transaction started. */
    ghost predicate Valid()
      reads this, repository, engine
    {
      && WellTyped(domain) && domain.k == k && domain.schema == repository.schema && domain.top == repository.top
      && repository.Valid() && engine.Valid() && repository.objects == engine.objects
      && engine.objects <= Persistents(k, domain.universe)
    }

    /** What a call finds and leaves. */
    ghost function State(): Session<S, R>
      reads this, engine
    {
      Session(engine.objects, supplierCache, closed)
    }

    /** Opens the database: what the engine holds is put into a new index. */
    constructor (engine: PersistenceEngineXStream<Obj>, k: Roles, schema: Schema, top: Class,
                 supply: (S, set<Obj>) -> R, ghost domain: Domain)
      requires engine.Valid() && engine.Start() == engine.objects
      requires WellTyped(domain) && domain.k == k && domain.schema == schema && domain.top == top
      requires engine.objects <= Persistents(k, domain.universe)
      ensures Idle() && State() == Session(engine.objects, map[], false)
      ensures this.engine == engine && this.supply == supply && this.domain == domain && fresh(repository)
    {
      this.engine, this.k, this.supply, this.domain := engine, k, supply, domain;
      repository := new ObjectRepository(schema, top);
      closed, transactionInProgress, supplierCacheRetention, supplierCache := false, false, false, map[];
      new;
      var todo := engine.objects;
      while todo != {}
        invariant todo <= engine.objects && repository.Valid() && repository.objects == engine.objects - todo
        modifies repository
      {
        var o :| o in todo;
        todo := todo - {o};
        repository.Put(o);
      }
    }

    /** The recursion of `save` into the values an object holds. */
    method TraverseAndSave(candidate: Obj)
      requires Valid() && Savable(domain, candidate)
      modifies repository, engine
      ensures Valid() && engine.objects == Saved(domain, old(engine.objects), candidate)
      ensures engine.Start() == old(engine.Start())
      decreases Circles.Height(Holdings(k, domain.universe), candidate), 1
    {
      var todo := Parts(k, candidate);
      ghost var done: set<Obj> := {};
      while todo != {}
        invariant Valid() && todo + done == Parts(k, candidate) && engine.Start() == old(engine.Start())
        invariant engine.objects == SavedAll(domain, old(engine.objects), done)
      {
        var v :| v in todo;
        todo := todo - {v};
        SavePart(candidate, v, old(engine.objects), done);
        done := done + {v};
      }
      assert done == Parts(k, candidate);
      SavedLast(domain, old(engine.objects), candidate);
      if IsInstance(candidate, k.persistent) {
        repository.Put(candidate);
        engine.Save(candidate);
      }
    }

    /** One of these values. */
    method SavePart(candidate: Obj, v: Obj, ghost start: set<Obj>, ghost done: set<Obj>)
      requires Valid() && Savable(domain, candidate) && v in Parts(k, candidate)
      requires done <= Parts(k, candidate) <= domain.universe && engine.objects == SavedAll(domain, start, done)
      modifies repository, engine
      ensures Valid() && v in domain.universe && engine.objects == SavedAll(domain, start, done + {v})
      ensures engine.Start() == old(engine.Start())
      decreases Circles.Height(Holdings(k, domain.universe), candidate), 0
    {
      HeightFalls(Holdings(k, domain.universe), candidate, v);
      TraverseAndSave(v);
      SavedOneMore(domain, start, done, v);
    }

    /** The deletion of an object with the values it holds; values take nothing along. */
    method TraverseAndDelete(candidate: Obj)
      requires Valid() && candidate in domain.universe
      modifies repository, engine
      ensures Valid() && engine.objects == old(engine.objects) - Taken(k, candidate)
      ensures engine.Start() == old(engine.Start())
      decreases if IsInstance(candidate, k.value) then 0 else 1
    {
      if !IsInstance(candidate, k.value) {
        var todo := Parts(k, candidate);
        while todo != {}
          invariant Valid() && todo <= Parts(k, candidate) && engine.Start() == old(engine.Start())
          invariant engine.objects == old(engine.objects) - (Parts(k, candidate) - todo)
        {
          var v :| v in todo;
          assert v in Parts(k, candidate);
          PartsAreValues(k, domain.schema, candidate, v);
          todo := todo - {v};
          TraverseAndDelete(v);
        }
      }
      if IsInstance(candidate, k.persistent) {
        repository.Remove(candidate);
        engine.Delete(candidate);
      }
    }

    // ---------- transactions ----------

    /** Between two transactions. */
    ghost predicate Between()
      reads this, repository, engine
    {
      Valid() && !closed && !transactionInProgress && engine.Start() == engine.objects
    }

    /** Between two calls of a program. */
    ghost predicate Idle()
      reads this, repository, engine
    {
      Between() && !supplierCacheRetention
    }

    /** Inside a transaction that started from these objects. */
    ghost predicate InTransaction(start: set<Obj>)
      reads this, repository, engine
    {
      Valid() && !closed && transactionInProgress && engine.Start() == start
    }

    /** The same transaction as before a step in it: the remembered answers and the state of the files are
        left alone until its end. */
    ghost predicate Continues(start: set<Obj>, cache: map<S, R>, error: Option<nat>)
      reads this, repository, engine
    {
      InTransaction(start) && supplierCache == cache && blobError == error
    }

    /** After a write: open for the next one, or closed, with the engine as the last commit left it. */
    ghost predicate AtRest()
      reads this, repository, engine
    {
      if closed then !transactionInProgress && engine.Valid() && engine.Start() == engine.objects else Between()
    }

    /** A write: all of the script is done and committed, or nothing at all. */
    method Write(script: seq<Action>) returns (ok: bool)
      requires Between() && AllKnown(domain, script)
      modifies this`closed, this`transactionInProgress, this`supplierCache, this`blobError, repository, engine
      ensures AtRest() && ok == !closed && (ok ==> blobError == Later(old(blobError), 1))
      ensures State() == Written(old(State()), Transacted(domain, old(engine.objects), script, |script|),
                                 old(blobError) == Some(0), supplierCacheRetention)
      ensures !supplierCacheRetention ==>
        State() == After(domain, supply, old(State()), Writing(script, old(blobError) == Some(0)))
      ensures ok <==>
        && old(blobError) != Some(0) && Throw !in script
        && !exists j: nat, o ::
              && j < |script| && script[j] == Action.Delete(o)
              && Referrers(Cleared(domain, AtTurn(domain, old(engine.objects), script, j), o), o) != {}
      ensures ok ==> engine.objects == AtTurn(domain, old(engine.objects), script, |script|)
      ensures !ok ==> closed && engine.objects == old(engine.objects)
      decreases 1, 1
    {
      TransactedExactly(domain, engine.objects, script, |script|);
      BreaksExactly(domain, engine.objects, script);
      transactionInProgress := true;
      ok := Run(script);
      if ok && blobError != Some(0) {
        engine.Commit();
      } else {
        engine.Rollback();
        closed, ok, supplierCache := true, false, map[];
      }
      transactionInProgress, blobError := false, Later(blobError, 1);
      if !closed && !supplierCacheRetention {
        supplierCache := map[];
      }
    }

    /** The code of a transaction, up to the first action that throws. */
    method Run(script: seq<Action>) returns (ok: bool)
      requires InTransaction(engine.Start()) && AllKnown(domain, script)
      modifies this`closed, this`transactionInProgress, this`supplierCache, this`blobError, repository, engine
      ensures Continues(old(engine.Start()), old(supplierCache), old(blobError))
      ensures Transacted(domain, old(engine.objects), script, |script|) == if ok then Some(engine.objects) else None
      decreases 0, 7
    {
      ok := true;
      var i := 0;
      while ok && i < |script|
        invariant i <= |script| && Continues(old(engine.Start()), old(supplierCache), old(blobError))
        invariant Transacted(domain, old(engine.objects), script, i) == if ok then Some(engine.objects) else None
      {
        assert script[i] in script;
        ok := Perform(script[i]);
        i := i + 1;
      }
      if !ok {
        TransactedStops(domain, old(engine.objects), script, i, |script|);
      }
    }

    method Perform(a: Action) returns (ok: bool)
      requires InTransaction(engine.Start()) && Known(domain, a)
      modifies this`closed, this`transactionInProgress, this`supplierCache, this`blobError, repository, engine
      ensures Continues(old(engine.Start()), old(supplierCache), old(blobError))
      ensures Done(domain, old(engine.objects), a) == if ok then Some(engine.objects) else None
      decreases 0, 6
    {
      match a
      case Save(o) => ok := Save(o);
      case Delete(o) => ghost var order; ok, order := Delete(o);
      case DeleteDeliberately(o) => ok := DeleteDeliberately(o);
      case Throw => ok := false;
    }

    /** Saves inside the transaction there is, or else in one of its own. */
    method Save(o: Obj) returns (ok: bool)
      requires (Between() || InTransaction(engine.Start())) && Savable(domain, o)
      modifies this`closed, this`transactionInProgress, this`supplierCache, this`blobError, repository, engine
      ensures old(transactionInProgress) ==> ok && Continues(old(engine.Start()), old(supplierCache), old(blobError))
      ensures old(transactionInProgress) ==> engine.objects == Saved(domain, old(engine.objects), o)
      ensures !old(transactionInProgress) ==>
        AtRest() && ok == !closed && (ok ==> blobError == Later(old(blobError), 1))
      ensures !old(transactionInProgress) ==> State() == After(domain, supply, old(State()),
        if supplierCacheRetention then Persisting(o, old(blobError) == Some(0))
        else Saving(o, old(blobError) == Some(0)))
      decreases if transactionInProgress then 0 else 1, 2
    {
      if transactionInProgress {
        TraverseAndSave(o);
        ok := true;
      } else {
        ok := Write([Action.Save(o)]);
      }
    }

    method DeleteDeliberately(o: Obj) returns (ok: bool)
      requires (Idle() || InTransaction(engine.Start())) && o in domain.universe
      modifies this`closed, this`transactionInProgress, this`supplierCache, this`blobError, repository, engine
      ensures old(transactionInProgress) ==> ok && Continues(old(engine.Start()), old(supplierCache), old(blobError))
      ensures old(transactionInProgress) ==> engine.objects == old(engine.objects) - Taken(k, o)
      ensures !old(transactionInProgress) ==>
        AtRest() && ok == !closed && (ok ==> blobError == Later(old(blobError), 1))
      ensures !old(transactionInProgress) ==>
        State() == After(domain, supply, old(State()), DeletingDeliberately(o, old(blobError) == Some(0)))
      decreases if transactionInProgress then 0 else 1, 2
    {
      if transactionInProgress {
        TraverseAndDelete(o);
        ok := true;
      } else {
        ok := Write([Action.DeleteDeliberately(o)]);
      }
    }

    /** Garbage collection: one list of orphans, each deleted on its own. Outside a transaction every
        deletion is a write. */
    method Gc() returns (ok: bool, ghost order: seq<Obj>)
      requires Idle() || InTransaction(engine.Start())
      modifies this`closed, this`transactionInProgress, this`supplierCache, this`blobError, repository, engine
      ensures Listing(domain, old(engine.objects), order)
      ensures old(transactionInProgress) ==> ok && Continues(old(engine.Start()), old(supplierCache), old(blobError))
      ensures old(transactionInProgress) ==> engine.objects == Collected(k, old(engine.objects))
      ensures !old(transactionInProgress) ==>
        AtRest() && ok == !closed && (ok ==> blobError == Later(old(blobError), |order|))
      ensures !old(transactionInProgress) ==>
        State() == After(domain, supply, old(State()), Collecting(order, old(blobError)))
      decreases if transactionInProgress then 0 else 1, 3
    {
      var garbage := repository.GetGarbage(k.value);
      var orphans := InSomeOrder(garbage);
      order := orphans;
      if transactionInProgress {
        CollectInside(orphans);
        ok := true;
      } else {
        ok := CollectBetween(orphans);
      }
    }

    /** The elements in some order. */
    static method InSomeOrder(s: set<Obj>) returns (order: seq<Obj>)
      ensures NoDup(order) && Elems(order) == s
    {
      order := [];
      var todo := s;
      while todo != {}
        invariant todo <= s && NoDup(order) && Elems(order) == s - todo
      {
        var o :| o in todo;
        NoDupAppended(order, o);
        assert Elems(order + [o]) == Elems(order) + {o};
        todo, order := todo - {o}, order + [o];
      }
    }

    /** The loop of the collection inside a transaction. */
    method CollectInside(orphans: seq<Obj>)
      requires InTransaction(engine.Start()) && Listing(domain, engine.objects, orphans)
      modifies this`closed, this`transactionInProgress, this`supplierCache, this`blobError, repository, engine
      ensures Continues(old(engine.Start()), old(supplierCache), old(blobError))
      ensures engine.objects == Collected(k, old(engine.objects))
      decreases 0, 3, 0
    {
      for i := 0 to |orphans|
        invariant Continues(old(engine.Start()), old(supplierCache), old(blobError))
        invariant engine.objects == old(engine.objects) - Elems(orphans[..i])
      {
        assert orphans[i] in Elems(orphans) && orphans[..i + 1] == orphans[..i] + [orphans[i]];
        var _ := DeleteDeliberately(orphans[i]);
      }
      assert orphans[..|orphans|] == orphans;
    }

    /** The loop outside one, which ends with the first write that fails. */
    method CollectBetween(orphans: seq<Obj>) returns (ok: bool)
      requires Idle() && Listing(domain, engine.objects, orphans)
      modifies this`closed, this`transactionInProgress, this`supplierCache, this`blobError, repository, engine
      ensures AtRest() && ok == !closed && !transactionInProgress
      ensures ok ==> blobError == Later(old(blobError), |orphans|)
      ensures State() == CollectedAll(old(State()), orphans, old(blobError))
      decreases 1, 3, 1
    {
      ok := true;
      for i := 0 to |orphans|
        invariant Underway(old(State()), orphans, i, old(blobError))
      {
        ok := CollectNext(orphans, i, old(State()), old(blobError));
        if !ok {
          return;
        }
      }
    }

    /** Before the `i`-th turn of that loop. */
    ghost predicate Underway(start: Session<S, R>, orphans: seq<Obj>, i: nat, error: Option<nat>)
      reads this, repository, engine
    {
      && Idle() && i <= |orphans| && Listing(domain, start.objects, orphans) && start.objects <= domain.universe
      && !start.closed && State() == CollectedSome(start, orphans, i) && blobError == Later(error, i)
      && (error.Some? ==> i <= error.value)
    }

    method CollectNext(orphans: seq<Obj>, i: nat, ghost start: Session<S, R>, ghost error: Option<nat>)
      returns (ok: bool)
      requires Underway(start, orphans, i, error) && i < |orphans|
      modifies this`closed, this`transactionInProgress, this`supplierCache, this`blobError, repository, engine
      ensures ok ==> Underway(start, orphans, i + 1, error)
      ensures !ok ==> AtRest() && closed && State() == CollectedAll(start, orphans, error)
      decreases 1, 3, 0
    {
      assert orphans[i] in Elems(orphans);
      CollectedMore(domain, supply, start, orphans, i, blobError == Some(0));
      ok := DeleteDeliberately(orphans[i]);
    }

    /** Whether something is still seen to refer to the object, if need be after a collection. */
    method IsReferred(o: Obj) returns (ok: bool, referred: bool, ghost order: seq<Obj>)
      requires Idle() || InTransaction(engine.Start())
      modifies this`closed, this`transactionInProgress, this`supplierCache, this`blobError, repository, engine
      ensures Listing(domain, old(engine.objects), order)
      ensures old(transactionInProgress) ==> ok && Continues(old(engine.Start()), old(supplierCache), old(blobError))
      ensures old(transactionInProgress) ==> engine.objects == Cleared(domain, old(engine.objects), o)
      ensures !old(transactionInProgress) ==> AtRest() && ok == !closed
      ensures !old(transactionInProgress) && ok ==>
        blobError == Later(old(blobError), if Referrers(old(engine.objects), o) == {} then 0 else |order|)
      ensures !old(transactionInProgress) ==> State() == ClearedFor(old(State()), o, order, old(blobError))
      ensures ok ==> (referred <==> Referrers(engine.objects, o) != {})
      decreases if transactionInProgress then 0 else 1, 4
    {
      var referrers := repository.GetReferrers(o);
      ok, referred := true, referrers != {};
      if referred {
        ok, order := Gc();
        if ok {
          referrers := repository.GetReferrers(o);
          referred := referrers != {};
        }
      } else {
        order := SomeListing(Orphans(engine.objects, k.value));
      }
    }

    /** A deletion; if it is refused, a collection that was made for it stays, inside a transaction as
        well as outside. */
    method Delete(o: Obj) returns (ok: bool, ghost order: seq<Obj>)
      requires (Idle() || InTransaction(engine.Start())) && o in domain.universe
      modifies this`closed, this`transactionInProgress, this`supplierCache, this`blobError, repository, engine
      ensures Listing(domain, old(engine.objects), order)
      ensures old(transactionInProgress) ==> Continues(old(engine.Start()), old(supplierCache), old(blobError))
      ensures old(transactionInProgress) ==>
        Deleted(domain, old(engine.objects), o) == if ok then Some(engine.objects) else None
      ensures old(transactionInProgress) && !ok ==> engine.objects == Cleared(domain, old(engine.objects), o)
      ensures !old(transactionInProgress) ==> AtRest()
      ensures !old(transactionInProgress) ==>
        State() == After(domain, supply, old(State()), Deleting(o, order, old(blobError)))
      ensures !old(transactionInProgress) ==> (ok <==> !closed && Deleted(domain, old(engine.objects), o).Some?)
      decreases if transactionInProgress then 0 else 1, 5
    {
      var referred;
      ok, referred, order := IsReferred(o);
      if !ok || referred {
        ok := false;
      } else if transactionInProgress {
        TraverseAndDelete(o);
      } else {
        ok := Write([Action.Delete(o)]);
      }
    }

    // ---------- queries ----------

    /** A query by class. */
    method Query(c: Class) returns (r: set<Obj>)
      requires Valid()
      ensures r == OfClass(engine.objects, c)
    {
      r := repository.Get(c);
    }

    /** A query with a supplier, between two calls or inside a transaction: the answer is remembered until
        the next write. */
    method QuerySupplier(supplier: S) returns (r: R)
      requires Idle() || InTransaction(engine.Start())
      modifies this`supplierCache
      ensures if old(transactionInProgress) then InTransaction(old(engine.Start())) else Idle()
      ensures State() == After(domain, supply, old(State()), Ask(supplier)) && r == supplierCache[supplier]
      ensures Remembers(supply, old(State())) ==> Remembers(supply, State()) && r == supply(supplier, engine.objects)
    {
      if supplier !in supplierCache {
        var all := Query(repository.top);
        assert all == repository.objects;
        supplierCache := supplierCache[supplier := supply(supplier, all)];
      }
      r := supplierCache[supplier];
    }

    /** `persist`: a save that keeps what is remembered; inside a transaction part of it. */
    method Persist(o: Obj) returns (ok: bool)
      requires (Idle() || InTransaction(engine.Start())) && Savable(domain, o)
      modifies this`closed, this`transactionInProgress, this`supplierCache, this`blobError, this`supplierCacheRetention
      modifies repository, engine
      ensures !supplierCacheRetention
      ensures old(transactionInProgress) ==> ok && Continues(old(engine.Start()), old(supplierCache), old(blobError))
      ensures old(transactionInProgress) ==> engine.objects == Saved(domain, old(engine.objects), o)
      ensures !old(transactionInProgress) ==>
        AtRest() && ok == !closed && (ok ==> blobError == Later(old(blobError), 1))
      ensures !old(transactionInProgress) ==>
        State() == After(domain, supply, old(State()), Persisting(o, old(blobError) == Some(0)))
    {
      supplierCacheRetention := true;
      ok := Save(o);
      supplierCacheRetention := false;
    }
  }
}
