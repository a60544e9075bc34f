/** The persistence engine with its own undo log: two sets that remember what a transaction changed. */
module Engine {

  /** What the transaction started from, as the three sets tell it. */
  ghost function Base<T>(objects: set<T>, added: set<T>, deleted: set<T>): set<T> {
    objects - added + deleted
  }

  class PersistenceEngineXStream<T(==)> {
    var objects: set<T>
    var added: set<T>
    var deleted: set<T>

    constructor (stored: set<T>)
      ensures objects == stored && Valid() && Start() == stored
    {
      objects, added, deleted := stored, {}, {};
    }

    /** An object that is deleted and saved again is in both sets; that does no harm. */
    ghost predicate Valid()
      reads this
    {
      added <= objects
    }

    /** The objects at the start of the transaction. */
    ghost function Start(): set<T>
      reads this
    {
      Base(objects, added, deleted)
    }

    method Save(object': T)
      requires Valid()
      modifies this
      ensures Valid() && objects == old(objects) + {object'} && Start() == old(Start())
    {
      if object' in objects {
        return;
      }
      objects := objects + {object'};
      added := added + {object'};
    }

    method Delete(object': T)
      requires Valid()
      modifies this
      ensures Valid() && objects == old(objects) - {object'} && Start() == old(Start())
    {
      if object' in objects {
        objects := objects - {object'};
        if object' in added {
          added := added - {object'};
        } else {
          deleted := deleted + {object'};
        }
      }
    }

    method Commit()
      modifies this
      ensures Valid() && objects == old(objects) && Start() == objects
    {
      added, deleted := {}, {};
    }

    method Rollback()
      requires Valid()
      modifies this
      ensures Valid() && objects == old(Start()) && Start() == objects
    {
      var i := added;
      while i != {}
        invariant objects == old(objects) - (added - i) && i <= added
        invariant added == old(added) && deleted == old(deleted)
      {
        var o :| o in i;
        objects, i := objects - {o}, i - {o};
      }
      i := deleted;
      while i != {}
        invariant objects == old(objects) - added + (deleted - i) && i <= deleted
        invariant added == old(added) && deleted == old(deleted)
      {
        var o :| o in i;
        objects, i := objects + {o}, i - {o};
      }
      added, deleted := {}, {};
    }
  }
}
