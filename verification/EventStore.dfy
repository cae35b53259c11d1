/** appinterface/event and appinterface/eventhandler: the events table, the status row, and the
    handler that writes both in one transaction.  Any statement may fail at any time. */
module EventStore {
  import opened Wrappers

  datatype Row<E> = Row(height: int, event: E)

  const BATCH_SIZE: nat := 500

  function Tagged<E>(height: int, events: seq<E>): seq<Row<E>> {
    if events == [] then [] else Tagged(height, events[..|events| - 1]) + [Row(height, events[|events| - 1])]
  }

  lemma {:induction false} TaggedAt<E>(height: int, events: seq<E>)
    ensures |Tagged(height, events)| == |events|
    ensures forall i :: 0 <= i < |events| ==> Tagged(height, events)[i] == Row(height, events[i])
  {
    if events != [] {
      TaggedAt(height, events[..|events| - 1]);
    }
  }

  /** What may go wrong around the code: a statement that the database refuses, a worker that fails, a
      command that fails, a crash.  Every fault is recorded. */
  class Environment {
    ghost var faults: nat

    constructor ()
      ensures faults == 0
    {
      faults := 0;
    }

    method MayFail() returns (failed: bool)
      modifies this
      ensures faults == old(faults) + (if failed then 1 else 0)
    {
      failed := *;
      if failed {
        faults := faults + 1;
      }
    }

    /** The workers that fail among those for the heights from begin to end. */
    method FailingWorkers(begin: int, end: int) returns (failing: set<int>)
      modifies this
      ensures forall h :: h in failing ==> begin <= h <= end
      ensures faults == old(faults) + (if failing == {} then 0 else 1)
    {
      var any: set<int> := *;
      failing := set h | h in any && begin <= h <= end;
      if failing != {} {
        faults := faults + 1;
      }
    }
  }

  /** The uncommitted copy of the tables that one transaction works on. */
  class Transaction<E> {
    const env: Environment
    var rows: seq<Row<E>>
    var lastIndexed: Option<int>
    ghost var statements: seq<seq<Row<E>>>

    constructor (env: Environment, rows: seq<Row<E>>, lastIndexed: Option<int>)
      ensures this.env == env && this.rows == rows && this.lastIndexed == lastIndexed && statements == []
    {
      this.env := env;
      this.rows := rows;
      this.lastIndexed := lastIndexed;
      statements := [];
    }

    method Exec(values: seq<Row<E>>) returns (failed: bool)
      modifies this, env
      ensures lastIndexed == old(lastIndexed)
      ensures env.faults == old(env.faults) + (if failed then 1 else 0)
      ensures !failed ==> rows == old(rows) + values && statements == old(statements) + [values]
    {
      failed := env.MayFail();
      if !failed {
        rows := rows + values;
        statements := statements + [values];
      }
    }

    /** InsertAllWithRDbHandle: the events go in by statements of at most 500 rows each, and
        together the statements insert exactly the events, in order. */
    method InsertAll(height: int, events: seq<E>) returns (failed: bool)
      requires statements == []
      modifies this, env
      ensures lastIndexed == old(lastIndexed)
      ensures env.faults == old(env.faults) + (if failed then 1 else 0)
      ensures !failed ==> rows == old(rows) + Tagged(height, events)
      ensures !failed ==> forall i :: 0 <= i < |statements| ==> 1 <= |statements[i]| <= 500
    {
      assert rows == rows + [];
      if |events| == 0 {
        return false;
      }
      var pending: seq<Row<E>> := [];
      var eventCount := |events|;
      for i := 0 to eventCount
        invariant lastIndexed == old(lastIndexed) && env.faults == old(env.faults)
        invariant rows + pending == old(rows) + Tagged(height, events[..i])
        invariant |pending| < BATCH_SIZE && (i == eventCount ==> pending == [])
        invariant forall k :: 0 <= k < |statements| ==> 1 <= |statements[k]| <= BATCH_SIZE
      {
        var encodingFailed := env.MayFail();
        if encodingFailed {
          return true;
        }
        assert events[..i + 1][..i] == events[..i];
        assert rows + (pending + [Row(height, events[i])]) == (rows + pending) + [Row(height, events[i])];
        pending := pending + [Row(height, events[i])];
        if |pending| == BATCH_SIZE || i + 1 == eventCount {
          var execFailed := Exec(pending);
          if execFailed {
            return true;
          }
          pending := [];
          assert rows + [] == rows;
        }
      }
      assert events[..eventCount] == events;
      return false;
    }
  }

  /** RDbEventStoreHandler with its database.  The status table has at most one row, which is
      created empty on first use. */
  class EventStoreHandler<E> {
    const env: Environment
    var rows: seq<Row<E>>
    var statusRow: Option<Option<int>>

    constructor (env: Environment)
      ensures this.env == env && rows == [] && statusRow == None
    {
      this.env := env;
      rows := [];
      statusRow := None;
    }

    /** The height a reader of the status row finds: none while there is no row, or an empty one. */
    function LastIndexed(): Option<int>
      reads this
    {
      if statusRow.Some? then statusRow.value else None
    }

    method InitStatus() returns (failed: bool)
      modifies this`statusRow, env
      ensures LastIndexed() == old(LastIndexed())
      ensures env.faults == old(env.faults) + (if failed then 1 else 0)
      ensures !failed ==> statusRow.Some?
    {
      failed := env.MayFail();
      if !failed && statusRow.None? {
        failed := env.MayFail();
        if !failed {
          statusRow := Some(None);
        }
      }
    }

    /** Fails exactly when a statement does. */
    method GetLastHandledEventHeight() returns (r: Result<Option<int>, ()>)
      modifies this`statusRow, env
      ensures LastIndexed() == old(LastIndexed())
      ensures env.faults == old(env.faults) + (if r.Failure? then 1 else 0)
      ensures r.Success? ==> r.value == LastIndexed()
    {
      var failed := InitStatus();
      if failed {
        return Failure(());
      }
      failed := env.MayFail();
      if failed {
        return Failure(());
      }
      return Success(statusRow.value);
    }

    /** Events and height reach the tables together or not at all.  A commit whose reply is lost
        is reported as a failure although it took effect.  Without a fault it succeeds. */
    method HandleEvents(blockHeight: int, events: seq<E>) returns (r: Result<(), ()>)
      modifies this, env
      ensures env.faults == old(env.faults) + (if r.Failure? then 1 else 0)
      ensures r.Success? ==> Stored(blockHeight, events, old(rows))
      ensures r.Failure? ==>
                || (rows == old(rows) && LastIndexed() == old(LastIndexed()))
                || Stored(blockHeight, events, old(rows))
    {
      var failed := env.MayFail();
      if failed {
        return Failure(());
      }
      var tx := new Transaction(env, rows, LastIndexed());
      failed := tx.InsertAll(blockHeight, events);
      if failed {
        return Failure(());
      }
      // the status row is initialised outside the transaction
      failed := InitStatus();
      if failed {
        return Failure(());
      }
      failed := env.MayFail();
      if failed {
        return Failure(());
      }
      tx.lastIndexed := Some(blockHeight);
      failed := env.MayFail();
      if failed {
        return Failure(());
      }
      rows, statusRow := tx.rows, Some(tx.lastIndexed);
      var replyLost := env.MayFail();
      if replyLost {
        return Failure(());
      }
      return Success(());
    }

    ghost predicate Stored(blockHeight: int, events: seq<E>, before: seq<Row<E>>)
      reads this
    {
      rows == before + Tagged(blockHeight, events) && LastIndexed() == Some(blockHeight)
    }
  }
}
