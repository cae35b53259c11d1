/** bootstrap/syncmanager.go: the pipeline that fetches, executes and commits blocks.  Workers,
    commands and database statements fail at will, and the process may crash between any two
    steps: a crash is a return, because all that survives either is the database. */
module SyncManager {
  import opened Wrappers
  import opened EventStore
  import Window

  /** Spins: the call goes round for ever without changing anything. */
  datatype Outcome = Done | Failed | Spins

  /** The events table after the blocks 0, ..., n-1 have been committed in order. */
  function Ledger<E>(eventsAt: int -> seq<E>, n: nat): seq<Row<E>> {
    if n == 0 then [] else Ledger(eventsAt, n - 1) + Tagged(n - 1, eventsAt(n - 1))
  }

  class SyncManager<C, E> {
    const eventHandler: EventStoreHandler<E>
    const windowSize: int
    /** What the chain holds: the commands of each block, and the event a command produces. */
    const commandsAt: int -> seq<C>
    const exec: C -> E
    /** How many blocks have been committed. */
    ghost var committed: nat

    function EventsAt(): int -> seq<E> {
      h => Executed(commandsAt(h))
    }

    function Executed(commands: seq<C>): seq<E> {
      if commands == [] then [] else Executed(commands[..|commands| - 1]) + [exec(commands[|commands| - 1])]
    }

    lemma {:induction false} ExecutedAt(commands: seq<C>)
      ensures |Executed(commands)| == |commands|
      ensures forall i :: 0 <= i < |commands| ==> Executed(commands)[i] == exec(commands[i])
    {
      if commands != [] {
        ExecutedAt(commands[..|commands| - 1]);
      }
    }

    /** The database holds exactly the blocks 0, ..., committed-1 of the chain, in order, each
        once, and the status row agrees. */
    ghost predicate Valid()
      reads this, eventHandler
    {
      && eventHandler.rows == Ledger(EventsAt(), committed)
      && eventHandler.LastIndexed() == (if committed == 0 then None else Some(committed - 1))
    }

    /** Valid spelled out for one height: the rows of a committed block are the events of its
        commands, one per command, in their order; no other height has rows. */
    lemma RowsHoldCommands(h: int)
      requires Valid()
      ensures 0 <= h < committed ==>
                && |RowsAt(eventHandler.rows, h)| == |commandsAt(h)|
                && forall i :: 0 <= i < |commandsAt(h)| ==> RowsAt(eventHandler.rows, h)[i] == exec(commandsAt(h)[i])
      ensures !(0 <= h < committed) ==> RowsAt(eventHandler.rows, h) == []
    {
      LedgerAtHeight(EventsAt(), committed, h);
      ExecutedAt(commandsAt(h));
    }

    /** The heights of the rows never go down. */
    lemma RowsInOrder(i: nat, j: nat)
      requires Valid() && i <= j < |eventHandler.rows|
      ensures 0 <= eventHandler.rows[i].height <= eventHandler.rows[j].height < committed
    {
      LedgerInOrder(EventsAt(), committed, i, j);
    }

    constructor (env: Environment, windowSize: int, commandsAt: int -> seq<C>, exec: C -> E)
      ensures Valid() && committed == 0 && fresh(eventHandler) && eventHandler.env == env
      ensures this.windowSize == windowSize && this.commandsAt == commandsAt && this.exec == exec
    {
      this.windowSize, this.commandsAt, this.exec := windowSize, commandsAt, exec;
      eventHandler := new EventStoreHandler(env);
      committed := 0;
    }

    /** Executes the commands of one block in order; it fails exactly when one of them does. */
    method ExecuteCommands(commands: seq<C>) returns (r: Result<seq<E>, ()>)
      modifies eventHandler.env
      ensures eventHandler.env.faults == old(eventHandler.env.faults) + (if r.Failure? then 1 else 0)
      ensures r.Success? ==>
                |r.value| == |commands| && forall i :: 0 <= i < |commands| ==> r.value[i] == exec(commands[i])
    {
      var events: seq<E> := [];
      for i := 0 to |commands|
        invariant |events| == i && forall j :: 0 <= j < i ==> events[j] == exec(commands[j])
        invariant eventHandler.env.faults == old(eventHandler.env.faults)
      {
        var failed := eventHandler.env.MayFail();
        if failed {
          return Failure(());
        }
        events := events + [exec(commands[i])];
      }
      return Success(events);
    }

    /** Commits one block: the height must be the next one. */
    method CommitBlock(blockHeight: int, commands: seq<C>) returns (outcome: Outcome)
      requires Valid() && blockHeight == committed && commands == commandsAt(blockHeight)
      modifies this`committed, eventHandler, eventHandler.env
      ensures Valid()
      ensures old(committed) <= committed <= old(committed) + 1
      ensures outcome.Done? ==> committed == old(committed) + 1
      ensures !outcome.Spins? && eventHandler.env.faults == old(eventHandler.env.faults) + (if outcome.Failed? then 1 else 0)
    {
      var events := ExecuteCommands(commands);
      if events.Failure? {
        return Failed;
      }
      ExecutedAt(commands);
      assert events.value == Executed(commands);
      var crashed := eventHandler.env.MayFail();
      if crashed {
        return Failed;
      }
      label before:
      var handled := eventHandler.HandleEvents(blockHeight, events.value);
      if eventHandler.Stored(blockHeight, events.value, old@before(eventHandler.rows)) {
        committed := committed + 1;
      }
      return if handled.Success? then Done else Failed;
    }

    /** The commands of the next heights, fetched by workers any of which may fail.  It fails exactly
        when one of them does, or on a negative window. */
    method FetchWindow(currentHeight: int, targetHeight: int) returns (r: Result<seq<seq<C>>, ()>, syncedHeight: int)
      requires currentHeight <= targetHeight
      modifies eventHandler.env
      ensures r.Success? ==>
                && windowSize >= 0 && eventHandler.env.faults == old(eventHandler.env.faults)
                && |r.value| == syncedHeight + 1 - currentHeight && syncedHeight <= targetHeight
                && (windowSize >= 1 ==> syncedHeight >= currentHeight)
                && (windowSize == 0 ==> syncedHeight == currentHeight - 1)
                && forall i :: 0 <= i < |r.value| ==> r.value[i] == commandsAt(currentHeight + i)
      ensures r.Failure? ==> windowSize < 0 || eventHandler.env.faults == old(eventHandler.env.faults) + 1
      ensures eventHandler.env.faults >= old(eventHandler.env.faults)
    {
      Window.WindowProgressIff(currentHeight, targetHeight, windowSize);
      var endHeight := Window.EndHeight(currentHeight, targetHeight, windowSize);
      var failing := eventHandler.env.FailingWorkers(currentHeight, endHeight);
      var worker := h => if h in failing then Failure(()) else Success(commandsAt(h));
      var blocksCommands;
      blocksCommands, syncedHeight := Window.Sync(currentHeight, targetHeight, windowSize, worker);
      if blocksCommands.Failure? {
        return Failure(()), syncedHeight;
      }
      forall h ensures h !in failing {
        assert currentHeight <= h <= endHeight ==> worker(h).Success?;
      }
      return Success(blocksCommands.value), syncedHeight;
    }

    /** The blocks of one window, lowest height first; the first failure ends it. */
    method CommitWindow(beginHeight: int, blocksCommands: seq<seq<C>>) returns (outcome: Outcome)
      requires Valid() && beginHeight == committed
      requires forall i :: 0 <= i < |blocksCommands| ==> blocksCommands[i] == commandsAt(beginHeight + i)
      modifies this`committed, eventHandler, eventHandler.env
      ensures Valid()
      ensures old(committed) <= committed <= old(committed) + |blocksCommands|
      ensures outcome.Done? ==> committed == old(committed) + |blocksCommands|
      ensures !outcome.Spins? && eventHandler.env.faults == old(eventHandler.env.faults) + (if outcome.Failed? then 1 else 0)
    {
      for i := 0 to |blocksCommands|
        invariant Valid() && committed == beginHeight + i
        invariant eventHandler.env.faults == old(eventHandler.env.faults)
      {
        var committedBlock := CommitBlock(beginHeight + i, blocksCommands[i]);
        if committedBlock.Failed? {
          return Failed;
        }
      }
      return Done;
    }

    /** One call.  However it ends, the database holds a prefix of the chain that has only grown,
        and not beyond the target: the latest height, or on a retry with more than one block to go
        the block after the next.  When it succeeds, up to the target exactly, and it succeeds when
        nothing fails.  It ends unless there is work to do and the window is empty; a window of no
        size at all does no work. */
    method SyncBlocks(latestHeight: int, isRetry: bool) returns (outcome: Outcome)
      requires Valid()
      modifies this`committed, eventHandler, eventHandler.env
      ensures Valid()
      ensures var target := if isRetry && latestHeight > old(committed) then old(committed) + 1 else latestHeight;
              && old(committed) <= committed
              && (committed > old(committed) ==> committed <= target + 1)
              && (outcome.Done? ==> committed == if target < old(committed) then old(committed) else target + 1)
              && (outcome.Spins? ==> windowSize == 0 && old(committed) <= target)
              && (outcome.Failed? ==> eventHandler.env.faults > old(eventHandler.env.faults) || (windowSize < 0 && old(committed) <= target))
              && (windowSize < 1 ==> committed == old(committed))
      ensures eventHandler.env.faults >= old(eventHandler.env.faults)
    {
      var maybeLastIndexedHeight := eventHandler.GetLastHandledEventHeight();
      if maybeLastIndexedHeight.Failure? {
        return Failed;
      }
      var currentIndexingHeight := 0;
      if maybeLastIndexedHeight.value.Some? {
        currentIndexingHeight := maybeLastIndexedHeight.value.value + 1;
      }
      var targetHeight := latestHeight;
      if isRetry {
        if latestHeight > currentIndexingHeight {
          targetHeight := currentIndexingHeight + 1;
        }
      }
      while currentIndexingHeight <= targetHeight
        invariant Valid() && currentIndexingHeight == committed
        invariant old(committed) <= committed && (committed > old(committed) ==> committed <= targetHeight + 1)
        invariant windowSize < 1 ==> committed == old(committed)
        invariant eventHandler.env.faults == old(eventHandler.env.faults)
        decreases targetHeight - currentIndexingHeight + 1
      {
        var blocksCommands, syncedHeight := FetchWindow(currentIndexingHeight, targetHeight);
        if blocksCommands.Failure? {
          return Failed;
        }
        if syncedHeight + 1 == currentIndexingHeight {
          // an empty window: the next round is this one again
          return Spins;
        }
        var committedWindow := CommitWindow(currentIndexingHeight, blocksCommands.value);
        if committedWindow.Failed? {
          return Failed;
        }
        currentIndexingHeight := syncedHeight + 1;
      }
      return Done;
    }

    /** Any sequence of calls, retries or not, with failures and crashes in between, up to one that
        does not return.  If nothing fails and the window is not empty, every height that was asked
        for without a retry is committed. */
    method Run(calls: seq<(int, bool)>)
      requires Valid()
      modifies this`committed, eventHandler, eventHandler.env
      ensures Valid() && old(committed) <= committed
      ensures committed == old(committed) || exists i :: 0 <= i < |calls| && committed <= calls[i].0 + 1
      ensures windowSize >= 1 && eventHandler.env.faults == old(eventHandler.env.faults) ==>
                forall i :: 0 <= i < |calls| && !calls[i].1 ==> calls[i].0 < committed
    {
      for i := 0 to |calls|
        invariant Valid() && old(committed) <= committed
        invariant committed == old(committed) || exists j :: 0 <= j < i && committed <= calls[j].0 + 1
        invariant eventHandler.env.faults >= old(eventHandler.env.faults)
        invariant windowSize >= 1 && eventHandler.env.faults == old(eventHandler.env.faults) ==>
                    forall j :: 0 <= j < i && !calls[j].1 ==> calls[j].0 < committed
      {
        var outcome := SyncBlocks(calls[i].0, calls[i].1);
        if outcome.Spins? {
          return;
        }
      }
    }
  }

  /** What Valid says about single rows: height k holds the events of block k, nothing else. */
  function RowsAt<E>(rows: seq<Row<E>>, height: int): seq<E> {
    if rows == [] then []
    else RowsAt(rows[..|rows| - 1], height) + (if rows[|rows| - 1].height == height then [rows[|rows| - 1].event] else [])
  }

  lemma RowsAtNext<E>(rows: seq<Row<E>>, row: Row<E>, height: int)
    ensures RowsAt(rows + [row], height) == RowsAt(rows, height) + (if row.height == height then [row.event] else [])
  {
    assert (rows + [row])[..|rows|] == rows;
  }

  lemma {:induction false} RowsAtAppend<E>(rows: seq<Row<E>>, height: int, tag: int, events: seq<E>)
    ensures RowsAt(rows + Tagged(tag, events), height) == if tag == height then RowsAt(rows, height) + events else RowsAt(rows, height)
  {
    if events == [] {
      assert rows + [] == rows;
      assert RowsAt(rows, height) + [] == RowsAt(rows, height);
    } else {
      var front, last := events[..|events| - 1], events[|events| - 1];
      var most := rows + Tagged(tag, front);
      RowsAtAppend(rows, height, tag, front);
      RowsAtNext(most, Row(tag, last), height);
      assert rows + Tagged(tag, events) == most + [Row(tag, last)];
      if tag == height {
        assert events == front + [last];
        assert RowsAt(rows, height) + front + [last] == RowsAt(rows, height) + events;
      } else {
        assert RowsAt(rows, height) + [] == RowsAt(rows, height);
      }
    }
  }

  lemma {:induction false} LedgerAtHeight<E>(eventsAt: int -> seq<E>, n: nat, height: int)
    ensures RowsAt(Ledger(eventsAt, n), height) == if 0 <= height < n then eventsAt(height) else []
  {
    if n > 0 {
      var before := Ledger(eventsAt, n - 1);
      LedgerAtHeight(eventsAt, n - 1, height);
      RowsAtAppend(before, height, n - 1, eventsAt(n - 1));
      if height == n - 1 {
        assert [] + eventsAt(height) == eventsAt(height);
      }
    }
  }

  lemma {:induction false} LedgerInOrder<E>(eventsAt: int -> seq<E>, n: nat, i: nat, j: nat)
    requires i <= j < |Ledger(eventsAt, n)|
    ensures 0 <= Ledger(eventsAt, n)[i].height <= Ledger(eventsAt, n)[j].height < n
  {
    if n > 0 {
      var before := Ledger(eventsAt, n - 1);
      TaggedAt(n - 1, eventsAt(n - 1));
      if i < |before| {
        LedgerInOrder(eventsAt, n - 1, i, if j < |before| then j else i);
      }
    }
  }
}
