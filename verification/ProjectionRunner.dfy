/** entity/projection/manager.go and appinterface/eventhandler/projection.go: the two ways a
    projection is fed.  In direct mode the sync pipeline hands every block to the projection; in
    event-store mode a runner per projection chases the committed events. */
module ProjectionRunner {
  import opened Wrappers
  import opened EventStore
  import EventRegistry
  import SyncManager

  datatype Event = Event(name: string, payload: string)

  /** One batch a projection has handled: its height and the events that passed the filter. */
  datatype Batch = Batch(height: int, events: seq<Event>)

  /** isListeningEvent. */
  method IsListening(event: Event, eventsToListen: seq<string>) returns (r: bool)
    ensures r <==> event.name in eventsToListen
  {
    for i := 0 to |eventsToListen|
      invariant event.name !in eventsToListen[..i]
    {
      if event.name == eventsToListen[i] {
        return true;
      }
    }
    assert eventsToListen[..|eventsToListen|] == eventsToListen;
    return false;
  }

  function Filter(events: seq<Event>, eventsToListen: seq<string>): seq<Event> {
    if events == [] then []
    else Filter(events[..|events| - 1], eventsToListen)
         + (if events[|events| - 1].name in eventsToListen then [events[|events| - 1]] else [])
  }

  /** Where in `events` the elements of `filtered` stand: in order, each once, and exactly where a
      listened event stands. */
  ghost predicate Picks(events: seq<Event>, eventsToListen: seq<string>, filtered: seq<Event>, indices: seq<int>) {
    && |indices| == |filtered|
    && (forall k :: 0 <= k < |indices| ==> 0 <= indices[k] < |events| && filtered[k] == events[indices[k]])
    && (forall k, l :: 0 <= k < l < |indices| ==> indices[k] < indices[l])
    && (forall j :: 0 <= j < |events| ==> (j in indices <==> events[j].name in eventsToListen))
  }

  /** `filtered` is what remains of `events` for a projection that listens to these names. */
  ghost predicate IsListened(events: seq<Event>, eventsToListen: seq<string>, filtered: seq<Event>) {
    exists indices :: Picks(events, eventsToListen, filtered, indices)
  }

  lemma PicksNext(events: seq<Event>, i: nat, eventsToListen: seq<string>, filtered: seq<Event>, indices: seq<int>)
    requires i < |events| && Picks(events[..i], eventsToListen, filtered, indices)
    ensures events[i].name in eventsToListen ==>
              Picks(events[..i + 1], eventsToListen, filtered + [events[i]], indices + [i])
    ensures events[i].name !in eventsToListen ==> Picks(events[..i + 1], eventsToListen, filtered, indices)
  {
    if events[i].name in eventsToListen {
      var more := indices + [i];
      forall j | 0 <= j < i + 1 ensures j in more <==> events[..i + 1][j].name in eventsToListen {
        if j < i { assert events[..i][j] == events[j]; }
      }
    } else {
      forall j | 0 <= j < i + 1 ensures j in indices <==> events[..i + 1][j].name in eventsToListen {
        if j < i { assert events[..i][j] == events[j]; }
      }
    }
  }

  /** The loop both modes use to drop the events a projection does not listen to. */
  method FilterEvents(events: seq<Event>, eventsToListen: seq<string>) returns (filtered: seq<Event>)
    ensures IsListened(events, eventsToListen, filtered)
    ensures filtered == Filter(events, eventsToListen)
  {
    filtered := [];
    ghost var indices: seq<int> := [];
    for i := 0 to |events|
      invariant Picks(events[..i], eventsToListen, filtered, indices)
      invariant filtered == Filter(events[..i], eventsToListen)
    {
      var listening := IsListening(events[i], eventsToListen);
      assert events[..i + 1][..i] == events[..i];
      PicksNext(events, i, eventsToListen, filtered, indices);
      if listening {
        filtered := filtered + [events[i]];
        indices := indices + [i];
      }
    }
    assert events[..|events|] == events;
  }

  lemma {:induction false} FilterIsListened(events: seq<Event>, eventsToListen: seq<string>) returns (indices: seq<int>)
    ensures Picks(events, eventsToListen, Filter(events, eventsToListen), indices)
  {
    if events == [] {
      indices := [];
    } else {
      var i := |events| - 1;
      indices := FilterIsListened(events[..i], eventsToListen);
      PicksNext(events, i, eventsToListen, Filter(events[..i], eventsToListen), indices);
      assert events[..i + 1] == events;
      if events[i].name in eventsToListen {
        indices := indices + [i];
      } else {
        assert Filter(events[..i], eventsToListen) + [] == Filter(events[..i], eventsToListen);
      }
    }
  }

  // ---- direct mode

  /** What direct mode makes a projection handle for the blocks 0, ..., n-1. */
  function Direct(eventsAt: int -> seq<Event>, eventsToListen: seq<string>, n: nat): seq<Batch> {
    if n == 0 then [] else Direct(eventsAt, eventsToListen, n - 1) + [Batch(n - 1, Filter(eventsAt(n - 1), eventsToListen))]
  }

  /** A projection with its database: the batches it has applied and the persisted height, which
      one transaction moves together. */
  class Projection {
    const env: Environment
    const eventsToListen: seq<string>
    var handled: seq<Batch>
    var lastHandled: Option<int>

    constructor (env: Environment, eventsToListen: seq<string>)
      ensures this.env == env && this.eventsToListen == eventsToListen && handled == [] && lastHandled == None
    {
      this.env, this.eventsToListen := env, eventsToListen;
      handled := [];
      lastHandled := None;
    }

    method HandleEvents(height: int, events: seq<Event>) returns (failed: bool)
      modifies this, env
      ensures env.faults == old(env.faults) + (if failed then 1 else 0)
      ensures failed ==> handled == old(handled) && lastHandled == old(lastHandled)
      ensures !failed ==> handled == old(handled) + [Batch(height, events)] && lastHandled == Some(height)
    {
      failed := env.MayFail();
      if !failed {
        handled, lastHandled := handled + [Batch(height, events)], Some(height);
      }
    }

    /** ProjectionHandler.HandleEvents: on the next block of the chain it extends Direct by one.  It
        fails exactly when the projection's transaction does. */
    method HandleBlock(ghost eventsAt: int -> seq<Event>, height: nat, events: seq<Event>) returns (failed: bool)
      requires events == eventsAt(height) && handled == Direct(eventsAt, eventsToListen, height)
      modifies this, env
      ensures env.faults == old(env.faults) + (if failed then 1 else 0)
      ensures failed ==> handled == old(handled) && lastHandled == old(lastHandled)
      ensures !failed ==> handled == Direct(eventsAt, eventsToListen, height + 1) && lastHandled == Some(height)
      ensures !failed ==> |handled| == |old(handled)| + 1 && handled[..|old(handled)|] == old(handled)
                          && handled[|old(handled)|].height == height
                          && IsListened(events, eventsToListen, handled[|old(handled)|].events)
    {
      var filtered := FilterEvents(events, eventsToListen);
      failed := HandleEvents(height, filtered);
    }
  }

  // ---- event-store mode, as a transition system

  /** The chain, the event types the registry can decode, and what each projection listens to. */
  datatype Config = Config(eventsAt: int -> seq<Event>, registered: set<string>, listening: seq<seq<string>>)

  /** A runner: what its projection has persisted, and the local variables of its goroutine,
      which exist only while it is running. */
  datatype Runner = Runner(handled: seq<Batch>, lastHandled: Option<int>, local: Option<Local>)

  datatype Local = Local(nextEventHeight: int, latestEventHeight: Option<int>, eventsAtHeight: Option<seq<Event>>)

  datatype World = World(rows: seq<Row<Event>>, blocks: nat, runners: seq<Runner>)

  /** GetLatestHeight: SELECT MAX(height), none on an empty table. */
  function LatestHeight(rows: seq<Row<Event>>): Option<int> {
    if rows == [] then None
    else
      var rest := LatestHeight(rows[..|rows| - 1]);
      var last := rows[|rows| - 1].height;
      if rest.None? || rest.value < last then Some(last) else rest
  }

  predicate AllRegistered(registered: set<string>, events: seq<Event>) {
    forall i :: 0 <= i < |events| ==> events[i].name in registered
  }

  /** GetAllByHeight: one event of unregistered type fails the whole query. */
  function GetAllByHeight(registered: set<string>, rows: seq<Row<Event>>, height: int): Option<seq<Event>> {
    var events := SyncManager.RowsAt(rows, height);
    if AllRegistered(registered, events) then Some(events) else None
  }

  datatype Step =
    | Commit
    | Start(i: nat)
    | ReadLatest(i: nat)
    | Fetch(i: nat)
    | Handle(i: nat)
    | FailToHandle(i: nat)
    | Crash(i: nat)
    /** the transaction takes effect, but the runner is told that it failed */
    | LoseReply(i: nat)

  predicate Enabled(c: Config, w: World, step: Step) {
    if step.Commit? then true
    else
      && step.i < |w.runners| && step.i < |c.listening|
      && var local := w.runners[step.i].local;
         match step
         case Start(_) => local.None?
         case ReadLatest(_) => local.Some? && local.value.eventsAtHeight.None?
         case Fetch(_) =>
           && local.Some? && local.value.eventsAtHeight.None?
           && local.value.latestEventHeight.Some? && local.value.nextEventHeight <= local.value.latestEventHeight.value
         case Crash(_) => local.Some?
         case _ => local.Some? && local.value.eventsAtHeight.Some?
  }

  function Resumed(lastHandled: Option<int>): int {
    if lastHandled.None? then 0 else lastHandled.value + 1
  }

  function Applied(runner: Runner, eventsToListen: seq<string>): Runner
    requires runner.local.Some? && runner.local.value.eventsAtHeight.Some?
  {
    var local := runner.local.value;
    runner.(handled := runner.handled + [Batch(local.nextEventHeight, Filter(local.eventsAtHeight.value, eventsToListen))],
            lastHandled := Some(local.nextEventHeight))
  }

  function RunnerAfter(c: Config, w: World, step: Step): Runner
    requires Enabled(c, w, step) && !step.Commit?
  {
    var runner := w.runners[step.i];
    match step
    case Start(_) => runner.(local := Some(Local(Resumed(runner.lastHandled), None, None)))
    case ReadLatest(_) => runner.(local := Some(runner.local.value.(latestEventHeight := LatestHeight(w.rows))))
    case Fetch(_) =>
      var local := runner.local.value;
      runner.(local := Some(local.(eventsAtHeight := GetAllByHeight(c.registered, w.rows, local.nextEventHeight))))
    case Handle(_) =>
      var applied := Applied(runner, c.listening[step.i]);
      applied.(local := Some(Local(runner.local.value.nextEventHeight + 1, runner.local.value.latestEventHeight, None)))
    case FailToHandle(_) => runner.(local := Some(runner.local.value.(eventsAtHeight := None)))
    case Crash(_) => runner.(local := None)
    case LoseReply(_) =>
      Applied(runner, c.listening[step.i]).(local := Some(runner.local.value.(eventsAtHeight := None)))
  }

  function Next(c: Config, w: World, step: Step): World
    requires Enabled(c, w, step)
  {
    if step.Commit? then
      w.(rows := w.rows + Tagged(w.blocks, c.eventsAt(w.blocks)), blocks := w.blocks + 1)
    else w.(runners := w.runners[step.i := RunnerAfter(c, w, step)])
  }

  // ---- what every run keeps

  /** Leaves out each batch that repeats the one before it. */
  function Collapse(batches: seq<Batch>): seq<Batch> {
    if batches == [] then []
    else
      var front, last := batches[..|batches| - 1], batches[|batches| - 1];
      if front != [] && front[|front| - 1] == last then Collapse(front) else Collapse(front) + [last]
  }

  /** The batch direct mode hands over at one height. */
  function DirectBatch(c: Config, eventsToListen: seq<string>, height: int): Batch {
    Batch(height, Filter(c.eventsAt(height), eventsToListen))
  }

  /** Each batch is the one of direct mode at its height, below the bound. */
  predicate AllDirect(c: Config, eventsToListen: seq<string>, batches: seq<Batch>, bound: int) {
    forall k :: 0 <= k < |batches| ==>
      0 <= batches[k].height < bound && batches[k] == DirectBatch(c, eventsToListen, batches[k].height)
  }

  /** Up to the persisted height every block was decodable and has been handled, in order and
      without a gap, some of them perhaps twice in a row; the goroutine works on the next height
      or, when it missed that its last transaction took effect, on the persisted one. */
  ghost predicate Chases(c: Config, eventsToListen: seq<string>, blocks: nat, runner: Runner) {
    var next := Resumed(runner.lastHandled);
    && 0 <= next <= blocks
    && (forall h :: 0 <= h < next ==> AllRegistered(c.registered, c.eventsAt(h)))
    && AllDirect(c, eventsToListen, runner.handled, next)
    && Collapse(runner.handled) == Direct(c.eventsAt, eventsToListen, next)
    && (runner.handled == [] <==> next == 0)
    && (next > 0 ==> runner.handled[|runner.handled| - 1] == DirectBatch(c, eventsToListen, next - 1))
    && (runner.local.Some? ==> LocalInv(c, blocks, next, runner.local.value))
  }

  predicate LocalInv(c: Config, blocks: nat, next: int, local: Local) {
    && 0 <= local.nextEventHeight
    && (local.nextEventHeight == next || local.nextEventHeight == next - 1)
    && (local.latestEventHeight.Some? ==> local.latestEventHeight.value < blocks)
    && (local.eventsAtHeight.Some? ==>
          && local.latestEventHeight.Some? && local.nextEventHeight <= local.latestEventHeight.value
          && local.eventsAtHeight.value == c.eventsAt(local.nextEventHeight)
          && AllRegistered(c.registered, c.eventsAt(local.nextEventHeight)))
  }

  ghost predicate RunnerInv(c: Config, w: World, i: nat)
    requires i < |w.runners| && i < |c.listening|
  {
    Chases(c, c.listening[i], w.blocks, w.runners[i])
  }

  ghost predicate Inv(c: Config, w: World) {
    && |w.runners| == |c.listening|
    && w.rows == SyncManager.Ledger(c.eventsAt, w.blocks)
    && forall i :: 0 <= i < |w.runners| ==> RunnerInv(c, w, i)
  }

  function Initial(c: Config): World {
    World([], 0, seq(|c.listening|, _ => Runner([], None, None)))
  }

  /** MAX(height) is a height of the table that none exceeds, and missing only from an empty table. */
  lemma {:induction false} LatestHeightIsMax(rows: seq<Row<Event>>, height: int)
    ensures LatestHeight(rows).None? <==> rows == []
    ensures LatestHeight(rows) == Some(height)
            <==> (exists i :: 0 <= i < |rows| && rows[i].height == height) && forall i :: 0 <= i < |rows| ==> rows[i].height <= height
  {
    if rows != [] {
      var front, last := rows[..|rows| - 1], rows[|rows| - 1].height;
      assert rows == front + [rows[|rows| - 1]];
      LatestHeightIsMax(front, last);
      LatestHeightIsMax(front, height);
      if LatestHeight(front).Some? {
        LatestHeightIsMax(front, LatestHeight(front).value);
      }
    }
  }

  lemma {:induction false} LatestHeightBelow(eventsAt: int -> seq<Event>, n: nat)
    ensures var latest := LatestHeight(SyncManager.Ledger(eventsAt, n));
            && (latest.Some? ==> 0 <= latest.value < n)
            && (n > 0 && eventsAt(n - 1) != [] ==> latest == Some(n - 1))
  {
    if n > 0 {
      LatestHeightBelow(eventsAt, n - 1);
      LatestAfterTagged(SyncManager.Ledger(eventsAt, n - 1), n - 1, eventsAt(n - 1));
    }
  }

  lemma {:induction false} LatestAfterTagged(rows: seq<Row<Event>>, height: int, events: seq<Event>)
    requires LatestHeight(rows).Some? ==> LatestHeight(rows).value < height
    ensures LatestHeight(rows + Tagged(height, events)) == if events == [] then LatestHeight(rows) else Some(height)
  {
    if events == [] {
      assert rows + [] == rows;
    } else {
      var front := events[..|events| - 1];
      LatestAfterTagged(rows, height, front);
      var all := rows + Tagged(height, events);
      assert all[..|all| - 1] == rows + Tagged(height, front);
      assert all[|all| - 1].height == height;
    }
  }

  lemma {:induction false} CollapseAppend(batches: seq<Batch>, last: Batch)
    ensures Collapse(batches + [last])
            == if batches != [] && batches[|batches| - 1] == last then Collapse(batches) else Collapse(batches) + [last]
  {
    var more := batches + [last];
    assert more != [] && more[..|more| - 1] == batches && more[|more| - 1] == last;
  }

  /** Every step of every party keeps the invariant, a lost reply included. */
  lemma StepKeepsInv(c: Config, w: World, step: Step)
    requires Inv(c, w) && Enabled(c, w, step)
    ensures Inv(c, Next(c, w, step))
  {
    var w' := Next(c, w, step);
    forall i | 0 <= i < |w'.runners| ensures RunnerInv(c, w', i) {
      assert RunnerInv(c, w, i);
      if !step.Commit? && step.i == i {
        RunnerStep(c, w, step);
      }
    }
  }

  lemma LocalKeeps(c: Config, eventsToListen: seq<string>, blocks: nat, runner: Runner, local: Option<Local>)
    requires Chases(c, eventsToListen, blocks, runner)
    requires local.Some? ==> LocalInv(c, blocks, Resumed(runner.lastHandled), local.value)
    ensures Chases(c, eventsToListen, blocks, runner.(local := local))
  {
  }

  lemma RunnerStep(c: Config, w: World, step: Step)
    requires Inv(c, w) && Enabled(c, w, step) && !step.Commit?
    ensures Chases(c, c.listening[step.i], w.blocks, RunnerAfter(c, w, step))
  {
    var runner, after := w.runners[step.i], RunnerAfter(c, w, step);
    assert RunnerInv(c, w, step.i);
    if step.Handle? || step.LoseReply? {
      ApplyKeeps(c, c.listening[step.i], w.blocks, runner);
      var applied := Applied(runner, c.listening[step.i]).(local := None);
      LocalKeeps(c, c.listening[step.i], w.blocks, applied, after.local);
      assert applied.(local := after.local) == after;
    } else {
      LocalStep(c, w, step);
      LocalKeeps(c, c.listening[step.i], w.blocks, runner, after.local);
      assert runner.(local := after.local) == after;
    }
  }

  /** The steps that touch only the goroutine's local variables. */
  lemma LocalStep(c: Config, w: World, step: Step)
    requires Inv(c, w) && Enabled(c, w, step) && !step.Commit? && !step.Handle? && !step.LoseReply?
    ensures var after := RunnerAfter(c, w, step);
            after.local.Some? ==> LocalInv(c, w.blocks, Resumed(w.runners[step.i].lastHandled), after.local.value)
  {
    assert RunnerInv(c, w, step.i);
    if step.ReadLatest? {
      LatestHeightBelow(c.eventsAt, w.blocks);
    } else if step.Fetch? {
      SyncManager.LedgerAtHeight(c.eventsAt, w.blocks, w.runners[step.i].local.value.nextEventHeight);
    }
  }

  /** Handling a height, for the first time or again. */
  lemma ApplyKeeps(c: Config, eventsToListen: seq<string>, blocks: nat, runner: Runner)
    requires Chases(c, eventsToListen, blocks, runner)
    requires runner.local.Some? && runner.local.value.eventsAtHeight.Some?
    ensures Chases(c, eventsToListen, blocks, Applied(runner, eventsToListen).(local := None))
    ensures Applied(runner, eventsToListen).lastHandled == Some(runner.local.value.nextEventHeight)
  {
    var next, height := Resumed(runner.lastHandled), runner.local.value.nextEventHeight;
    CollapseApplied(c, eventsToListen, runner.handled, next, height);
    OneMoreDirect(c, eventsToListen, runner.handled, next, height);
    assert Applied(runner, eventsToListen).handled == runner.handled + [DirectBatch(c, eventsToListen, height)];
  }

  lemma OneMoreDirect(c: Config, eventsToListen: seq<string>, batches: seq<Batch>, next: int, height: int)
    requires AllDirect(c, eventsToListen, batches, next) && 0 <= height && next <= height + 1
    ensures AllDirect(c, eventsToListen, batches + [DirectBatch(c, eventsToListen, height)], height + 1)
  {
  }

  lemma CollapseApplied(c: Config, eventsToListen: seq<string>, handled: seq<Batch>, next: nat, height: int)
    requires Collapse(handled) == Direct(c.eventsAt, eventsToListen, next)
    requires 0 <= height && (height == next || height == next - 1) && (handled == [] <==> next == 0)
    requires next > 0 ==> handled[|handled| - 1] == DirectBatch(c, eventsToListen, next - 1)
    ensures Collapse(handled + [DirectBatch(c, eventsToListen, height)]) == Direct(c.eventsAt, eventsToListen, height + 1)
  {
    CollapseAppend(handled, DirectBatch(c, eventsToListen, height));
    if height == next && next > 0 {
      assert DirectBatch(c, eventsToListen, height).height != handled[|handled| - 1].height;
    }
  }

  ghost predicate IsRun(c: Config, w: World, steps: seq<Step>, last: World)
    decreases |steps|
  {
    if steps == [] then last == w
    else Enabled(c, w, steps[0]) && IsRun(c, Next(c, w, steps[0]), steps[1..], last)
  }

  lemma {:induction false} RunKeepsInv(c: Config, w: World, steps: seq<Step>, last: World)
    requires Inv(c, w) && IsRun(c, w, steps, last)
    ensures Inv(c, last)
    decreases |steps|
  {
    if steps != [] {
      StepKeepsInv(c, w, steps[0]);
      RunKeepsInv(c, Next(c, w, steps[0]), steps[1..], last);
    }
  }

  lemma InitialInv(c: Config)
    ensures Inv(c, Initial(c))
  {
    forall i | 0 <= i < |c.listening| ensures RunnerInv(c, Initial(c), i) {
    }
  }

  /** In every run, lost replies included, a projection handles what direct mode would give it,
      no height skipped and none ahead of the store; the only difference is a batch handled
      again right after itself. */
  lemma HandlesAtLeastOnce(c: Config, steps: seq<Step>, w: World, i: nat)
    requires IsRun(c, Initial(c), steps, w) && i < |c.listening|
    ensures |w.runners| == |c.listening|
    ensures var next := Resumed(w.runners[i].lastHandled);
            0 <= next <= w.blocks && Collapse(w.runners[i].handled) == Direct(c.eventsAt, c.listening[i], next)
  {
    InitialInv(c);
    RunKeepsInv(c, Initial(c), steps, w);
    assert RunnerInv(c, w, i);
  }

  /** In every run each batch that a projection has handled holds exactly the listened events of the
      block at its height, in their order. */
  lemma BatchesHoldListened(c: Config, steps: seq<Step>, w: World, i: nat, k: nat)
    requires IsRun(c, Initial(c), steps, w) && i < |c.listening|
    ensures |w.runners| == |c.listening|
    ensures k < |w.runners[i].handled| ==>
              var batch := w.runners[i].handled[k];
              0 <= batch.height < w.blocks && IsListened(c.eventsAt(batch.height), c.listening[i], batch.events)
  {
    InitialInv(c);
    RunKeepsInv(c, Initial(c), steps, w);
    assert RunnerInv(c, w, i);
    if k < |w.runners[i].handled| {
      var indices := FilterIsListened(c.eventsAt(w.runners[i].handled[k].height), c.listening[i]);
    }
  }

  /** An event of unregistered type stops every runner in front of its height, for good. */
  lemma UnregisteredBlocks(c: Config, steps: seq<Step>, w: World, i: nat, height: nat)
    requires IsRun(c, Initial(c), steps, w) && i < |c.listening|
    requires !AllRegistered(c.registered, c.eventsAt(height))
    ensures |w.runners| == |c.listening|
    ensures forall k :: 0 <= k < |w.runners[i].handled| ==> w.runners[i].handled[k].height < height
    ensures height == 0 ==> w.runners[i].handled == []
  {
    InitialInv(c);
    RunKeepsInv(c, Initial(c), steps, w);
    assert RunnerInv(c, w, i);
  }

  lemma HoldsUnregistered(registered: set<string>, events: seq<Event>, k: nat)
    requires registered == EventRegistry.Registered()
    requires k < |events| && events[k].name == EventRegistry.GENESIS_VALIDATOR_CREATED
    ensures !AllRegistered(registered, events)
  {
    EventRegistry.GenesisValidatorIsUnregistered();
  }

  /** The registry has no decoder for genesis validators, so a genesis that lists one keeps every
      projection of event-store mode from handling anything. */
  lemma GenesisValidatorsBlock(c: Config, steps: seq<Step>, w: World, i: nat, k: nat)
    requires IsRun(c, Initial(c), steps, w) && i < |c.listening|
    requires c.registered == EventRegistry.Registered()
    requires k < |c.eventsAt(0)| && c.eventsAt(0)[k].name == EventRegistry.GENESIS_VALIDATOR_CREATED
    ensures |w.runners| == |c.listening| && w.runners[i].handled == []
  {
    HoldsUnregistered(c.registered, c.eventsAt(0), k);
    UnregisteredBlocks(c, steps, w, i, 0);
  }

  // ---- refinement of direct mode

  /** The projection has handled exactly the first batches of direct mode. */
  predicate OnDirect(c: Config, eventsToListen: seq<string>, handled: seq<Batch>) {
    handled == Direct(c.eventsAt, eventsToListen, |handled|)
  }

  /** The test the runner's loop omits: the height about to be handled is still the one after
      the persisted height. */
  predicate UpToDate(w: World, step: Step, i: nat)
    requires i < |w.runners|
  {
    (step.Handle? || step.LoseReply?) && step.i == i && w.runners[i].local.Some? ==>
      w.runners[i].local.value.nextEventHeight == Resumed(w.runners[i].lastHandled)
  }

  ghost predicate AllUpToDate(c: Config, w: World, steps: seq<Step>, i: nat)
    requires i < |w.runners|
    decreases |steps|
  {
    steps == [] || !Enabled(c, w, steps[0]) ||
    (UpToDate(w, steps[0], i) && AllUpToDate(c, Next(c, w, steps[0]), steps[1..], i))
  }

  lemma {:induction false} DirectAt(eventsAt: int -> seq<Event>, eventsToListen: seq<string>, n: nat)
    ensures |Direct(eventsAt, eventsToListen, n)| == n
    ensures n > 0 ==> Direct(eventsAt, eventsToListen, n)[n - 1].height == n - 1
    ensures n > 0 ==> Direct(eventsAt, eventsToListen, n)[..n - 1] == Direct(eventsAt, eventsToListen, n - 1)
  {
    if n > 0 {
      DirectAt(eventsAt, eventsToListen, n - 1);
    }
  }

  /** One more batch stays on the direct sequence exactly when the earlier ones are on it and the
      height is the next one. */
  lemma AppendStaysDirect(c: Config, eventsToListen: seq<string>, handled: seq<Batch>, height: int)
    ensures OnDirect(c, eventsToListen, handled + [DirectBatch(c, eventsToListen, height)])
            <==> OnDirect(c, eventsToListen, handled) && height == |handled|
  {
    var n, batch := |handled|, DirectBatch(c, eventsToListen, height);
    DirectAt(c.eventsAt, eventsToListen, n + 1);
    var direct := Direct(c.eventsAt, eventsToListen, n + 1);
    assert (handled + [batch])[..n] == handled && (handled + [batch])[n] == batch;
    assert direct == direct[..n] + [direct[n]];
  }

  lemma StepStaysDirect(c: Config, w: World, step: Step, i: nat)
    requires Inv(c, w) && Enabled(c, w, step) && i < |w.runners|
    ensures OnDirect(c, c.listening[i], Next(c, w, step).runners[i].handled)
            <==> OnDirect(c, c.listening[i], w.runners[i].handled) && UpToDate(w, step, i)
  {
    assert RunnerInv(c, w, i);
    var runner := w.runners[i];
    if (step.Handle? || step.LoseReply?) && step.i == i {
      DirectAt(c.eventsAt, c.listening[i], |runner.handled|);
      AppendStaysDirect(c, c.listening[i], runner.handled, runner.local.value.nextEventHeight);
    }
  }

  lemma {:induction false} RunStaysDirect(c: Config, w: World, steps: seq<Step>, last: World, i: nat)
    requires Inv(c, w) && IsRun(c, w, steps, last) && i < |w.runners|
    ensures |last.runners| == |w.runners|
    ensures OnDirect(c, c.listening[i], last.runners[i].handled)
            <==> OnDirect(c, c.listening[i], w.runners[i].handled) && AllUpToDate(c, w, steps, i)
    decreases |steps|
  {
    if steps != [] {
      StepKeepsInv(c, w, steps[0]);
      StepStaysDirect(c, w, steps[0], i);
      RunStaysDirect(c, Next(c, w, steps[0]), steps[1..], last, i);
    }
  }

  /** When event-store mode refines direct mode: in every run, whatever the interleaving, the
      failures, crashes and lost replies, a projection is on the direct sequence if and only if
      every height it handled was, at that moment, the one after its persisted height. */
  lemma StoreModeRefinesDirectIff(c: Config, steps: seq<Step>, w: World, i: nat)
    requires IsRun(c, Initial(c), steps, w) && i < |c.listening|
    ensures |w.runners| == |c.listening|
    ensures w.runners[i].handled == Direct(c.eventsAt, c.listening[i], |w.runners[i].handled|)
            <==> AllUpToDate(c, Initial(c), steps, i)
  {
    InitialInv(c);
    RunStaysDirect(c, Initial(c), steps, w, i);
  }

  predicate NoReplyLost(steps: seq<Step>) {
    forall k :: 0 <= k < |steps| ==> !steps[k].LoseReply?
  }

  /** Only a lost reply lets a goroutine fall behind its persisted height. */
  lemma {:induction false} NoReplyLostUpToDate(c: Config, w: World, steps: seq<Step>, last: World, i: nat)
    requires IsRun(c, w, steps, last) && NoReplyLost(steps) && i < |w.runners|
    requires w.runners[i].local.Some? ==> w.runners[i].local.value.nextEventHeight == Resumed(w.runners[i].lastHandled)
    ensures AllUpToDate(c, w, steps, i)
    decreases |steps|
  {
    if steps != [] {
      NoReplyLostUpToDate(c, Next(c, w, steps[0]), steps[1..], last, i);
    }
  }

  /** Without lost replies event-store mode always refines direct mode, and never runs ahead. */
  lemma StoreModeRefinesDirect(c: Config, steps: seq<Step>, w: World, i: nat)
    requires IsRun(c, Initial(c), steps, w) && NoReplyLost(steps) && i < |c.listening|
    ensures |w.runners| == |c.listening| && |w.runners[i].handled| <= w.blocks
    ensures w.runners[i].handled == Direct(c.eventsAt, c.listening[i], |w.runners[i].handled|)
  {
    NoReplyLostUpToDate(c, Initial(c), steps, w, i);
    StoreModeRefinesDirectIff(c, steps, w, i);
    InitialInv(c);
    RunKeepsInv(c, Initial(c), steps, w);
    assert RunnerInv(c, w, i);
    DirectAt(c.eventsAt, c.listening[i], |w.runners[i].handled|);
  }

  // ---- lost replies

  /** After any lost reply the runner is free to fetch and handle the same height again. */
  lemma LostReplyHandlesTwice(c: Config, w: World, i: nat)
    requires Inv(c, w) && Enabled(c, w, LoseReply(i))
    ensures var w1 := Next(c, w, LoseReply(i));
            && Enabled(c, w1, Fetch(i)) && Enabled(c, Next(c, w1, Fetch(i)), Handle(i))
            && var batch := DirectBatch(c, c.listening[i], w.runners[i].local.value.nextEventHeight);
               Next(c, Next(c, w1, Fetch(i)), Handle(i)).runners[i].handled == w.runners[i].handled + [batch] + [batch]
  {
    assert RunnerInv(c, w, i);
    SyncManager.LedgerAtHeight(c.eventsAt, w.blocks, w.runners[i].local.value.nextEventHeight);
  }

  const CREATED := Event("BlockCreated", "")

  /** One block with one event, and one projection that listens to it. */
  function OneBlock(): Config {
    Config(h => if h == 0 then [CREATED] else [], {"BlockCreated"}, [["BlockCreated"]])
  }

  /** The committed block, and the runner in some state. */
  function Committed(runner: Runner): World {
    World([Row(0, CREATED)], 1, [runner])
  }

  function UpToLoss(): seq<Step> {
    [Commit] + ([Start(0)] + ([ReadLatest(0)] + ([Fetch(0)] + ([LoseReply(0)] + []))))
  }

  /** The state after UpToLoss: the batch is applied and the height persisted, unnoticed. */
  function AfterLoss(): World {
    Committed(Runner([Batch(0, [CREATED])], Some(0), Some(Local(0, Some(0), None))))
  }

  lemma RunFirst(c: Config, w: World, step: Step, rest: seq<Step>, last: World)
    requires Enabled(c, w, step) && IsRun(c, Next(c, w, step), rest, last)
    ensures IsRun(c, w, [step] + rest, last)
  {
    assert ([step] + rest)[1..] == rest;
  }

  lemma OneRow()
    ensures Tagged(0, [CREATED]) == [Row(0, CREATED)]
    ensures LatestHeight([Row(0, CREATED)]) == Some(0)
    ensures SyncManager.RowsAt([Row(0, CREATED)], 0) == [CREATED]
    ensures Filter([CREATED], ["BlockCreated"]) == [CREATED]
  {
    TaggedAt(0, [CREATED]);
    assert [Row(0, CREATED)][..0] == [] && [CREATED][..0] == [];
  }

  lemma CommitFirst()
    ensures Next(OneBlock(), Initial(OneBlock()), Commit) == Committed(Runner([], None, None))
  {
    OneRow();
    assert [] + [Row(0, CREATED)] == [Row(0, CREATED)];
  }

  /** Reading, fetching and applying the only block, from any state level with height 0. */
  lemma BlockSteps(handled: seq<Batch>, lastHandled: Option<int>)
    ensures var c, fetched := OneBlock(), Committed(Runner(handled, lastHandled, Some(Local(0, Some(0), Some([CREATED])))));
            && Next(c, Committed(Runner(handled, lastHandled, Some(Local(0, None, None)))), ReadLatest(0))
               == Committed(Runner(handled, lastHandled, Some(Local(0, Some(0), None))))
            && Next(c, Committed(Runner(handled, lastHandled, Some(Local(0, Some(0), None)))), Fetch(0)) == fetched
            && Next(c, fetched, LoseReply(0))
               == Committed(Runner(handled + [Batch(0, [CREATED])], Some(0), Some(Local(0, Some(0), None))))
            && Next(c, fetched, Handle(0))
               == Committed(Runner(handled + [Batch(0, [CREATED])], Some(0), Some(Local(1, Some(0), None))))
  {
    OneRow();
  }

  lemma LossFromStart()
    ensures IsRun(OneBlock(), Committed(Runner([], None, Some(Local(0, None, None)))),
                  [ReadLatest(0)] + ([Fetch(0)] + ([LoseReply(0)] + [])), AfterLoss())
  {
    var c := OneBlock();
    BlockSteps([], None);
    assert [] + [Batch(0, [CREATED])] == [Batch(0, [CREATED])];
    var started := Committed(Runner([], None, Some(Local(0, None, None))));
    var read := Committed(Runner([], None, Some(Local(0, Some(0), None))));
    var fetched := Committed(Runner([], None, Some(Local(0, Some(0), Some([CREATED])))));
    RunFirst(c, fetched, LoseReply(0), [], AfterLoss());
    RunFirst(c, read, Fetch(0), [LoseReply(0)] + [], AfterLoss());
    RunFirst(c, started, ReadLatest(0), [Fetch(0)] + ([LoseReply(0)] + []), AfterLoss());
  }

  lemma LossIsReachable()
    ensures IsRun(OneBlock(), Initial(OneBlock()), UpToLoss(), AfterLoss())
  {
    var c := OneBlock();
    var up, started := Committed(Runner([], None, None)), Committed(Runner([], None, Some(Local(0, None, None))));
    CommitFirst();
    LossFromStart();
    assert Next(c, up, Start(0)) == started;
    RunFirst(c, up, Start(0), [ReadLatest(0)] + ([Fetch(0)] + ([LoseReply(0)] + [])), AfterLoss());
    RunFirst(c, Initial(c), Commit, [Start(0)] + ([ReadLatest(0)] + ([Fetch(0)] + ([LoseReply(0)] + []))), AfterLoss());
  }

  /** A concrete run that leaves the direct sequence: the reply to the only commit is lost, and
      the batch is handled a second time. */
  lemma LostReplyWitness() returns (w: World)
    ensures IsRun(OneBlock(), Initial(OneBlock()), UpToLoss() + ([Fetch(0)] + [Handle(0)]), w)
    ensures |w.runners| == 1 && w.runners[0].handled == [Batch(0, [CREATED]), Batch(0, [CREATED])]
    ensures w.runners[0].handled != Direct(OneBlock().eventsAt, OneBlock().listening[0], 2)
  {
    var c, once := OneBlock(), [Batch(0, [CREATED])];
    BlockSteps(once, Some(0));
    w := Committed(Runner(once + once, Some(0), Some(Local(1, Some(0), None))));
    var fetched := Committed(Runner(once, Some(0), Some(Local(0, Some(0), Some([CREATED])))));
    RunFirst(c, fetched, Handle(0), [], w);
    RunFirst(c, AfterLoss(), Fetch(0), [Handle(0)] + [], w);
    assert [Handle(0)] + [] == [Handle(0)];
    LossIsReachable();
    RunAppend(c, Initial(c), UpToLoss(), AfterLoss(), [Fetch(0)] + [Handle(0)], w);
    TwiceIsNotDirect(c.eventsAt, c.listening[0], once[0]);
  }

  lemma TwiceIsNotDirect(eventsAt: int -> seq<Event>, eventsToListen: seq<string>, batch: Batch)
    ensures [batch] + [batch] != Direct(eventsAt, eventsToListen, 2)
  {
    DirectAt(eventsAt, eventsToListen, 1);
    DirectAt(eventsAt, eventsToListen, 2);
  }

  /** The same loss followed by a crash: the restarted runner re-reads the persisted height and
      stays on the direct sequence. */
  lemma CrashAfterLossWitness() returns (w: World)
    ensures IsRun(OneBlock(), Initial(OneBlock()), UpToLoss() + ([Crash(0)] + [Start(0)]), w)
    ensures |w.runners| == 1 && w.runners[0].local == Some(Local(1, None, None))
    ensures w.runners[0].handled == Direct(OneBlock().eventsAt, OneBlock().listening[0], 1)
  {
    var c, once := OneBlock(), [Batch(0, [CREATED])];
    w := Committed(Runner(once, Some(0), Some(Local(1, None, None))));
    var crashed := Committed(Runner(once, Some(0), None));
    CrashSteps(once);
    RunFirst(c, crashed, Start(0), [], w);
    RunFirst(c, AfterLoss(), Crash(0), [Start(0)] + [], w);
    assert [Start(0)] + [] == [Start(0)];
    LossIsReachable();
    RunAppend(c, Initial(c), UpToLoss(), AfterLoss(), [Crash(0)] + [Start(0)], w);
    OnceIsDirect();
  }

  lemma CrashSteps(handled: seq<Batch>)
    requires handled == [Batch(0, [CREATED])]
    ensures Next(OneBlock(), AfterLoss(), Crash(0)) == Committed(Runner(handled, Some(0), None))
    ensures Next(OneBlock(), Committed(Runner(handled, Some(0), None)), Start(0))
            == Committed(Runner(handled, Some(0), Some(Local(1, None, None))))
  {
  }

  lemma OnceIsDirect()
    ensures Direct(OneBlock().eventsAt, OneBlock().listening[0], 1) == [Batch(0, [CREATED])]
  {
    OneRow();
    assert [] + [Batch(0, [CREATED])] == [Batch(0, [CREATED])];
  }

  // ---- catching up

  lemma {:induction false} RunAppend(c: Config, w: World, first: seq<Step>, mid: World, second: seq<Step>, last: World)
    requires IsRun(c, w, first, mid) && IsRun(c, mid, second, last)
    ensures IsRun(c, w, first + second, last)
    decreases |first|
  {
    if first == [] {
      assert first + second == second;
    } else {
      assert (first + second)[1..] == first[1..] + second;
      RunAppend(c, Next(c, w, first[0]), first[1..], mid, second, last);
    }
  }

  /** The local state of such a runner after fetching its next block. */
  lemma FetchesNext(c: Config, w: World, i: nat)
    requires Inv(c, w) && i < |w.runners|
    requires var next := Resumed(w.runners[i].lastHandled);
             && w.runners[i].local == Some(Local(next, Some(w.blocks - 1), None))
             && 0 <= next < w.blocks && AllRegistered(c.registered, c.eventsAt(next))
    ensures var next := Resumed(w.runners[i].lastHandled);
            && Enabled(c, w, Fetch(i))
            && Next(c, w, Fetch(i)).runners[i]
               == w.runners[i].(local := Some(Local(next, Some(w.blocks - 1), Some(c.eventsAt(next)))))
  {
    SyncManager.LedgerAtHeight(c.eventsAt, w.blocks, Resumed(w.runners[i].lastHandled));
  }

  /** A runner that is up, level with its persisted height, knows of later heights and is in
      front of a decodable one, gets past it. */
  lemma OneMore(c: Config, w: World, i: nat) returns (w': World)
    requires Inv(c, w) && i < |w.runners|
    requires var next := Resumed(w.runners[i].lastHandled);
             && w.runners[i].local == Some(Local(next, Some(w.blocks - 1), None))
             && 0 <= next < w.blocks && AllRegistered(c.registered, c.eventsAt(next))
    ensures IsRun(c, w, [Fetch(i), Handle(i)], w') && Inv(c, w')
    ensures w'.blocks == w.blocks && |w'.runners| == |w.runners|
    ensures var next := Resumed(w.runners[i].lastHandled);
            && Resumed(w'.runners[i].lastHandled) == next + 1
            && w'.runners[i].handled == w.runners[i].handled + [DirectBatch(c, c.listening[i], next)]
            && w'.runners[i].local == Some(Local(next + 1, Some(w.blocks - 1), None))
  {
    FetchesNext(c, w, i);
    var w1 := Next(c, w, Fetch(i));
    StepKeepsInv(c, w, Fetch(i));
    w' := Next(c, w1, Handle(i));
    StepKeepsInv(c, w1, Handle(i));
    assert [Fetch(i), Handle(i)][1..] == [Handle(i)];
    assert [Handle(i)][1..] == [];
  }

  /** The batches from one height up to another, as direct mode gives them. */
  function DirectFrom(c: Config, eventsToListen: seq<string>, from: int, to: int): seq<Batch>
    decreases to - from
  {
    if from >= to then [] else [DirectBatch(c, eventsToListen, from)] + DirectFrom(c, eventsToListen, from + 1, to)
  }

  /** Nothing but registration is needed: such a runner can handle all committed blocks, each
      remaining one exactly once. */
  lemma {:induction false} CatchesUp(c: Config, w: World, i: nat) returns (steps: seq<Step>, w': World)
    requires Inv(c, w) && i < |w.runners|
    requires w.runners[i].local == Some(Local(Resumed(w.runners[i].lastHandled), Some(w.blocks - 1), None))
    requires forall h :: 0 <= h < w.blocks ==> AllRegistered(c.registered, c.eventsAt(h))
    ensures IsRun(c, w, steps, w') && NoReplyLost(steps) && w'.blocks == w.blocks
    ensures |w'.runners| == |w.runners| && Resumed(w'.runners[i].lastHandled) == w.blocks
    ensures w'.runners[i].handled
            == w.runners[i].handled + DirectFrom(c, c.listening[i], Resumed(w.runners[i].lastHandled), w.blocks)
    decreases w.blocks - Resumed(w.runners[i].lastHandled)
  {
    assert RunnerInv(c, w, i);
    var next := Resumed(w.runners[i].lastHandled);
    if next == w.blocks {
      assert w.runners[i].handled + [] == w.runners[i].handled;
      return [], w;
    }
    var mid := OneMore(c, w, i);
    var rest;
    rest, w' := CatchesUp(c, mid, i);
    RunAppend(c, w, [Fetch(i), Handle(i)], mid, rest, w');
    steps := [Fetch(i), Handle(i)] + rest;
    var batch, later := DirectBatch(c, c.listening[i], next), DirectFrom(c, c.listening[i], next + 1, w.blocks);
    assert w.runners[i].handled + [batch] + later == w.runners[i].handled + ([batch] + later);
  }

  /** From every reachable world a stopped runner can restart and handle all remaining committed
      blocks once each, provided the last of them has an event for MAX(height) to see and all are
      decodable. */
  lemma RestartCatchesUp(c: Config, w: World, i: nat) returns (steps: seq<Step>, w': World)
    requires Inv(c, w) && i < |w.runners| && w.runners[i].local.None?
    requires w.blocks > 0 && c.eventsAt(w.blocks - 1) != []
    requires forall h :: 0 <= h < w.blocks ==> AllRegistered(c.registered, c.eventsAt(h))
    ensures IsRun(c, w, steps, w') && NoReplyLost(steps)
    ensures |w'.runners| == |w.runners| && w'.runners[i].lastHandled == Some(w.blocks - 1)
    ensures w'.runners[i].handled
            == w.runners[i].handled + DirectFrom(c, c.listening[i], Resumed(w.runners[i].lastHandled), w.blocks)
  {
    LatestHeightBelow(c.eventsAt, w.blocks);
    var w1 := Next(c, w, Start(i));
    StepKeepsInv(c, w, Start(i));
    var w2 := Next(c, w1, ReadLatest(i));
    StepKeepsInv(c, w1, ReadLatest(i));
    var rest;
    rest, w' := CatchesUp(c, w2, i);
    assert [Start(i), ReadLatest(i)][1..] == [ReadLatest(i)];
    assert [ReadLatest(i)][1..] == [];
    RunAppend(c, w, [Start(i), ReadLatest(i)], w2, rest, w');
    steps := [Start(i), ReadLatest(i)] + rest;
  }
}
