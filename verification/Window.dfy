/** usecase/syncstrategy/window.go: fetching a window of blocks with concurrent workers. */
module Window {
  import opened Wrappers

  datatype SyncError<W> = WorkerFailed(error: W) | NegativeWindow

  /** The buffer the workers fill, one slot per height. */
  class CommandWindow<C> {
    const beginHeight: int
    const blocksCommands: array<seq<C>>

    constructor (beginHeight: int, endHeight: int)
      requires endHeight >= beginHeight - 1
      ensures this.beginHeight == beginHeight && fresh(blocksCommands)
      ensures blocksCommands.Length == endHeight - beginHeight + 1
    {
      this.beginHeight := beginHeight;
      blocksCommands := new seq<C>[endHeight - beginHeight + 1](_ => []);
    }

    method Put(blockHeight: int, commands: seq<C>)
      requires 0 <= blockHeight - beginHeight < blocksCommands.Length
      modifies blocksCommands
      ensures blocksCommands[..] == old(blocksCommands[..])[blockHeight - beginHeight := commands]
    {
      blocksCommands[blockHeight - beginHeight] := commands;
    }

    method Export() returns (blocks: seq<seq<C>>)
      ensures blocks == blocksCommands[..]
    {
      blocks := blocksCommands[..];
    }
  }

  /** The last height of the next window. */
  function EndHeight(currentHeight: int, latestHeight: int, size: int): int {
    if latestHeight - currentHeight + 1 < size then latestHeight else currentHeight + size - 1
  }

  /** The workers run concurrently and complete in any order: the loop picks an arbitrary one
      that is still pending.  Every Put lands in bounds; the result is the list of all blocks in
      height order, or no block at all. */
  method Sync<C, W>(currentHeight: int, latestHeight: int, size: int, worker: int -> Result<seq<C>, W>)
      returns (r: Result<seq<seq<C>>, SyncError<W>>, syncedHeight: int)
    ensures var endHeight := EndHeight(currentHeight, latestHeight, size);
            && (r.Success? <==> endHeight >= currentHeight - 1
                                && forall h :: currentHeight <= h <= endHeight ==> worker(h).Success?)
            && (r.Success? ==>
                  && syncedHeight == endHeight && |r.value| == endHeight - currentHeight + 1
                  && forall i :: 0 <= i < |r.value| ==> worker(currentHeight + i) == Success(r.value[i]))
            && (r.Failure? ==> syncedHeight == currentHeight - 1)
            && (r.Failure? && r.error.WorkerFailed? ==>
                  exists h :: currentHeight <= h <= endHeight && worker(h) == Failure(r.error.error))
  {
    var beginHeight := currentHeight;
    var endHeight := EndHeight(currentHeight, latestHeight, size);
    if endHeight < beginHeight - 1 {
      // make() panics on a negative size
      return Failure(NegativeWindow), beginHeight - 1;
    }
    var window := new CommandWindow<C>(beginHeight, endHeight);
    var pending: set<int> := {};
    for height := beginHeight to endHeight + 1
      invariant forall h :: h in pending <==> beginHeight <= h < height
    {
      pending := pending + {height};
    }
    var firstError: Option<W> := None;
    while pending != {}
      invariant forall h :: h in pending ==> beginHeight <= h <= endHeight
      invariant window.blocksCommands.Length == endHeight - beginHeight + 1
      invariant forall h :: beginHeight <= h <= endHeight && h !in pending && worker(h).Success? ==>
                  window.blocksCommands[h - beginHeight] == worker(h).value
      invariant firstError.None? <==> forall h :: beginHeight <= h <= endHeight && h !in pending ==> worker(h).Success?
      invariant firstError.Some? ==> exists h :: beginHeight <= h <= endHeight && worker(h) == Failure(firstError.value)
      decreases pending
    {
      var height :| height in pending;
      pending := pending - {height};
      var commands := worker(height);
      match commands {
        case Success(cs) =>
          window.Put(height, cs);
        case Failure(error) =>
          if firstError.None? {
            firstError := Some(error);
          }
      }
    }
    if firstError.Some? {
      return Failure(WorkerFailed(firstError.value)), beginHeight - 1;
    }
    var blocks := window.Export();
    forall i | 0 <= i < |blocks| ensures worker(currentHeight + i) == Success(blocks[i]) {
      assert beginHeight <= currentHeight + i <= endHeight;
    }
    return Success(blocks), endHeight;
  }

  // ---- successive windows

  /** A window makes progress exactly when its size is at least one; then it is full unless it
      reaches the latest height. */
  lemma WindowProgressIff(currentHeight: int, latestHeight: int, size: int)
    requires currentHeight <= latestHeight
    ensures EndHeight(currentHeight, latestHeight, size) >= currentHeight <==> size >= 1
    ensures EndHeight(currentHeight, latestHeight, size) <= latestHeight
    ensures size >= 1 ==> EndHeight(currentHeight, latestHeight, size) - currentHeight + 1 <= size
    ensures size >= 1 && EndHeight(currentHeight, latestHeight, size) < latestHeight ==>
              EndHeight(currentHeight, latestHeight, size) - currentHeight + 1 == size
  {
  }

  function Heights(begin: int, end: int): seq<int>
    decreases end - begin
  {
    if begin > end then [] else [begin] + Heights(begin + 1, end)
  }

  /** The windows that successive calls of Sync work through. */
  function Windows(currentHeight: int, targetHeight: int, size: int): seq<seq<int>>
    requires size >= 1
    decreases targetHeight - currentHeight
  {
    if currentHeight > targetHeight then []
    else
      var endHeight := EndHeight(currentHeight, targetHeight, size);
      [Heights(currentHeight, endHeight)] + Windows(endHeight + 1, targetHeight, size)
  }

  function Concat(parts: seq<seq<int>>): seq<int> {
    if parts == [] then [] else parts[0] + Concat(parts[1..])
  }

  lemma {:induction false} HeightsSplit(begin: int, mid: int, end: int)
    requires begin <= mid + 1 <= end + 1
    ensures Heights(begin, end) == Heights(begin, mid) + Heights(mid + 1, end)
    decreases mid - begin
  {
    if begin <= mid {
      HeightsSplit(begin + 1, mid, end);
    } else {
      assert [] + Heights(mid + 1, end) == Heights(mid + 1, end);
    }
  }

  lemma {:induction false} HeightsLength(begin: int, end: int)
    ensures |Heights(begin, end)| == if begin > end then 0 else end - begin + 1
    decreases end - begin
  {
    if begin <= end {
      HeightsLength(begin + 1, end);
    }
  }

  /** The windows partition the range: in order, without gap or overlap, each of 1 to `size`
      heights and all but the last of exactly `size`. */
  lemma {:induction false} WindowsPartition(currentHeight: int, targetHeight: int, size: int)
    requires size >= 1
    ensures Concat(Windows(currentHeight, targetHeight, size)) == Heights(currentHeight, targetHeight)
    ensures forall i :: 0 <= i < |Windows(currentHeight, targetHeight, size)| ==>
              1 <= |Windows(currentHeight, targetHeight, size)[i]| <= size
    ensures forall i :: 0 <= i < |Windows(currentHeight, targetHeight, size)| - 1 ==>
              |Windows(currentHeight, targetHeight, size)[i]| == size
    decreases targetHeight - currentHeight
  {
    if currentHeight <= targetHeight {
      var endHeight := EndHeight(currentHeight, targetHeight, size);
      WindowsPartition(endHeight + 1, targetHeight, size);
      HeightsSplit(currentHeight, endHeight, targetHeight);
      HeightsLength(currentHeight, endHeight);
      var rest := Windows(endHeight + 1, targetHeight, size);
      assert ([Heights(currentHeight, endHeight)] + rest)[1..] == rest;
    }
  }
}
