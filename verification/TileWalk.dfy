/** The concurrent tile walk of `ans-verify list` as an interleaved step system:
    a producer, a bounded job channel, a pool of workers, a first-error cell and
    a shared cancel. One event is one atomic action of one goroutine. */
module TileWalk {
  import opened Prelude
  import opened Leaves

  const WIDTH: nat := 256
  const TWO_TO_64: nat := 0x1_0000_0000_0000_0000

  datatype Config = Config(treeSize: nat, workers: nat, pick: Picker)

  /** uint64 arithmetic: the addition wraps. */
  function TileCount(treeSize: nat): nat {
    ((treeSize + WIDTH - 1) % TWO_TO_64) / WIDTH
  }

  /** The entry count a tile must have: layout.PartialTileSize, or a full tile. */
  function TileWidth(treeSize: nat, tile: nat): nat {
    var partial := if tile < treeSize / WIDTH then 0 else treeSize % WIDTH;
    if partial != 0 then partial else WIDTH
  }

  function ClampConcurrency(c: int): (r: nat)
    ensures 1 <= r <= 64
    ensures 1 <= c <= 64 ==> r == c
    ensures c == 0 ==> r == 8
    ensures c < 0 ==> r == 1
    ensures c > 64 ==> r == 64
  {
    if c == 0 then 8 else if c < 1 then 1 else if c > 64 then 64 else c
  }

  // ---- state ---------------------------------------------------------------

  datatype Slot = Unset | Entries(leaves: seq<Leaf>) | Failed(error: string)

  /** A worker between two of its atomic actions. */
  datatype Worker =
    | Idle
    | Holding(tile: nat)                       // received, cancel not checked yet
    | Fetching(tile: nat)                      // request in flight
    | Recording(tile: nat, error: string)      // slot written, first-error swap next
    | Cancelling                               // cancel() next
    | Exited

  datatype Phase = Producing | Closed | ErrorsChecked | Done(result: Result<seq<AgentMatch>>)

  /** `fetched` and `skipped` record which tiles workers requested and drained. */
  datatype Walk = Walk(
    next: nat, jobs: seq<nat>, workers: seq<Worker>, slots: seq<Slot>,
    firstError: Option<string>, cancelled: bool, parentCancelled: bool, phase: Phase,
    fetched: multiset<nat>, skipped: multiset<nat>)

  datatype Outcome = FetchError(error: string) | DecodeError(error: string) | Bundle(leaves: seq<Leaf>)

  datatype Event =
    | Send | Close
    | Receive(w: nat) | Skip(w: nat) | Fetch(w: nat) | Deliver(w: nat, outcome: Outcome)
    | RecordError(w: nat) | CancelAll(w: nat) | Exit(w: nat)
    | CancelParent | PropagateCancel
    | CheckErrors | CheckContext

  function Initial(c: Config): Walk {
    Walk(0, [], seq(c.workers, _ => Idle), seq(TileCount(c.treeSize), _ => Unset), None, false, false,
         if c.treeSize == 0 then Done(Ok([])) else Producing, multiset{}, multiset{})
  }

  predicate AllExited(workers: seq<Worker>) {
    forall w :: 0 <= w < |workers| ==> workers[w].Exited?
  }

  predicate Enabled(c: Config, s: Walk, e: Event) {
    !s.phase.Done? &&
    match e
    case Send => s.phase.Producing? && s.next < TileCount(c.treeSize) && |s.jobs| < c.workers
    case Close => s.phase.Producing? && (s.next == TileCount(c.treeSize) || s.cancelled)
    case Receive(w) => w < |s.workers| && s.workers[w].Idle? && s.jobs != []
    case Skip(w) => w < |s.workers| && s.workers[w].Holding? && s.cancelled
    case Fetch(w) => w < |s.workers| && s.workers[w].Holding? && !s.cancelled
    case Deliver(w, _) => w < |s.workers| && s.workers[w].Fetching? && s.workers[w].tile < |s.slots|
    case RecordError(w) => w < |s.workers| && s.workers[w].Recording?
    case CancelAll(w) => w < |s.workers| && s.workers[w].Cancelling?
    case Exit(w) => w < |s.workers| && s.workers[w].Idle? && s.jobs == [] && !s.phase.Producing?
    case CancelParent => !s.parentCancelled
    case PropagateCancel => s.parentCancelled && !s.cancelled
    case CheckErrors => s.phase.Closed? && AllExited(s.workers)
    case CheckContext => s.phase.ErrorsChecked?
  }

  /** The slot a finished request leaves behind, size guard included. */
  function SlotFor(c: Config, tile: nat, outcome: Outcome): Slot {
    match outcome
    case FetchError(e) => Failed(e)
    case DecodeError(e) => Failed(e)
    case Bundle(leaves) =>
      if |leaves| == TileWidth(c.treeSize, tile) then Entries(leaves) else Failed("bundle size")
  }

  function Step(c: Config, s: Walk, e: Event): Walk
    requires Enabled(c, s, e)
  {
    match e
    case Send => s.(next := s.next + 1, jobs := s.jobs + [s.next])
    case Close => s.(phase := Closed)
    case Receive(w) => s.(jobs := s.jobs[1..], workers := s.workers[w := Holding(s.jobs[0])])
    case Skip(w) =>
      s.(workers := s.workers[w := Idle], skipped := s.skipped + multiset{s.workers[w].tile})
    case Fetch(w) =>
      var t := s.workers[w].tile;
      s.(workers := s.workers[w := Fetching(t)], fetched := s.fetched + multiset{t})
    case Deliver(w, outcome) =>
      var t := s.workers[w].tile;
      var slot := SlotFor(c, t, outcome);
      s.(slots := s.slots[t := slot],
         workers := s.workers[w := if slot.Failed? then Recording(t, slot.error) else Idle])
    case RecordError(w) =>
      s.(firstError := if s.firstError.None? then Some(s.workers[w].error) else s.firstError,
         workers := s.workers[w := Cancelling])
    case CancelAll(w) => s.(cancelled := true, workers := s.workers[w := Idle])
    case Exit(w) => s.(workers := s.workers[w := Exited])
    case CancelParent => s.(parentCancelled := true)
    case PropagateCancel => s.(cancelled := true)
    case CheckErrors =>
      s.(phase := if s.firstError.Some? then Done(Err(s.firstError.value)) else ErrorsChecked)
    case CheckContext =>
      s.(phase := Done(if s.parentCancelled then Err("context cancelled") else Merge(c, s.slots)))
  }

  // ---- merge ---------------------------------------------------------------

  /** The final loop over slots: a failed slot is an error, an unset slot has no
      entries, and tile t numbers its leaves from t * 256. */
  function Merge(c: Config, slots: seq<Slot>): Result<seq<AgentMatch>> {
    if slots == [] then Ok([]) else
      var t := |slots| - 1;
      match Merge(c, slots[..t])
      case Err(e) => Err(e)
      case Ok(ms) =>
        match slots[t]
        case Failed(e) => Err(e)
        case Unset => Ok(ms)
        case Entries(leaves) => Ok(ms + Scan(c.pick, leaves, t * WIDTH))
  }

  method ScanTile(pick: Picker, leaves: seq<Leaf>, base: nat) returns (ms: seq<AgentMatch>)
    ensures ms == Scan(pick, leaves, base)
  {
    hide Scan;
    ScanNothing(pick, base);
    ms := [];
    for i := 0 to |leaves|
      invariant ms == Scan(pick, leaves[..i], base)
    {
      assert leaves[..i + 1] == leaves[..i] + [leaves[i]];
      ScanSnoc(pick, leaves[..i], leaves[i], base);
      var id := pick(leaves[i]);
      if id.Some? {
        ms := ms + [AgentMatch(base + i, id.value, leaves[i])];
      }
    }
    assert leaves[..|leaves|] == leaves;
  }

  method MergeTiles(c: Config, slots: seq<Slot>) returns (r: Result<seq<AgentMatch>>)
    ensures r == Merge(c, slots)
  {
    var ms: seq<AgentMatch> := [];
    for t := 0 to |slots|
      invariant Merge(c, slots[..t]) == Ok(ms)
    {
      assert slots[..t + 1][..t] == slots[..t];
      if slots[t].Failed? {
        FirstFailureWins(c, slots, t + 1);
        return Err(slots[t].error);
      } else if slots[t].Entries? {
        var found := ScanTile(c.pick, slots[t].leaves, t * WIDTH);
        ms := ms + found;
      }
    }
    assert slots[..|slots|] == slots;
    return Ok(ms);
  }

  lemma {:induction false} FirstFailureWins(c: Config, slots: seq<Slot>, k: nat)
    requires k <= |slots| && Merge(c, slots[..k]).Err?
    ensures Merge(c, slots) == Merge(c, slots[..k])
    decreases |slots|
  {
    if k < |slots| {
      var front := slots[..|slots| - 1];
      assert front[..k] == slots[..k];
      FirstFailureWins(c, front, k);
    } else {
      assert slots[..k] == slots;
    }
  }

  /** The leaves held by a slot sequence, in tile order. */
  function Flatten(slots: seq<Slot>): seq<Leaf> {
    if slots == [] then [] else
      var t := |slots| - 1;
      Flatten(slots[..t]) + (if slots[t].Entries? then slots[t].leaves else [])
  }

  ghost predicate FullTiles(c: Config, slots: seq<Slot>) {
    forall t :: 0 <= t < |slots| ==>
      slots[t].Entries? && |slots[t].leaves| == TileWidth(c.treeSize, t)
  }

  /** The wrap-free sizes are exactly those whose tiles cover the log. */
  lemma TilesCoverLog(treeSize: nat)
    requires treeSize < TWO_TO_64
    ensures TileCount(treeSize) * WIDTH >= treeSize <==> treeSize <= TWO_TO_64 - WIDTH
    ensures treeSize <= TWO_TO_64 - WIDTH ==> TileCount(treeSize) == (treeSize + WIDTH - 1) / WIDTH
    ensures treeSize > TWO_TO_64 - WIDTH ==> TileCount(treeSize) == 0
  {
    assert treeSize > TWO_TO_64 - WIDTH ==>
        (treeSize + WIDTH - 1) % TWO_TO_64 == treeSize + WIDTH - 1 - TWO_TO_64;
  }

  /** Full tiles concatenate to the log, and merging them is the sequential scan. */
  lemma {:induction false} MergeIsScan(c: Config, slots: seq<Slot>)
    requires c.treeSize <= TWO_TO_64 - WIDTH
    requires FullTiles(c, slots) && |slots| <= TileCount(c.treeSize)
    ensures |Flatten(slots)| == if |slots| * WIDTH <= c.treeSize then |slots| * WIDTH else c.treeSize
    ensures Merge(c, slots) == Ok(Scan(c.pick, Flatten(slots), 0))
  {
    if slots != [] {
      var t := |slots| - 1;
      LastSlot(c, slots);
      WidthOfTile(c.treeSize, t);
      hide *;
      MergeIsScan(c, slots[..t]);
      ScanConcat(c.pick, Flatten(slots[..t]), slots[t].leaves, 0);
    }
  }

  lemma LastSlot(c: Config, slots: seq<Slot>)
    requires slots != [] && FullTiles(c, slots)
    ensures var t := |slots| - 1;
            && slots[t].Entries? && |slots[t].leaves| == TileWidth(c.treeSize, t) && FullTiles(c, slots[..t])
            && Flatten(slots) == Flatten(slots[..t]) + slots[t].leaves
            && (Merge(c, slots[..t]).Ok? ==>
                  Merge(c, slots) == Ok(Merge(c, slots[..t]).value + Scan(c.pick, slots[t].leaves, t * WIDTH)))
  {
    hide Scan, TileWidth;
  }

  /** Inside the log every tile is full except the last, which holds the rest. */
  lemma WidthOfTile(treeSize: nat, t: nat)
    requires treeSize <= TWO_TO_64 - WIDTH && t < TileCount(treeSize)
    ensures t * WIDTH < treeSize
    ensures TileWidth(treeSize, t) == if t * WIDTH + WIDTH <= treeSize then WIDTH else treeSize - t * WIDTH
  {
  }
}
