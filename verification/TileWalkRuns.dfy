/** Every interleaving of the tile walk: conservation of tiles, no silent
    omission, no deadlock, no infinite run. */
module TileWalkRuns {
  import opened Prelude
  import opened Leaves
  import opened Text
  import opened TileWalk

  // ---- runs ----------------------------------------------------------------

  ghost predicate IsRun(c: Config, s: Walk, es: seq<Event>)
    decreases |es|
  {
    es == [] || (Enabled(c, s, es[0]) && IsRun(c, Step(c, s, es[0]), es[1..]))
  }

  ghost function After(c: Config, s: Walk, es: seq<Event>): Walk
    requires IsRun(c, s, es)
    decreases |es|
  {
    if es == [] then s else After(c, Step(c, s, es[0]), es[1..])
  }

  // ---- the invariant -------------------------------------------------------

  /** How many workers hold tile t without having checked the cancel yet. */
  ghost function Held(workers: seq<Worker>, t: nat): nat {
    if workers == [] then 0 else
      var n := |workers| - 1;
      Held(workers[..n], t) + HeldBy(workers[n], t)
  }

  ghost function HeldBy(w: Worker, t: nat): nat {
    if w == Holding(t) then 1 else 0
  }

  /** Where tile t is: queued, held unchecked, drained without work, or requested. */
  ghost function Places(s: Walk, t: nat): nat {
    multiset(s.jobs)[t] + Held(s.workers, t) + s.skipped[t] + s.fetched[t]
  }

  /** Every tile sent is in exactly one place, and no other tile is anywhere. */
  ghost predicate Conserved(s: Walk) {
    forall t: nat :: Places(s, t) == if t < s.next then 1 else 0
  }

  ghost predicate Shape(c: Config, s: Walk) {
    && |s.workers| == c.workers >= 1
    && |s.slots| == TileCount(c.treeSize)
    && s.next <= TileCount(c.treeSize) && |s.jobs| <= c.workers
    && (forall w :: 0 <= w < |s.workers| && s.workers[w].Fetching? ==> s.workers[w].tile in s.fetched)
  }

  /** Work is dropped only under cancellation, and cancellation has a cause. */
  ghost predicate Caused(c: Config, s: Walk) {
    CancelCaused(s) && CutShort(c, s)
  }

  ghost predicate CancelCaused(s: Walk) {
    && (s.cancelled ==> s.firstError.Some? || s.parentCancelled)
    && (forall w :: 0 <= w < |s.workers| && s.workers[w].Cancelling? ==> s.firstError.Some?)
  }

  ghost predicate CutShort(c: Config, s: Walk) {
    && (s.skipped != multiset{} ==> s.cancelled)
    && (!s.phase.Producing? && s.next < TileCount(c.treeSize) ==> s.cancelled)
  }

  ghost predicate Exits(c: Config, s: Walk) {
    LeaveLate(s) && ChecksLate(c, s)
  }

  /** A worker leaves only a closed and drained channel. */
  ghost predicate LeaveLate(s: Walk) {
    forall w :: 0 <= w < |s.workers| && s.workers[w].Exited? ==> !s.phase.Producing? && s.jobs == []
  }

  ghost predicate ChecksLate(c: Config, s: Walk) {
    && (s.phase.ErrorsChecked? ==> AllExited(s.workers) && s.firstError.None?)
    && (s.phase.Done? && c.treeSize > 0 ==> AllExited(s.workers))
  }

  ghost predicate SlotsTell(c: Config, s: Walk) {
    RequestsTell(s) && FailuresTell(s) && SizesTell(c, s)
  }

  /** A requested tile without an answer is with a worker. */
  ghost predicate RequestsTell(s: Walk) {
    forall t :: t in s.fetched && t < |s.slots| && s.slots[t].Unset? ==>
      exists w :: 0 <= w < |s.workers| && s.workers[w] == Fetching(t)
  }

  /** A failure not recorded yet is with a worker. */
  ghost predicate FailuresTell(s: Walk) {
    forall t :: 0 <= t < |s.slots| && s.slots[t].Failed? && s.firstError.None? ==>
      exists w :: 0 <= w < |s.workers| && s.workers[w] == Recording(t, s.slots[t].error)
  }

  ghost predicate SizesTell(c: Config, s: Walk) {
    forall t :: 0 <= t < |s.slots| && s.slots[t].Entries? ==> |s.slots[t].leaves| == TileWidth(c.treeSize, t)
  }

  ghost predicate ResultTells(c: Config, s: Walk) {
    s.phase.Done? && c.treeSize > 0 ==>
      s.phase.result ==
        if s.firstError.Some? then Err(s.firstError.value)
        else if s.parentCancelled then Err("context cancelled")
        else Merge(c, s.slots)
  }

  ghost predicate Inv(c: Config, s: Walk) {
    Shape(c, s) && Conserved(s) && Caused(c, s) && Exits(c, s) && SlotsTell(c, s) && ResultTells(c, s)
  }

  lemma {:induction false} HeldUpdate(ws: seq<Worker>, i: nat, x: Worker, t: nat)
    requires i < |ws|
    ensures Held(ws[i := x], t) + HeldBy(ws[i], t) == Held(ws, t) + HeldBy(x, t)
  {
    var n := |ws| - 1;
    if i < n {
      HeldUpdate(ws[..n], i, x, t);
      assert ws[i := x][..n] == ws[..n][i := x];
    } else {
      assert ws[i := x][..n] == ws[..n];
    }
  }

  lemma {:induction false} HeldNone(ws: seq<Worker>, t: nat)
    requires forall w :: 0 <= w < |ws| ==> !ws[w].Holding?
    ensures Held(ws, t) == 0
  {
    if ws != [] { HeldNone(ws[..|ws| - 1], t); }
  }

  lemma InvInitially(c: Config)
    requires c.workers >= 1
    ensures Inv(c, Initial(c))
  {
    forall t: nat ensures Places(Initial(c), t) == 0 {
      HeldNone(Initial(c).workers, t);
    }
  }

  lemma JobsTail(jobs: seq<nat>, t: nat)
    requires jobs != []
    ensures multiset(jobs)[t] == multiset(jobs[1..])[t] + if jobs[0] == t then 1 else 0
  {
    assert jobs == [jobs[0]] + jobs[1..];
  }

  lemma JobsMore(jobs: seq<nat>, last: nat, t: nat)
    ensures multiset(jobs + [last])[t] == multiset(jobs)[t] + if last == t then 1 else 0
  {
  }

  /** A worker's own action moves its tile only. */
  lemma PlacesOfWorker(c: Config, s: Walk, e: Event, w: nat, t: nat)
    requires Enabled(c, s, e) && !e.Receive? && w < |s.workers|
    requires e in {Skip(w), Fetch(w), RecordError(w), CancelAll(w), Exit(w)} || (e.Deliver? && e.w == w)
    ensures Places(Step(c, s, e), t) == Places(s, t)
  {
    hide Held, Merge, SlotFor, TileCount;
    HeldUpdate(s.workers, w, Step(c, s, e).workers[w], t);
  }

  /** One action moves no tile, or moves one tile from one place to the next. */
  lemma PlacesStep(c: Config, s: Walk, e: Event, t: nat)
    requires Enabled(c, s, e)
    ensures Places(Step(c, s, e), t) == Places(s, t) + if e.Send? && t == s.next then 1 else 0
  {
    hide Held, Merge, SlotFor, TileCount;
    match e
    case Send => JobsMore(s.jobs, s.next, t);
    case Receive(w) =>
      HeldUpdate(s.workers, w, Holding(s.jobs[0]), t);
      JobsTail(s.jobs, t);
    case Skip(w) => PlacesOfWorker(c, s, e, w, t);
    case Fetch(w) => PlacesOfWorker(c, s, e, w, t);
    case Deliver(w, _) => PlacesOfWorker(c, s, e, w, t);
    case RecordError(w) => PlacesOfWorker(c, s, e, w, t);
    case CancelAll(w) => PlacesOfWorker(c, s, e, w, t);
    case Exit(w) => PlacesOfWorker(c, s, e, w, t);
    case _ =>
  }

  lemma ConservedStep(c: Config, s: Walk, e: Event)
    requires Conserved(s) && Enabled(c, s, e)
    ensures Conserved(Step(c, s, e))
  {
    var s' := Step(c, s, e);
    forall t: nat ensures Places(s', t) == if t < s'.next then 1 else 0 {
      PlacesStep(c, s, e, t);
    }
  }

  lemma RequestsTellStep(c: Config, s: Walk, e: Event)
    requires RequestsTell(s) && Enabled(c, s, e)
    ensures RequestsTell(Step(c, s, e))
  {
    hide Merge, TileCount, SlotFor;
    var s' := Step(c, s, e);
    forall t | t in s'.fetched && t < |s'.slots| && s'.slots[t].Unset?
      ensures exists w :: 0 <= w < |s'.workers| && s'.workers[w] == Fetching(t)
    {
      SlotForIsSet(c);
      if t in s.fetched {
        var w :| 0 <= w < |s.workers| && s.workers[w] == Fetching(t);
        assert s'.workers[w] == Fetching(t);
      } else {
        assert s'.workers[e.w] == Fetching(t);
      }
    }
  }

  lemma SlotForIsSet(c: Config)
    ensures forall t, outcome :: !SlotFor(c, t, outcome).Unset?
  {
  }

  lemma FailuresTellStep(c: Config, s: Walk, e: Event)
    requires FailuresTell(s) && Enabled(c, s, e)
    ensures FailuresTell(Step(c, s, e))
  {
    hide Merge, TileCount, SlotFor;
    var s' := Step(c, s, e);
    forall t | 0 <= t < |s'.slots| && s'.slots[t].Failed? && s'.firstError.None?
      ensures exists w :: 0 <= w < |s'.workers| && s'.workers[w] == Recording(t, s'.slots[t].error)
    {
      if e.Deliver? && s.workers[e.w].tile == t {
        assert s'.workers[e.w] == Recording(t, s'.slots[t].error);
      } else {
        var w :| 0 <= w < |s.workers| && s.workers[w] == Recording(t, s.slots[t].error);
        assert s'.workers[w] == Recording(t, s'.slots[t].error);
      }
    }
  }

  lemma SlotsTellStep(c: Config, s: Walk, e: Event)
    requires SlotsTell(c, s) && Enabled(c, s, e)
    ensures SlotsTell(c, Step(c, s, e))
  {
    hide RequestsTell, FailuresTell, Merge, TileCount, TileWidth;
    RequestsTellStep(c, s, e);
    FailuresTellStep(c, s, e);
  }

  lemma ShapeStep(c: Config, s: Walk, e: Event)
    requires Shape(c, s) && Enabled(c, s, e)
    ensures Shape(c, Step(c, s, e))
  {
    hide Merge, SlotFor, TileCount;
  }

  lemma CausedStep(c: Config, s: Walk, e: Event)
    requires Caused(c, s) && Enabled(c, s, e)
    ensures Caused(c, Step(c, s, e))
  {
    hide CancelCaused, CutShort;
    CancelCausedStep(c, s, e);
    CutShortStep(c, s, e);
  }

  lemma CancelCausedStep(c: Config, s: Walk, e: Event)
    requires CancelCaused(s) && Enabled(c, s, e)
    ensures CancelCaused(Step(c, s, e))
  {
    hide Merge, SlotFor, TileCount;
  }

  lemma CutShortStep(c: Config, s: Walk, e: Event)
    requires CutShort(c, s) && Enabled(c, s, e)
    ensures CutShort(c, Step(c, s, e))
  {
    hide Merge, SlotFor, TileCount;
  }

  lemma ExitsStep(c: Config, s: Walk, e: Event)
    requires Exits(c, s) && Enabled(c, s, e)
    ensures Exits(c, Step(c, s, e))
  {
    hide LeaveLate, ChecksLate;
    LeaveLateStep(c, s, e);
    ChecksLateStep(c, s, e);
  }

  lemma LeaveLateStep(c: Config, s: Walk, e: Event)
    requires LeaveLate(s) && Enabled(c, s, e)
    ensures LeaveLate(Step(c, s, e))
  {
    hide Merge, SlotFor, TileCount;
  }

  lemma ChecksLateStep(c: Config, s: Walk, e: Event)
    requires ChecksLate(c, s) && Enabled(c, s, e)
    ensures ChecksLate(c, Step(c, s, e))
  {
    hide Merge, SlotFor, TileCount;
  }

  lemma InvStep(c: Config, s: Walk, e: Event)
    requires Inv(c, s) && Enabled(c, s, e)
    ensures Inv(c, Step(c, s, e))
  {
    ShapeStep(c, s, e);
    ConservedStep(c, s, e);
    CausedStep(c, s, e);
    ExitsStep(c, s, e);
    SlotsTellStep(c, s, e);
    assert ResultTells(c, Step(c, s, e)) by { ResultTellsStep(c, s, e); }
  }

  lemma ResultTellsStep(c: Config, s: Walk, e: Event)
    requires Exits(c, s) && Enabled(c, s, e)
    ensures ResultTells(c, Step(c, s, e))
  {
  }

  lemma {:induction false} InvAfter(c: Config, s: Walk, es: seq<Event>)
    requires Inv(c, s) && IsRun(c, s, es)
    ensures Inv(c, After(c, s, es))
    decreases |es|
  {
    if es != [] {
      InvStep(c, s, es[0]);
      InvAfter(c, Step(c, s, es[0]), es[1..]);
    }
  }

  // ---- no silent omission --------------------------------------------------

  /** A walk that reports success fetched every tile exactly once and holds
      full-size entries for all of them. */
  lemma SuccessMeansAllTiles(c: Config, s: Walk)
    requires Inv(c, s) && c.treeSize > 0 && s.phase.Done? && s.phase.result.Ok?
    ensures forall t: nat :: s.fetched[t] == if t < TileCount(c.treeSize) then 1 else 0
    ensures FullTiles(c, s.slots)
  {
    assert s.next == TileCount(c.treeSize) && s.skipped == multiset{};
    assert s.workers[0].Exited?;
    forall t: nat ensures s.fetched[t] == Places(s, t) {
      HeldNone(s.workers, t);
    }
    forall t | 0 <= t < |s.slots| ensures s.slots[t].Entries? {
      assert Places(s, t) == 1;
      assert t in s.fetched;
    }
  }

  /** What a successful final state says. */
  ghost predicate ScannedAll(c: Config, s: Walk) {
    && |Flatten(s.slots)| == c.treeSize
    && s.phase == Done(Ok(Scan(c.pick, Flatten(s.slots), 0)))
    && (forall t: nat :: s.fetched[t] == if t < TileCount(c.treeSize) then 1 else 0)
  }

  lemma SuccessIsScan(c: Config, s: Walk)
    requires 0 < c.treeSize <= TWO_TO_64 - WIDTH
    requires Inv(c, s) && s.phase.Done? && s.phase.result.Ok?
    ensures ScannedAll(c, s)
  {
    SuccessMeansAllTiles(c, s);
    TilesCoverLog(c.treeSize);
    MergeIsScan(c, s.slots);
  }

  /** Main result: under every interleaving of producer, workers, failures and
      cancellation, a walk that returns without error returns the sequential scan
      of treeSize leaves, taken from tiles that were each requested exactly once.
      This holds exactly when treeSize + 255 fits in 64 bits: above that the tile
      count wraps to zero, and every walk that succeeds is empty. */
  lemma WalkIsSequentialScan(c: Config, es: seq<Event>)
    requires 0 < c.treeSize < TWO_TO_64 && c.workers >= 1
    requires IsRun(c, Initial(c), es)
    ensures var s := After(c, Initial(c), es);
            s.phase.Done? && s.phase.result.Ok? ==>
              && (ScannedAll(c, s) <==> c.treeSize <= TWO_TO_64 - WIDTH)
              && (c.treeSize > TWO_TO_64 - WIDTH ==> s.phase.result.value == [] && s.fetched == multiset{})
  {
    InvInitially(c);
    InvAfter(c, Initial(c), es);
    var s := After(c, Initial(c), es);
    if s.phase.Done? && s.phase.result.Ok? {
      if c.treeSize <= TWO_TO_64 - WIDTH {
        SuccessIsScan(c, s);
      } else {
        SuccessMeansAllTiles(c, s);
        TilesCoverLog(c.treeSize);
        assert s.slots == [];
      }
    }
  }

  // ---- an honest log -------------------------------------------------------

  /** The leaves of one tile of a log. */
  function TileOf(log: seq<Leaf>, tile: nat): seq<Leaf> {
    var lo := tile * WIDTH;
    if lo + WIDTH <= |log| then log[lo..lo + WIDTH] else if lo <= |log| then log[lo..] else []
  }

  ghost predicate HonestSlots(log: seq<Leaf>, slots: seq<Slot>) {
    forall t :: 0 <= t < |slots| && slots[t].Entries? ==> slots[t].leaves == TileOf(log, t)
  }

  /** Every full-size bundle delivered in the run is the log's own tile. */
  ghost predicate HonestRun(c: Config, log: seq<Leaf>, s: Walk, es: seq<Event>)
    requires IsRun(c, s, es)
    decreases |es|
  {
    es != [] ==>
      && (es[0].Deliver? && SlotFor(c, s.workers[es[0].w].tile, es[0].outcome).Entries? ==>
            es[0].outcome.leaves == TileOf(log, s.workers[es[0].w].tile))
      && HonestRun(c, log, Step(c, s, es[0]), es[1..])
  }

  lemma {:induction false} HonestAfter(c: Config, log: seq<Leaf>, s: Walk, es: seq<Event>)
    requires IsRun(c, s, es) && HonestRun(c, log, s, es) && HonestSlots(log, s.slots)
    ensures HonestSlots(log, After(c, s, es).slots)
    decreases |es|
  {
    if es != [] {
      HonestAfter(c, log, Step(c, s, es[0]), es[1..]);
    }
  }

  /** How many leaves the first k tiles hold. */
  function Covered(log: seq<Leaf>, k: nat): (n: nat)
    ensures n <= |log|
  {
    if k * WIDTH <= |log| then k * WIDTH else |log|
  }

  lemma TileExtends(log: seq<Leaf>, t: nat)
    ensures log[..Covered(log, t)] + TileOf(log, t) == log[..Covered(log, t + 1)]
  {
  }

  lemma {:induction false} FlattenHonest(log: seq<Leaf>, slots: seq<Slot>)
    requires HonestSlots(log, slots)
    requires forall t :: 0 <= t < |slots| ==> slots[t].Entries?
    ensures Flatten(slots) == log[..Covered(log, |slots|)]
  {
    if slots != [] {
      var t := |slots| - 1;
      FlattenHonest(log, slots[..t]);
      TileExtends(log, t);
    }
  }

  /** Against a server that serves the tiles of one log, success means the
      sequential scan of that log. */
  lemma HonestWalkScansLog(c: Config, log: seq<Leaf>, es: seq<Event>)
    requires 0 < c.treeSize == |log| <= TWO_TO_64 - WIDTH && c.workers >= 1
    requires IsRun(c, Initial(c), es) && HonestRun(c, log, Initial(c), es)
    ensures var s := After(c, Initial(c), es);
            s.phase.Done? && s.phase.result.Ok? ==> s.phase.result.value == Scan(c.pick, log, 0)
  {
    hide IsRun, After, HonestRun, Scan, Merge;
    WalkIsSequentialScan(c, es);
    HonestAfter(c, log, Initial(c), es);
    InvInitially(c);
    InvAfter(c, Initial(c), es);
    var s := After(c, Initial(c), es);
    if s.phase.Done? && s.phase.result.Ok? {
      SuccessMeansAllTiles(c, s);
      TilesCoverLog(c.treeSize);
      FlattenHonest(log, s.slots);
      assert log[..|log|] == log;
    }
  }

  /** The walk of `ans-verify list`, end to end: a success against an honest log
      reports a leaf if and only if it decodes to an agent event whose host lies
      under the provider, label by label, and reports it under its own index. */
  lemma ProviderWalk(c: Config, decode: Picker, suffix: string, log: seq<Leaf>, es: seq<Event>, m: AgentMatch)
    requires c.pick == ProviderPicker(decode, suffix)
    requires 0 < c.treeSize == |log| <= TWO_TO_64 - WIDTH && c.workers >= 1
    requires IsRun(c, Initial(c), es) && HonestRun(c, log, Initial(c), es)
    ensures var s := After(c, Initial(c), es);
            s.phase.Done? && s.phase.result.Ok? ==>
              (m in s.phase.result.value <==>
                 && m.leafIndex < |log| && m.leafBytes == log[m.leafIndex]
                 && decode(m.leafBytes) == Some(m.identity)
                 && m.identity.host != "" && suffix != ""
                 && HasSuffix(Labels(m.identity.host), Labels(suffix)))
  {
    hide IsRun, After, HonestRun, Scan, Labels, HasSuffix, ProviderMatches;
    HonestWalkScansLog(c, log, es);
    ScanExact(c.pick, log, 0);
    if m.identity.host != "" && suffix != "" {
      ProviderMatchesLabels(m.identity.host, suffix);
    } else {
      NothingMatches(m.identity.host, suffix);
    }
  }

  lemma NothingMatches(host: string, suffix: string)
    requires host == "" || suffix == ""
    ensures !ProviderMatches(host, suffix)
  {
  }

  // ---- when a walk fails ---------------------------------------------------

  /** The event neither fails a tile nor cancels the caller's context. */
  ghost predicate CleanEvent(c: Config, s: Walk, e: Event)
    requires Enabled(c, s, e)
  {
    !e.CancelParent? && (e.Deliver? ==> SlotFor(c, s.workers[e.w].tile, e.outcome).Entries?)
  }

  ghost predicate CleanRun(c: Config, s: Walk, es: seq<Event>)
    requires IsRun(c, s, es)
    decreases |es|
  {
    es == [] || (CleanEvent(c, s, es[0]) && CleanRun(c, Step(c, s, es[0]), es[1..]))
  }

  /** Nothing has gone wrong so far. */
  ghost predicate CleanState(s: Walk) {
    && !s.cancelled && !s.parentCancelled && s.firstError.None?
    && (forall w :: 0 <= w < |s.workers| ==> !s.workers[w].Recording? && !s.workers[w].Cancelling?)
    && (forall t :: 0 <= t < |s.slots| ==> !s.slots[t].Failed?)
  }

  /** Something has gone wrong and cannot be forgotten. */
  ghost predicate Marked(s: Walk) {
    s.parentCancelled || s.firstError.Some? ||
    exists w :: 0 <= w < |s.workers| && s.workers[w].Recording?
  }

  lemma MarkedStep(c: Config, s: Walk, e: Event)
    requires Enabled(c, s, e)
    ensures Marked(s) || !CleanEvent(c, s, e) ==> Marked(Step(c, s, e))
    ensures CleanState(s) && CleanEvent(c, s, e) ==> CleanState(Step(c, s, e))
  {
    hide Merge, TileCount;
    var s' := Step(c, s, e);
    if e.Deliver? && !CleanEvent(c, s, e) {
      assert s'.workers[e.w].Recording?;
    } else if w :| 0 <= w < |s.workers| && s.workers[w].Recording? {
      assert e.RecordError? || s'.workers[w].Recording?;
    }
  }

  lemma {:induction false} MarkedAfter(c: Config, s: Walk, es: seq<Event>)
    requires IsRun(c, s, es)
    ensures Marked(s) || !CleanRun(c, s, es) ==> Marked(After(c, s, es))
    ensures CleanState(s) && CleanRun(c, s, es) ==> CleanState(After(c, s, es))
    decreases |es|
  {
    if es != [] {
      MarkedStep(c, s, es[0]);
      MarkedAfter(c, Step(c, s, es[0]), es[1..]);
    }
  }

  lemma {:induction false} MergeSucceeds(c: Config, slots: seq<Slot>)
    requires forall t :: 0 <= t < |slots| ==> !slots[t].Failed?
    ensures Merge(c, slots).Ok?
  {
    if slots != [] { MergeSucceeds(c, slots[..|slots| - 1]); }
  }

  /** A finished walk reports success exactly when no tile failed and the
      caller's context was not cancelled during it. */
  lemma WalkSucceedsIffClean(c: Config, es: seq<Event>)
    requires c.treeSize > 0 && c.workers >= 1
    requires IsRun(c, Initial(c), es) && After(c, Initial(c), es).phase.Done?
    ensures After(c, Initial(c), es).phase.result.Ok? <==> CleanRun(c, Initial(c), es)
  {
    var s := After(c, Initial(c), es);
    InvInitially(c);
    InvAfter(c, Initial(c), es);
    MarkedAfter(c, Initial(c), es);
    if CleanRun(c, Initial(c), es) {
      MergeSucceeds(c, s.slots);
    }
  }

  /** Cancellation stops the work: no request starts after it, and the producer may
      close at once instead of sending what is left. */
  lemma {:induction false} CancelStopsRequests(c: Config, s: Walk, es: seq<Event>)
    requires s.cancelled && IsRun(c, s, es)
    ensures After(c, s, es).cancelled && After(c, s, es).fetched == s.fetched
    ensures s.phase.Producing? ==> Enabled(c, s, Close)
    decreases |es|
  {
    if es != [] {
      hide Merge, SlotFor, TileCount;
      CancelStopsRequests(c, Step(c, s, es[0]), es[1..]);
    }
  }

  /** An empty log is done before it starts. */
  lemma EmptyLogIsDone(c: Config, es: seq<Event>)
    requires c.treeSize == 0 && IsRun(c, Initial(c), es)
    ensures es == [] && After(c, Initial(c), es).phase == Done(Ok([]))
  {
  }

  // ---- the reported error --------------------------------------------------

  /** What an answer is an error of, if it is one. */
  function ErrorText(o: Outcome): string {
    match o
    case FetchError(e) => e
    case DecodeError(e) => e
    case Bundle(_) => "bundle size"
  }

  /** The root cause, read off the events alone: the error of the answer that the
      first recording worker had received last. `answers` holds each worker's latest
      answer so far. */
  ghost function FirstCause(answers: map<nat, Outcome>, es: seq<Event>): Option<string>
    decreases |es|
  {
    if es == [] then None
    else if es[0].RecordError? && es[0].w in answers then Some(ErrorText(answers[es[0].w]))
    else if es[0].Deliver? then FirstCause(answers[es[0].w := es[0].outcome], es[1..])
    else FirstCause(answers, es[1..])
  }

  /** A worker about to record carries the error of its latest answer. */
  ghost predicate CarriesAnswer(s: Walk, answers: map<nat, Outcome>) {
    forall w: nat :: w < |s.workers| && s.workers[w].Recording? ==>
      w in answers && s.workers[w].error == ErrorText(answers[w])
  }

  lemma CarriesAnswerStep(c: Config, s: Walk, e: Event, answers: map<nat, Outcome>)
    requires CarriesAnswer(s, answers) && Enabled(c, s, e)
    ensures CarriesAnswer(Step(c, s, e), if e.Deliver? then answers[e.w := e.outcome] else answers)
  {
    hide Merge, TileCount, TileWidth;
  }

  lemma FirstErrorStep(c: Config, s: Walk, e: Event, answers: map<nat, Outcome>)
    requires CarriesAnswer(s, answers) && Enabled(c, s, e)
    ensures e.RecordError? ==> e.w in answers
    ensures Step(c, s, e).firstError ==
              if s.firstError.Some? then s.firstError
              else if e.RecordError? then Some(ErrorText(answers[e.w])) else None
  {
    hide Merge, TileCount, SlotFor;
  }

  /** The first-error cell holds the first cause, and once set never changes. */
  lemma {:induction false} FirstErrorSticks(c: Config, s: Walk, es: seq<Event>, answers: map<nat, Outcome>)
    requires IsRun(c, s, es) && CarriesAnswer(s, answers)
    ensures After(c, s, es).firstError == if s.firstError.Some? then s.firstError else FirstCause(answers, es)
    decreases |es|
  {
    if es != [] {
      var e := es[0];
      CarriesAnswerStep(c, s, e, answers);
      FirstErrorStep(c, s, e, answers);
      hide Step, Enabled, CarriesAnswer, ErrorText;
      FirstErrorSticks(c, Step(c, s, e), es[1..], if e.Deliver? then answers[e.w := e.outcome] else answers);
    }
  }

  /** A finished walk reports the root cause: the error whose recording came first in
      the run, whatever other requests failed after it. Without any, it reports
      nothing but a cancellation by the caller. */
  lemma RootCauseIsReported(c: Config, es: seq<Event>)
    requires c.treeSize > 0 && c.workers >= 1
    requires IsRun(c, Initial(c), es) && After(c, Initial(c), es).phase.Done?
    ensures var r := After(c, Initial(c), es).phase.result;
            match FirstCause(map[], es)
            case Some(e) => r == Err(e)
            case None => r.Ok? || r == Err("context cancelled")
  {
    var s := After(c, Initial(c), es);
    InvInitially(c);
    InvAfter(c, Initial(c), es);
    FirstErrorSticks(c, Initial(c), es, map[]);
    if s.firstError.None? {
      assert forall t :: 0 <= t < |s.slots| ==> !s.slots[t].Failed?;
      MergeSucceeds(c, s.slots);
    }
  }

  // ---- no deadlock, no infinite run ----------------------------------------

  /** What worker w can do next while the job channel has work or is closed. */
  lemma WorkerCanMove(c: Config, s: Walk, w: nat) returns (e: Event)
    requires Inv(c, s) && !s.phase.Done? && w < |s.workers| && !s.workers[w].Exited?
    requires s.jobs != [] || !s.phase.Producing?
    ensures Enabled(c, s, e) && !e.CancelParent? && !e.PropagateCancel?
  {
    match s.workers[w]
    case Idle => e := if s.jobs == [] then Exit(w) else Receive(w);
    case Holding(_) => e := if s.cancelled then Skip(w) else Fetch(w);
    case Fetching(t) =>
      assert t in s.fetched && Places(s, t) > 0;
      e := Deliver(w, FetchError("timeout"));
    case Recording(_, _) => e := RecordError(w);
    case Cancelling => e := CancelAll(w);
  }

  /** No deadlock: an unfinished walk can always take a step of its own, without
      waiting for a cancellation. Where that step is a request coming back, any
      answer of the client will do. */
  lemma NeverStuck(c: Config, s: Walk) returns (e: Event)
    requires Inv(c, s) && !s.phase.Done?
    ensures Enabled(c, s, e) && !e.CancelParent? && !e.PropagateCancel?
    ensures e.Deliver? ==> forall outcome :: Enabled(c, s, Deliver(e.w, outcome))
  {
    if s.phase.ErrorsChecked? {
      e := CheckContext;
    } else if s.phase.Closed? && AllExited(s.workers) {
      e := CheckErrors;
    } else if s.phase.Closed? {
      var w: nat :| w < |s.workers| && !s.workers[w].Exited?;
      e := WorkerCanMove(c, s, w);
    } else if s.next == TileCount(c.treeSize) || s.cancelled {
      e := Close;
    } else if |s.jobs| < c.workers {
      e := Send;
    } else {
      e := WorkerCanMove(c, s, 0);
    }
  }

  ghost function Weight(w: Worker): nat {
    match w
    case Exited => 0
    case Idle => 1
    case Cancelling => 2
    case Recording(_, _) => 3
    case Fetching(_) => 4
    case Holding(_) => 5
  }

  ghost function Load(workers: seq<Worker>): nat {
    if workers == [] then 0 else Load(workers[..|workers| - 1]) + Weight(workers[|workers| - 1])
  }

  lemma {:induction false} LoadUpdate(ws: seq<Worker>, i: nat, x: Worker)
    requires i < |ws|
    ensures Load(ws[i := x]) + Weight(ws[i]) == Load(ws) + Weight(x)
  {
    var n := |ws| - 1;
    if i < n {
      LoadUpdate(ws[..n], i, x);
      assert ws[i := x][..n] == ws[..n][i := x];
    } else {
      assert ws[i := x][..n] == ws[..n];
    }
  }

  /** Actions left: an upper bound on how long the walk can still run. */
  ghost function Remaining(c: Config, s: Walk): nat
    requires s.next <= TileCount(c.treeSize)
  {
    6 * (TileCount(c.treeSize) - s.next) + 5 * |s.jobs| + Load(s.workers)
    + (match s.phase case Producing => 3 case Closed => 2 case ErrorsChecked => 1 case Done(_) => 0)
    + (if s.cancelled then 0 else 1) + (if s.parentCancelled then 0 else 1)
  }

  lemma RemainingOfWorker(c: Config, s: Walk, e: Event, w: nat)
    requires Shape(c, s) && Enabled(c, s, e) && !e.Receive? && w < |s.workers|
    requires e in {Skip(w), Fetch(w), RecordError(w), CancelAll(w), Exit(w)} || (e.Deliver? && e.w == w)
    ensures Step(c, s, e).next <= TileCount(c.treeSize)
    ensures Remaining(c, Step(c, s, e)) < Remaining(c, s)
  {
    hide Load, Merge, SlotFor, TileCount;
    LoadUpdate(s.workers, w, Step(c, s, e).workers[w]);
  }

  lemma RemainingDrops(c: Config, s: Walk, e: Event)
    requires Shape(c, s) && Enabled(c, s, e)
    ensures Step(c, s, e).next <= TileCount(c.treeSize)
    ensures Remaining(c, Step(c, s, e)) < Remaining(c, s)
  {
    hide Load, Merge, SlotFor, TileCount;
    match e
    case Receive(w) => LoadUpdate(s.workers, w, Holding(s.jobs[0]));
    case Skip(w) => RemainingOfWorker(c, s, e, w);
    case Fetch(w) => RemainingOfWorker(c, s, e, w);
    case Deliver(w, _) => RemainingOfWorker(c, s, e, w);
    case RecordError(w) => RemainingOfWorker(c, s, e, w);
    case CancelAll(w) => RemainingOfWorker(c, s, e, w);
    case Exit(w) => RemainingOfWorker(c, s, e, w);
    case _ =>
  }

  lemma {:induction false} RunsAreBounded(c: Config, s: Walk, es: seq<Event>)
    requires Inv(c, s) && IsRun(c, s, es)
    ensures |es| <= Remaining(c, s)
    decreases |es|
  {
    if es != [] {
      RemainingDrops(c, s, es[0]);
      InvStep(c, s, es[0]);
      RunsAreBounded(c, Step(c, s, es[0]), es[1..]);
    }
  }

  lemma {:induction false} InitialLoad(n: nat)
    ensures Load(seq(n, _ => Idle)) == n
  {
    if n > 0 {
      InitialLoad(n - 1);
      assert seq(n, _ => Idle)[..n - 1] == seq(n - 1, _ => Idle);
    }
  }

  /** Every run of the walk is finite, and its length is bounded up front. */
  lemma WalkTerminates(c: Config, es: seq<Event>)
    requires c.workers >= 1 && IsRun(c, Initial(c), es)
    ensures |es| <= 6 * TileCount(c.treeSize) + c.workers + 5
  {
    InvInitially(c);
    InitialLoad(c.workers);
    assert Initial(c).workers == seq(c.workers, _ => Idle);
    RunsAreBounded(c, Initial(c), es);
  }

  // ---- the 64-bit limit ----------------------------------------------------

  /** With the channel closed and drained and nothing gone wrong, the workers from k
      on leave one by one and the walk returns what its slots hold. */
  lemma {:induction false} Finish(c: Config, s: Walk, k: nat) returns (es: seq<Event>)
    requires s.phase.Closed? && s.jobs == [] && s.firstError.None? && !s.parentCancelled && k <= |s.workers|
    requires forall w :: 0 <= w < |s.workers| ==> s.workers[w] == if w < k then Exited else Idle
    ensures IsRun(c, s, es)
    ensures After(c, s, es).phase == Done(Merge(c, s.slots)) && After(c, s, es).fetched == s.fetched
    decreases |s.workers| - k
  {
    if k == |s.workers| {
      var s' := Step(c, s, CheckErrors);
      var s'' := Step(c, s', CheckContext);
      es := [CheckErrors, CheckContext];
      assert IsRun(c, s'', []) && After(c, s'', []) == s'';
      assert IsRun(c, s', [CheckContext]) && After(c, s', [CheckContext]) == s'' by {
        assert [CheckContext][1..] == [];
      }
      assert es[1..] == [CheckContext];
    } else {
      var rest := Finish(c, Step(c, s, Exit(k)), k + 1);
      es := [Exit(k)] + rest;
      assert es[1..] == rest;
    }
  }

  /** Such an empty success happens, whatever the number of workers: a run with no
      failure at all that returns an empty match list without one request. */
  lemma HugeLogIsLost(c: Config) returns (es: seq<Event>)
    requires TWO_TO_64 - WIDTH < c.treeSize < TWO_TO_64
    ensures IsRun(c, Initial(c), es)
    ensures After(c, Initial(c), es).phase == Done(Ok([]))
    ensures After(c, Initial(c), es).fetched == multiset{}
  {
    TilesCoverLog(c.treeSize);
    var rest := Finish(c, Step(c, Initial(c), Close), 0);
    es := [Close] + rest;
    assert es[1..] == rest;
  }
}
