/** Finder ingestion: the cursor protocol over an append-only feed, with fetch,
    apply and save failing at any step and restarts in between. */
module Poller {
  import opened Prelude
  import opened Projection

  /** None is a structural error of the event. */
  type Projector = EventItem -> Option<seq<ProjectedEntry>>

  datatype Page = Page(items: seq<EventItem>, lastLogId: string)

  /** The durable catalog index: the saved cursor, and every batch Apply has
      recorded, in order. */
  datatype Index = Index(cursor: string, batches: seq<seq<ProjectedEntry>>)

  datatype Phase =
    | Idle
    | Draining                 // about to fetch after the cursor
    | Fetched(page: Page)
    | Applied(page: Page)      // batch recorded, cursor not saved yet

  /** The wedge counter: consecutive failed rounds at one cursor. */
  datatype Wedge = Wedge(cursor: string, streak: nat)

  datatype State = State(feed: seq<EventItem>, index: Index, phase: Phase, wedge: Wedge)

  /** `durable` says whether a failed write reached the store all the same. */
  datatype Event =
    | Publish(items: seq<EventItem>)
    | BeginRound | ReadFails
    | Fetch(page: Page) | FetchFails | Cancel
    | ProjectFails | Apply | ApplyFails(durable: bool)
    | Stall | Save | SaveFails(durable: bool)
    | Restart

  /** All entries of the events, or None when one of them is malformed. */
  function ProjectAll(project: Projector, items: seq<EventItem>): Option<seq<ProjectedEntry>> {
    if items == [] then Some([]) else
      match ProjectAll(project, items[..|items| - 1])
      case None => None
      case Some(front) =>
        match project(items[|items| - 1])
        case None => None
        case Some(last) => Some(front + last)
  }

  /** nextCursorLogID. */
  function NextCursor(prior: string, page: Page): string {
    if page.lastLogId != "" then page.lastLogId
    else if page.items != [] then page.items[|page.items| - 1].logId
    else prior
  }

  const NO_FAILURE: Wedge := Wedge("", 0)

  const WEDGE_THRESHOLD: nat := 5

  function RecordFailure(w: Wedge, cursor: string): Wedge {
    if cursor == w.cursor then Wedge(cursor, w.streak + 1) else Wedge(cursor, 1)
  }

  // ---- the feed's contract -------------------------------------------------

  /** Log ids are non-empty and identify events. */
  ghost predicate FeedOk(feed: seq<EventItem>) {
    && (forall i :: 0 <= i < |feed| ==> feed[i].logId != "")
    && (forall i, j :: 0 <= i < j < |feed| ==> feed[i].logId != feed[j].logId)
  }

  /** The cursor names the last of the first pos events. */
  ghost predicate CursorNames(feed: seq<EventItem>, cursor: string, pos: nat) {
    pos <= |feed| && cursor == if pos == 0 then "" else feed[pos - 1].logId
  }

  /** How many events a cursor lies behind. */
  ghost function Position(feed: seq<EventItem>, cursor: string): nat {
    if exists pos: nat :: CursorNames(feed, cursor, pos) then
      var pos: nat :| CursorNames(feed, cursor, pos); pos
    else 0
  }

  lemma PositionIs(feed: seq<EventItem>, cursor: string, pos: nat)
    requires FeedOk(feed) && CursorNames(feed, cursor, pos)
    ensures Position(feed, cursor) == pos
  {
    var k := Position(feed, cursor);
    assert CursorNames(feed, cursor, k);
    assert k == 0 <==> pos == 0;
  }

  /** The page holds the events m..n. It leaves no gap behind pos but may repeat
      events before it; its cursor, when present, names where it ends. */
  ghost predicate Delivers(feed: seq<EventItem>, pos: nat, page: Page, m: nat, n: nat) {
    && m <= pos <= n <= |feed| && page.items == feed[m..n]
    && (page.lastLogId != "" ==> CursorNames(feed, page.lastLogId, n))
  }

  /** What the feed may answer to a request after the cursor. */
  ghost predicate Serves(feed: seq<EventItem>, cursor: string, page: Page) {
    exists m: nat, n: nat :: Delivers(feed, Position(feed, cursor), page, m, n)
  }

  // ---- steps ---------------------------------------------------------------

  /** The progress guard of RunOnce. */
  predicate Stalls(cursor: string, page: Page) {
    page.lastLogId != "" && NextCursor(cursor, page) == cursor
  }

  ghost predicate Enabled(project: Projector, s: State, e: Event) {
    match e
    case Publish(items) => FeedOk(s.feed + items)
    case BeginRound => s.phase.Idle?
    case ReadFails => s.phase.Idle?
    case Fetch(page) => s.phase.Draining? && Serves(s.feed, s.index.cursor, page)
    case FetchFails => s.phase.Draining?
    case Cancel => s.phase.Draining?
    case ProjectFails => s.phase.Fetched? && ProjectAll(project, s.phase.page.items).None?
    case Apply => s.phase.Fetched? && ProjectAll(project, s.phase.page.items).Some?
    case ApplyFails(_) => s.phase.Fetched? && ProjectAll(project, s.phase.page.items).Some?
    case Stall => s.phase.Applied? && Stalls(s.index.cursor, s.phase.page)
    case Save => s.phase.Applied? && !Stalls(s.index.cursor, s.phase.page)
    case SaveFails(_) => s.phase.Applied? && !Stalls(s.index.cursor, s.phase.page)
    case Restart => true
  }

  function Fail(s: State): State {
    s.(phase := Idle, wedge := RecordFailure(s.wedge, s.index.cursor))
  }

  function WithBatch(project: Projector, s: State): Index
    requires s.phase.Fetched? && ProjectAll(project, s.phase.page.items).Some?
  {
    s.index.(batches := s.index.batches + [ProjectAll(project, s.phase.page.items).value])
  }

  function Saved(s: State): Index
    requires s.phase.Applied?
  {
    s.index.(cursor := NextCursor(s.index.cursor, s.phase.page))
  }

  ghost function Step(project: Projector, s: State, e: Event): State
    requires Enabled(project, s, e)
  {
    match e
    case Publish(items) => s.(feed := s.feed + items)
    case BeginRound => s.(phase := Draining)
    case ReadFails => s.(wedge := RecordFailure(s.wedge, ""))
    case Fetch(page) => s.(phase := Fetched(page))
    case FetchFails => Fail(s)
    case Cancel => s.(phase := Idle)
    case ProjectFails => Fail(s)
    case Apply => s.(index := WithBatch(project, s), phase := Applied(s.phase.page))
    case ApplyFails(durable) => Fail(s).(index := if durable then WithBatch(project, s) else s.index)
    case Stall => Fail(s)
    case Save =>
      if s.phase.page.lastLogId == "" then s.(index := Saved(s), phase := Idle, wedge := NO_FAILURE)
      else s.(index := Saved(s), phase := Draining)
    case SaveFails(durable) => Fail(s).(index := if durable then Saved(s) else s.index)
    case Restart => s.(phase := Idle, wedge := NO_FAILURE)
  }

  ghost predicate IsRun(project: Projector, s: State, es: seq<Event>)
    decreases |es|
  {
    es == [] || (Enabled(project, s, es[0]) && IsRun(project, Step(project, s, es[0]), es[1..]))
  }

  ghost function After(project: Projector, s: State, es: seq<Event>): State
    requires IsRun(project, s, es)
    decreases |es|
  {
    if es == [] then s else After(project, Step(project, s, es[0]), es[1..])
  }

  ghost function Initial(feed: seq<EventItem>): State {
    State(feed, Index("", []), Idle, NO_FAILURE)
  }

  // ---- the invariant -------------------------------------------------------

  /** The recorded batches contain, in this order, the entries of the first n
      events, cut into pages without a gap between them. */
  ghost predicate Covered(project: Projector, feed: seq<EventItem>, batches: seq<seq<ProjectedEntry>>, n: nat)
    requires n <= |feed|
    decreases |batches|
  {
    n == 0 ||
    (exists i, m, k :: 0 <= i < |batches| && 0 <= m <= k < n &&
       ProjectAll(project, feed[m..n]) == Some(batches[i]) && Covered(project, feed, batches[..i], k))
  }

  ghost function Pos(s: State): nat {
    Position(s.feed, s.index.cursor)
  }

  ghost predicate Inv(project: Projector, s: State) {
    && FeedOk(s.feed)
    && CursorNames(s.feed, s.index.cursor, Pos(s))
    && Covered(project, s.feed, s.index.batches, Pos(s))
    && (s.phase.Fetched? || s.phase.Applied? ==> Serves(s.feed, s.index.cursor, s.phase.page))
    && (s.phase.Applied? ==>
          && s.index.batches != []
          && ProjectAll(project, s.phase.page.items) == Some(s.index.batches[|s.index.batches| - 1])
          && Covered(project, s.feed, s.index.batches[..|s.index.batches| - 1], Pos(s)))
  }

  /** More batches never uncover anything. */
  lemma CoveredByMore(project: Projector, feed: seq<EventItem>, batches: seq<seq<ProjectedEntry>>,
                      more: seq<seq<ProjectedEntry>>, n: nat)
    requires n <= |feed| && Covered(project, feed, batches, n)
    ensures Covered(project, feed, batches + more, n)
  {
    if n > 0 {
      var i, m, k :| 0 <= i < |batches| && 0 <= m <= k < n &&
        ProjectAll(project, feed[m..n]) == Some(batches[i]) && Covered(project, feed, batches[..i], k);
      assert (batches + more)[i] == batches[i] && (batches + more)[..i] == batches[..i];
    }
  }

  lemma {:induction false} CoveredByLongerFeed(project: Projector, feed: seq<EventItem>, items: seq<EventItem>,
                                               batches: seq<seq<ProjectedEntry>>, n: nat)
    requires n <= |feed| && Covered(project, feed, batches, n)
    ensures Covered(project, feed + items, batches, n)
    decreases |batches|
  {
    if n > 0 {
      var i, m, k :| 0 <= i < |batches| && 0 <= m <= k < n &&
        ProjectAll(project, feed[m..n]) == Some(batches[i]) && Covered(project, feed, batches[..i], k);
      CoveredByLongerFeed(project, feed, items, batches[..i], k);
      assert (feed + items)[m..n] == feed[m..n];
    }
  }

  /** The cursor a page leads to names where the page ends. */
  lemma NextNamesEnd(feed: seq<EventItem>, cursor: string, page: Page, m: nat, n: nat)
    requires FeedOk(feed) && CursorNames(feed, cursor, Position(feed, cursor))
    requires Delivers(feed, Position(feed, cursor), page, m, n)
    ensures CursorNames(feed, NextCursor(cursor, page), n) && Position(feed, NextCursor(cursor, page)) == n
  {
    if page.items != [] {
      assert page.items[|page.items| - 1] == feed[n - 1];
    }
    PositionIs(feed, NextCursor(cursor, page), n);
  }

  /** Saving after the batch of a page extends the cover to the page's end. */
  lemma SaveExtendsCover(project: Projector, s: State)
    requires Inv(project, s) && s.phase.Applied?
    ensures var pos := Position(s.feed, Saved(s).cursor);
            && Pos(s) <= pos && CursorNames(s.feed, Saved(s).cursor, pos)
            && Covered(project, s.feed, s.index.batches, pos)
  {
    hide Position, FeedOk, ProjectAll, NextCursor;
    var page, last := s.phase.page, |s.index.batches| - 1;
    var m: nat, n: nat :| Delivers(s.feed, Pos(s), page, m, n);
    NextNamesEnd(s.feed, s.index.cursor, page, m, n);
    if n > Pos(s) {
      assert ProjectAll(project, s.feed[m..n]) == Some(s.index.batches[last]);
    }
  }

  /** The progress guard fires exactly when a page claims more but ends where the
      cursor already is. */
  lemma StallsExactly(project: Projector, s: State, m: nat, n: nat)
    requires Inv(project, s) && (s.phase.Fetched? || s.phase.Applied?) && Delivers(s.feed, Pos(s), s.phase.page, m, n)
    ensures Stalls(s.index.cursor, s.phase.page) <==> s.phase.page.lastLogId != "" && n == Pos(s)
  {
    NextNamesEnd(s.feed, s.index.cursor, s.phase.page, m, n);
  }

  lemma InvStep(project: Projector, s: State, e: Event)
    requires Inv(project, s) && Enabled(project, s, e)
    ensures Inv(project, Step(project, s, e))
    ensures Pos(Step(project, s, e)) >= Pos(s)
    ensures s.index.batches <= Step(project, s, e).index.batches && s.feed <= Step(project, s, e).feed
  {
    hide Covered, Serves, Position, ProjectAll, FeedOk, CursorNames, NextCursor;
    match e
    case Publish(items) => InvPublish(project, s, items);
    case Apply => InvApply(project, s);
    case ApplyFails(_) => InvApply(project, s);
    case Save => SaveExtendsCover(project, s);
    case SaveFails(_) => SaveExtendsCover(project, s);
    case _ =>
  }

  lemma InvApply(project: Projector, s: State)
    requires Inv(project, s) && s.phase.Fetched? && ProjectAll(project, s.phase.page.items).Some?
    ensures s.index.batches <= WithBatch(project, s).batches
    ensures Inv(project, s.(index := WithBatch(project, s), phase := Applied(s.phase.page)))
    ensures Inv(project, Fail(s).(index := WithBatch(project, s)))
    ensures Inv(project, Fail(s))
  {
    hide Covered, Serves, Position, ProjectAll, FeedOk;
    var batches := WithBatch(project, s).batches;
    CoveredByMore(project, s.feed, s.index.batches, [ProjectAll(project, s.phase.page.items).value], Pos(s));
    assert batches[..|batches| - 1] == s.index.batches;
  }

  lemma ServesLongerFeed(feed: seq<EventItem>, items: seq<EventItem>, cursor: string, page: Page)
    requires Serves(feed, cursor, page) && Position(feed + items, cursor) == Position(feed, cursor)
    ensures Serves(feed + items, cursor, page)
  {
    hide Position;
    var m: nat, n: nat :| Delivers(feed, Position(feed, cursor), page, m, n);
    assert (feed + items)[m..n] == feed[m..n];
    assert Delivers(feed + items, Position(feed, cursor), page, m, n);
  }

  lemma InvPublish(project: Projector, s: State, items: seq<EventItem>)
    requires Inv(project, s) && FeedOk(s.feed + items)
    ensures Inv(project, s.(feed := s.feed + items)) && Pos(s.(feed := s.feed + items)) == Pos(s)
  {
    hide Covered, Position, ProjectAll, FeedOk;
    var feed := s.feed + items;
    PositionIs(feed, s.index.cursor, Pos(s));
    CoveredByLongerFeed(project, s.feed, items, s.index.batches, Pos(s));
    if s.phase.Fetched? || s.phase.Applied? {
      ServesLongerFeed(s.feed, items, s.index.cursor, s.phase.page);
    }
    hide Serves, CursorNames;
    if s.phase.Applied? {
      CoveredByLongerFeed(project, s.feed, items, s.index.batches[..|s.index.batches| - 1], Pos(s));
    }
  }

  lemma {:induction false} InvAfter(project: Projector, s: State, es: seq<Event>)
    requires Inv(project, s) && IsRun(project, s, es)
    ensures var e := After(project, s, es);
            Inv(project, e) && Pos(e) >= Pos(s) && s.index.batches <= e.index.batches && s.feed <= e.feed
    decreases |es|
  {
    hide Inv, Pos;
    if es != [] {
      InvStep(project, s, es[0]);
      InvAfter(project, Step(project, s, es[0]), es[1..]);
    }
  }

  lemma InvInitially(project: Projector, feed: seq<EventItem>)
    requires FeedOk(feed)
    ensures Inv(project, Initial(feed)) && Pos(Initial(feed)) == 0
  {
    PositionIs(feed, "", 0);
  }

  // ---- what a covered prefix means -----------------------------------------

  lemma {:induction false} ProjectAllMembers(project: Projector, items: seq<EventItem>, j: nat)
    requires ProjectAll(project, items).Some? && j < |items|
    ensures project(items[j]).Some?
    ensures forall x :: x in project(items[j]).value ==> x in ProjectAll(project, items).value
  {
    if j < |items| - 1 {
      ProjectAllMembers(project, items[..|items| - 1], j);
    }
  }

  /** Every covered event projected without error, and each of its entries is in
      a recorded batch. */
  lemma {:induction false} CoveredMeansApplied(project: Projector, feed: seq<EventItem>,
                                               batches: seq<seq<ProjectedEntry>>, n: nat, j: nat)
    requires j < n <= |feed| && Covered(project, feed, batches, n)
    ensures project(feed[j]).Some?
    ensures forall x :: x in project(feed[j]).value ==> exists i :: 0 <= i < |batches| && x in batches[i]
    decreases |batches|
  {
    var i, m, k :| 0 <= i < |batches| && 0 <= m <= k < n &&
      ProjectAll(project, feed[m..n]) == Some(batches[i]) && Covered(project, feed, batches[..i], k);
    if j < m {
      CoveredMeansApplied(project, feed, batches[..i], k, j);
      forall x | x in project(feed[j]).value ensures exists l :: 0 <= l < |batches| && x in batches[l] {
        var l :| 0 <= l < i && x in batches[..i][l];
        assert x in batches[l];
      }
    } else {
      ProjectAllMembers(project, feed[m..n], j - m);
      assert feed[m..n][j - m] == feed[j];
    }
  }

  /** Main result. In every run of rounds, failures and restarts: the saved cursor
      names the last of a prefix of the feed; that prefix was applied, page by page
      and in feed order, and every entry of every event in it at least once; the
      cursor never passes an event that fails to project, and no step of the run
      ever moved it back. */
  lemma CursorIsSafe(project: Projector, feed: seq<EventItem>, es: seq<Event>)
    requires FeedOk(feed) && IsRun(project, Initial(feed), es)
    ensures var s := After(project, Initial(feed), es);
            && feed <= s.feed && CursorNames(s.feed, s.index.cursor, Pos(s))
            && Covered(project, s.feed, s.index.batches, Pos(s))
            && forall j :: 0 <= j < Pos(s) ==>
                 && project(s.feed[j]).Some?
                 && forall x :: x in project(s.feed[j]).value ==>
                      exists i :: 0 <= i < |s.index.batches| && x in s.index.batches[i]
    ensures forall k :: 0 <= k <= |es| ==>
              && IsRun(project, Initial(feed), es[..k])
              && Pos(After(project, Initial(feed), es[..k])) <= Pos(After(project, Initial(feed), es))
  {
    hide Inv, Pos, Covered, IsRun, After;
    InvInitially(project, feed);
    InvAfter(project, Initial(feed), es);
    var s := After(project, Initial(feed), es);
    InvFacts(project, s);
    forall j | 0 <= j < Pos(s)
      ensures project(s.feed[j]).Some?
      ensures forall x :: x in project(s.feed[j]).value ==>
                exists i :: 0 <= i < |s.index.batches| && x in s.index.batches[i]
    {
      CoveredMeansApplied(project, s.feed, s.index.batches, Pos(s), j);
    }
    forall k | 0 <= k <= |es|
      ensures IsRun(project, Initial(feed), es[..k])
      ensures Pos(After(project, Initial(feed), es[..k])) <= Pos(s)
    {
      assert es == es[..k] + es[k..];
      RunPrefix(project, Initial(feed), es[..k], es[k..]);
      InvAfter(project, Initial(feed), es[..k]);
      InvAfter(project, After(project, Initial(feed), es[..k]), es[k..]);
    }
  }

  lemma InvFacts(project: Projector, s: State)
    requires Inv(project, s)
    ensures FeedOk(s.feed) && CursorNames(s.feed, s.index.cursor, Pos(s))
    ensures Covered(project, s.feed, s.index.batches, Pos(s))
  {
  }

  lemma {:induction false} RunPrefix(project: Projector, s: State, es: seq<Event>, more: seq<Event>)
    requires IsRun(project, s, es + more)
    ensures IsRun(project, s, es) && IsRun(project, After(project, s, es), more)
    ensures After(project, After(project, s, es), more) == After(project, s, es + more)
    decreases |es|
  {
    if es == [] {
      assert es + more == more;
    } else {
      assert (es + more)[0] == es[0] && (es + more)[1..] == es[1..] + more;
      RunPrefix(project, Step(project, s, es[0]), es[1..], more);
    }
  }

  // ---- a round ends --------------------------------------------------------

  /** Steps a round can still take on a feed that does not grow. */
  ghost function RoundLeft(s: State): nat
    requires Pos(s) <= |s.feed|
  {
    var left := |s.feed| - Pos(s);
    match s.phase
    case Idle => 0
    case Draining => 3 * left + 3
    case Fetched(_) => 3 * left + 2
    case Applied(_) => 3 * left + 1
  }

  ghost predicate InRound(e: Event) {
    !e.Publish? && !e.BeginRound? && !e.ReadFails?
  }

  lemma RoundStepDescends(project: Projector, s: State, e: Event)
    requires Inv(project, s) && Enabled(project, s, e) && InRound(e) && !s.phase.Idle?
    ensures Inv(project, Step(project, s, e))
    ensures Step(project, s, e).phase.Idle? || RoundLeft(Step(project, s, e)) < RoundLeft(s)
  {
    hide Covered, Position, ProjectAll;
    InvStep(project, s, e);
    if e.Save? {
      var m: nat, n: nat :| Delivers(s.feed, Pos(s), s.phase.page, m, n);
      StallsExactly(project, s, m, n);
      NextNamesEnd(s.feed, s.index.cursor, s.phase.page, m, n);
    }
  }

  /** A round over a feed that stands still is over after a bounded number of
      steps, whatever fails: after that many it is idle. */
  lemma {:induction false} RoundTerminates(project: Projector, s: State, es: seq<Event>)
    requires Inv(project, s) && IsRun(project, s, es)
    requires forall i :: 0 <= i < |es| ==> InRound(es[i])
    requires |es| >= RoundLeft(s)
    ensures exists k :: 0 <= k <= |es| && IsRun(project, s, es[..k]) && After(project, s, es[..k]).phase.Idle?
    decreases |es|
  {
    if s.phase.Idle? {
      assert IsRun(project, s, es[..0]) && After(project, s, es[..0]).phase.Idle?;
    } else {
      var s' := Step(project, s, es[0]);
      RoundStepDescends(project, s, es[0]);
      RoundTerminates(project, s', es[1..]);
      var k :| 0 <= k <= |es[1..]| && IsRun(project, s', es[1..][..k]) && After(project, s', es[1..][..k]).phase.Idle?;
      assert es[..k + 1][0] == es[0] && es[..k + 1][1..] == es[1..][..k];
    }
  }

  /** An empty page never moves the cursor, and a saved page never moves it back. */
  lemma NoRewind(project: Projector, s: State)
    requires Inv(project, s) && s.phase.Applied?
    ensures s.phase.page.items == [] ==> Saved(s) == s.index
    ensures Position(s.feed, Saved(s).cursor) >= Pos(s)
    ensures s.index.cursor != "" ==> Saved(s).cursor != ""
  {
    hide Covered, Position;
    SaveExtendsCover(project, s);
    if s.phase.page.items == [] {
      var m: nat, n: nat :| Delivers(s.feed, Pos(s), s.phase.page, m, n);
      assert m == n == Pos(s);
    }
  }

  // ---- the process ---------------------------------------------------------

  datatype Write = Written | Lost | WrittenButFailed

  /** What happens around one page; a write may fail before or after taking effect. */
  datatype Fate = Fate(cancelled: bool, apply: Write, save: Write)

  /** The feed client: the answer to the k-th request of a round, or an error. */
  type Client = (string, nat) -> Option<Page>

  ghost predicate Answers(feed: seq<EventItem>, client: Client) {
    forall cursor, k :: client(cursor, k).Some? && CursorNames(feed, cursor, Position(feed, cursor)) ==>
      Serves(feed, cursor, client(cursor, k).value)
  }

  ghost predicate Extends(project: Projector, s: State, es: seq<Event>, t: State) {
    IsRun(project, s, es) && After(project, s, es) == t
  }

  lemma {:induction false} Extend(project: Projector, s: State, es: seq<Event>, e: Event)
    requires IsRun(project, s, es) && Enabled(project, After(project, s, es), e)
    ensures Extends(project, s, es + [e], Step(project, After(project, s, es), e))
    decreases |es|
  {
    if es == [] {
      var s' := Step(project, s, e);
      assert IsRun(project, s', []) && After(project, s', []) == s';
      assert ([] + [e])[1..] == [];
    } else {
      Extend(project, Step(project, s, es[0]), es[1..], e);
      assert (es + [e])[0] == es[0] && (es + [e])[1..] == es[1..] + [e];
    }
  }

  lemma {:induction false} ExtendMany(project: Projector, s: State, es: seq<Event>, t: State,
                                      more: seq<Event>, u: State)
    requires Extends(project, s, es, t) && Extends(project, t, more, u)
    ensures Extends(project, s, es + more, u)
    decreases |es|
  {
    if es == [] {
      assert es + more == more;
    } else {
      ExtendMany(project, Step(project, s, es[0]), es[1..], t, more, u);
      assert (es + more)[0] == es[0] && (es + more)[1..] == es[1..] + more;
    }
  }

  /** A page that brings news, or ends the feed: lastLogId is left out at the tail
      only. */
  ghost predicate Progresses(feed: seq<EventItem>, cursor: string, page: Page) {
    if page.lastLogId == "" then exists m: nat :: Delivers(feed, Position(feed, cursor), page, m, |feed|)
    else Position(feed, NextCursor(cursor, page)) > Position(feed, cursor)
  }

  /** Nothing goes wrong: every event projects, every request is answered with
      progress, every write succeeds and nobody cancels. */
  ghost predicate Healthy(project: Projector, feed: seq<EventItem>, client: Client, fates: nat -> Fate) {
    && (forall j :: 0 <= j < |feed| ==> project(feed[j]).Some?)
    && (forall k :: fates(k) == Fate(false, Written, Written))
    && (forall cursor, k :: CursorNames(feed, cursor, Position(feed, cursor)) ==>
          client(cursor, k).Some? && Progresses(feed, cursor, client(cursor, k).value))
  }

  lemma {:induction false} HealthyProjects(project: Projector, items: seq<EventItem>)
    requires forall j :: 0 <= j < |items| ==> project(items[j]).Some?
    ensures ProjectAll(project, items).Some?
  {
    if items != [] { HealthyProjects(project, items[..|items| - 1]); }
  }

  /** What a healthy round can rely on at one page. */
  lemma HealthyPage(project: Projector, feed: seq<EventItem>, client: Client, fates: nat -> Fate,
                    cursor: string, k: nat)
    requires Healthy(project, feed, client, fates) && Answers(feed, client) && FeedOk(feed)
    requires CursorNames(feed, cursor, Position(feed, cursor))
    ensures client(cursor, k).Some? && fates(k) == Fate(false, Written, Written)
    ensures var page := client(cursor, k).value;
            && ProjectAll(project, page.items).Some? && !Stalls(cursor, page)
            && (page.lastLogId == "" ==> Position(feed, NextCursor(cursor, page)) == |feed|)
  {
    hide Position, FeedOk;
    var page := client(cursor, k).value;
    var m: nat, n: nat :| Delivers(feed, Position(feed, cursor), page, m, n);
    forall j | 0 <= j < |page.items| ensures project(page.items[j]).Some? {
      assert page.items[j] == feed[m + j];
    }
    HealthyProjects(project, page.items);
    if page.lastLogId == "" {
      var l: nat :| Delivers(feed, Position(feed, cursor), page, l, |feed|);
      NextNamesEnd(feed, cursor, page, l, |feed|);
    }
  }

  class Process {
    var index: Index
    var wedge: Wedge

    ghost function Snapshot(feed: seq<EventItem>, phase: Phase): State
      reads this
    {
      State(feed, index, phase, wedge)
    }

    constructor ()
      ensures index == Index("", []) && wedge == NO_FAILURE
    {
      index, wedge := Index("", []), NO_FAILURE;
    }

    /** Reports whether this failure is the one that raises the escalation line. */
    method RecordFailureAt(cursor: string) returns (escalate: bool)
      modifies this`wedge
      ensures wedge == RecordFailure(old(wedge), cursor)
      ensures escalate <==> wedge.streak == WEDGE_THRESHOLD
    {
      if cursor == wedge.cursor {
        wedge := Wedge(cursor, wedge.streak + 1);
      } else {
        wedge := Wedge(cursor, 1);
      }
      escalate := wedge.streak == WEDGE_THRESHOLD;
    }

    /** The projection loop of applyPage: the first malformed event aborts. */
    method ProjectPage(project: Projector, items: seq<EventItem>) returns (r: Option<seq<ProjectedEntry>>)
      ensures r == ProjectAll(project, items)
    {
      var entries: seq<ProjectedEntry> := [];
      for i := 0 to |items|
        invariant ProjectAll(project, items[..i]) == Some(entries)
      {
        assert items[..i + 1][..i] == items[..i];
        var p := project(items[i]);
        if p.None? {
          MalformedStaysMalformed(project, items, i + 1);
          return None;
        }
        entries := entries + p.value;
      }
      assert items[..|items|] == items;
      return Some(entries);
    }

    /** The body of RunOnce's loop from the fetched page on. */
    method TakePage(project: Projector, page: Page, fate: Fate, ghost feed: seq<EventItem>)
      returns (more: bool, ghost es: seq<Event>)
      requires Inv(project, Snapshot(feed, Fetched(page)))
      modifies this
      ensures Extends(project, old(Snapshot(feed, Fetched(page))), es, Snapshot(feed, if more then Draining else Idle))
      ensures Inv(project, Snapshot(feed, if more then Draining else Idle))
      ensures Position(feed, index.cursor) >= old(Position(feed, index.cursor))
      ensures more ==> Position(feed, index.cursor) > old(Position(feed, index.cursor))
      ensures ProjectAll(project, page.items).Some? && fate.apply.Written? && fate.save.Written?
              && !Stalls(old(index.cursor), page) ==>
                && index.cursor == NextCursor(old(index.cursor), page) && more == (page.lastLogId != "")
                && (!more ==> wedge == NO_FAILURE)
    {
      hide Inv, ProjectAll, IsRun, After, Extends, Serves, FeedOk, Position;
      ghost var s0 := Snapshot(feed, Fetched(page));
      NoSteps(project, s0);
      var cursor := index.cursor;
      more := false;
      es := [];
      var entries := ProjectPage(project, page.items);
      if entries.None? {
        es := OneStep(project, s0, s0, es, ProjectFails);
        var _ := RecordFailureAt(cursor);
        return;
      }
      if fate.apply != Written {
        es := OneStep(project, s0, s0, es, ApplyFails(fate.apply.WrittenButFailed?));
        if fate.apply.WrittenButFailed? {
          index := index.(batches := index.batches + [entries.value]);
        }
        var _ := RecordFailureAt(cursor);
        return;
      }
      es := OneStep(project, s0, s0, es, Apply);
      index := index.(batches := index.batches + [entries.value]);
      ghost var s1 := Snapshot(feed, Applied(page));
      var next := NextCursor(cursor, page);
      if page.lastLogId != "" && next == cursor {
        es := OneStep(project, s0, s1, es, Stall);
        var _ := RecordFailureAt(cursor);
        return;
      }
      if fate.save != Written {
        es := OneStep(project, s0, s1, es, SaveFails(fate.save.WrittenButFailed?));
        if fate.save.WrittenButFailed? {
          index := index.(cursor := next);
        }
        var _ := RecordFailureAt(cursor);
        return;
      }
      SaveMovesOn(project, s1);
      es := OneStep(project, s0, s1, es, Save);
      index := index.(cursor := next);
      more := page.lastLogId != "";
      if !more {
        wedge := NO_FAILURE;
      }
    }

    /** One poll round against a feed that holds still: whatever the client answers
        and whatever fails, its effect is a run of the step system that ends idle,
        and it terminates. When nothing goes wrong the round drains the feed: the
        cursor ends behind its last event and the wedge counter is clear. */
    method RunOnce(project: Projector, client: Client, ghost feed: seq<EventItem>, readFails: bool, fates: nat -> Fate)
      returns (ghost es: seq<Event>)
      requires Inv(project, Snapshot(feed, Idle)) && Answers(feed, client)
      modifies this
      ensures Extends(project, old(Snapshot(feed, Idle)), es, Snapshot(feed, Idle))
      ensures Inv(project, Snapshot(feed, Idle))
      ensures Position(feed, index.cursor) >= old(Position(feed, index.cursor))
      ensures Healthy(project, feed, client, fates) && !readFails ==>
                Position(feed, index.cursor) == |feed| && wedge == NO_FAILURE
    {
      hide Inv, ProjectAll, IsRun, After, Extends, Serves, Position, Healthy, Progresses;
      ghost var s0 := Snapshot(feed, Idle);
      NoSteps(project, s0);
      es := [];
      if readFails {
        es := OneStep(project, s0, s0, es, ReadFails);
        var _ := RecordFailureAt("");
        return;
      }
      es := OneStep(project, s0, s0, es, BeginRound);
      var k := 0;
      while true
        invariant Inv(project, Snapshot(feed, Draining))
        invariant Position(feed, index.cursor) >= old(Position(feed, index.cursor))
        invariant Extends(project, s0, es, Snapshot(feed, Draining))
        decreases |feed| - Position(feed, index.cursor)
      {
        var fate := fates(k);
        ghost var s := Snapshot(feed, Draining);
        InvFacts(project, s);
        if Healthy(project, feed, client, fates) {
          HealthyPage(project, feed, client, fates, index.cursor, k);
        }
        if fate.cancelled {
          es := OneStep(project, s0, s, es, Cancel);
          return;
        }
        var page := client(index.cursor, k);
        if page.None? {
          es := OneStep(project, s0, s, es, FetchFails);
          var _ := RecordFailureAt(index.cursor);
          return;
        }
        es := OneStep(project, s0, s, es, Fetch(page.value));
        ghost var t := Snapshot(feed, Fetched(page.value));
        var more, tail := TakePage(project, page.value, fate, feed);
        ExtendMany(project, s0, es, t, tail, Snapshot(feed, if more then Draining else Idle));
        es := es + tail;
        InvBounds(project, Snapshot(feed, if more then Draining else Idle));
        if !more {
          return;
        }
        k := k + 1;
      }
    }
  }

  lemma InvBounds(project: Projector, s: State)
    requires Inv(project, s)
    ensures Position(s.feed, s.index.cursor) <= |s.feed|
  {
  }

  lemma SaveMovesOn(project: Projector, s: State)
    requires Inv(project, s) && s.phase.Applied? && !Stalls(s.index.cursor, s.phase.page)
    ensures Position(s.feed, Saved(s).cursor) >= Pos(s)
    ensures s.phase.page.lastLogId != "" ==> Position(s.feed, Saved(s).cursor) > Pos(s)
  {
    hide Covered, Position;
    var m: nat, n: nat :| Delivers(s.feed, Pos(s), s.phase.page, m, n);
    StallsExactly(project, s, m, n);
    NextNamesEnd(s.feed, s.index.cursor, s.phase.page, m, n);
  }

  lemma NoSteps(project: Projector, s: State)
    ensures Extends(project, s, [], s)
  {
  }

  lemma OneStep(project: Projector, s0: State, s: State, es: seq<Event>, e: Event) returns (es': seq<Event>)
    requires Extends(project, s0, es, s) && Inv(project, s) && Enabled(project, s, e)
    ensures es' == es + [e] && Extends(project, s0, es', Step(project, s, e)) && Inv(project, Step(project, s, e))
    ensures Pos(Step(project, s, e)) >= Pos(s)
  {
    Extend(project, s0, es, e);
    InvStep(project, s, e);
    es' := es + [e];
  }

  /** What counts as a failure and what clears the count: a failed read, fetch,
      projection, write or a stall adds one at its cursor and starts afresh at another;
      a drained feed and a restart clear; nothing else, a cancellation least of all,
      touches it. */
  lemma WedgeStep(project: Projector, s: State, e: Event)
    requires Enabled(project, s, e)
    ensures var w, cursor := Step(project, s, e).wedge, if e.ReadFails? then "" else s.index.cursor;
            if e.ReadFails? || e.FetchFails? || e.ProjectFails? || e.ApplyFails? || e.Stall? || e.SaveFails? then
              w.cursor == cursor && w.streak == (if s.wedge.cursor == cursor then s.wedge.streak + 1 else 1)
            else if e.Restart? || (e.Save? && s.phase.page.lastLogId == "") then w.streak == 0
            else w == s.wedge
  {
    hide ProjectAll;
  }

  // ---- wedging -------------------------------------------------------------

  /** One round that fetches a page holding a malformed event. */
  function WedgedRound(page: Page): seq<Event> {
    [BeginRound, Fetch(page), ProjectFails]
  }

  function Repeat(es: seq<Event>, n: nat): seq<Event> {
    if n == 0 then [] else es + Repeat(es, n - 1)
  }

  lemma RepeatStep(es: seq<Event>, n: nat)
    requires n > 0
    ensures Repeat(es, n) == if n == 1 then es else es + Repeat(es, n - 1)
  {
    assert es + [] == es;
  }

  lemma WedgeKeepsInv(project: Projector, s: State, wedge: Wedge)
    requires Inv(project, s)
    ensures Inv(project, s.(wedge := wedge))
  {
    hide Covered, Serves, FeedOk, ProjectAll;
  }

  lemma WedgedOnce(project: Projector, s: State, page: Page)
    requires Inv(project, s) && s.phase.Idle? && Serves(s.feed, s.index.cursor, page)
    requires ProjectAll(project, page.items).None?
    ensures Extends(project, s, WedgedRound(page), s.(wedge := RecordFailure(s.wedge, s.index.cursor)))
  {
    var a := Step(project, s, BeginRound);
    var b := Step(project, a, Fetch(page));
    var c := Step(project, b, ProjectFails);
    NoSteps(project, c);
    assert Extends(project, b, [ProjectFails], c) by { assert [ProjectFails][1..] == []; }
    assert Extends(project, a, [Fetch(page), ProjectFails], c) by {
      assert [Fetch(page), ProjectFails][1..] == [ProjectFails];
    }
    assert WedgedRound(page)[1..] == [Fetch(page), ProjectFails];
  }

  /** A malformed event stops ingestion where it is and is counted: n rounds stuck
      on it leave the index untouched and raise the streak by n. */
  lemma {:induction false} WedgeIsCounted(project: Projector, s: State, page: Page, n: nat)
    requires Inv(project, s) && s.phase.Idle? && Serves(s.feed, s.index.cursor, page)
    requires ProjectAll(project, page.items).None?
    requires s.wedge.streak == 0 || s.wedge.cursor == s.index.cursor
    requires n > 0
    ensures Extends(project, s, Repeat(WedgedRound(page), n), s.(wedge := Wedge(s.index.cursor, s.wedge.streak + n)))
    decreases n
  {
    var s' := s.(wedge := RecordFailure(s.wedge, s.index.cursor));
    WedgedOnce(project, s, page);
    assert s'.wedge == Wedge(s.index.cursor, s.wedge.streak + 1);
    WedgeKeepsInv(project, s, s'.wedge);
    RepeatStep(WedgedRound(page), n);
    hide Inv, Serves, ProjectAll, IsRun, After, Extends, WedgedRound, Repeat;
    if n > 1 {
      WedgeIsCounted(project, s', page, n - 1);
      ExtendMany(project, s, WedgedRound(page), s', Repeat(WedgedRound(page), n - 1),
                 s.(wedge := Wedge(s.index.cursor, s.wedge.streak + n)));
    }
  }

  // ---- with the Finder's own projection ------------------------------------

  function FinderProjector(c: Config): Projector {
    item => match FromEvent(c, item) case Err(_) => None case Ok(p) => Some(p.entries)
  }

  /** t is in a recorded batch. */
  ghost predicate Recorded(s: State, t: ProjectedEntry) {
    exists i :: 0 <= i < |s.index.batches| && t in s.index.batches[i]
  }

  /** No revocation is lost on the way to the index: once the cursor has passed a
      REVOKED or DEPRECATED event, its tombstone is in a recorded batch. */
  lemma RetirementsReachTheIndex(c: Config, feed: seq<EventItem>, es: seq<Event>, j: nat)
    requires FeedOk(feed) && IsRun(FinderProjector(c), Initial(feed), es)
    requires var s := After(FinderProjector(c), Initial(feed), es);
             j < Pos(s) && j < |s.feed| && IsRetirement(s.feed[j])
    ensures var s := After(FinderProjector(c), Initial(feed), es);
            exists t :: Recorded(s, t) && IsTombstoneFor(c, t, s.feed[j])
  {
    hide FromEvent, IsTombstoneFor;
    var project := FinderProjector(c);
    CursorIsSafe(project, feed, es);
    var s := After(project, Initial(feed), es);
    RetirementAlwaysTombstones(c, s.feed[j]);
    var t := project(s.feed[j]).value[0];
    assert t in project(s.feed[j]).value && Recorded(s, t);
  }

  /** No published endpoint is lost either: once the cursor has passed an active event
      whose label mints, each of its publishable endpoints has its entry in a
      recorded batch. */
  lemma ActiveEntriesReachTheIndex(c: Config, feed: seq<EventItem>, es: seq<Event>, j: nat, ep: Endpoint)
    requires FeedOk(feed) && IsRun(FinderProjector(c), Initial(feed), es)
    requires var s := After(FinderProjector(c), Initial(feed), es);
             && j < Pos(s) && j < |s.feed| && IsActive(s.feed[j]) && UrnOf(c, s.feed[j]).Some?
             && ep in s.feed[j].endpoints && Publishable(c, s.feed[j], ep)
    ensures var s := After(FinderProjector(c), Initial(feed), es);
            exists t :: Recorded(s, t) && EntryFor(c, s.feed[j], UrnOf(c, s.feed[j]).value, ep, t)
  {
    var project := FinderProjector(c);
    CursorIsSafe(project, feed, es);
    var s := After(project, Initial(feed), es);
    var item := s.feed[j];
    ActiveIsValid(c, item);
    hide EntryFor, Publishable, UrnOf, FullyValid, IsActive, FromEvent, IsRun, After, Pos;
    var from, _ := ActivePartitionsEndpoints(c, item);
    var i :| 0 <= i < |item.endpoints| && item.endpoints[i] == ep;
    var k :| 0 <= k < |from| && from[k] == i;
    var t := FromEvent(c, item).value.entries[k];
    assert t in project(item).value && Recorded(s, t);
  }

  lemma ActiveIsValid(c: Config, item: EventItem)
    requires FromEvent(c, item).Ok? && IsActive(item)
    ensures FullyValid(c, item)
  {
    hide ProjectActive, FullyValid, IdentityKeysValid;
  }

  /** t is what the event stands for: its tombstone, or the entry of one of its
      publishable endpoints. */
  ghost predicate StandsFor(c: Config, item: EventItem, t: ProjectedEntry) {
    IdentityKeysValid(c, item) &&
    if IsRetirement(item) then IsTombstoneFor(c, t, item)
    else
      && IsActive(item) && UrnOf(c, item).Some?
      && exists ep :: ep in item.endpoints && EntryFor(c, item, UrnOf(c, item).value, ep, t)
  }

  lemma EntriesStandForEvent(c: Config, item: EventItem, t: ProjectedEntry)
    requires FromEvent(c, item).Ok? && t in FromEvent(c, item).value.entries
    ensures StandsFor(c, item, t)
  {
    hide IdentityKeysValid, IsTombstoneFor, EntryFor, UrnOf, FromEvent;
    EventErrorsExactly(c, item);
    if IsRetirement(item) {
      RetirementAlwaysTombstones(c, item);
    } else {
      LabelledActive(c, item);
      EntriesStandForEndpoints(c, item, t);
    }
  }

  lemma LabelledActive(c: Config, item: EventItem)
    requires FromEvent(c, item).Ok? && FromEvent(c, item).value.entries != [] && !IsRetirement(item)
    ensures IsActive(item) && UrnOf(c, item).Some? && FullyValid(c, item)
  {
    hide IdentityKeysValid, FullyValid, UrnOf;
  }

  lemma EntriesStandForEndpoints(c: Config, item: EventItem, t: ProjectedEntry)
    requires IsActive(item) && FullyValid(c, item) && UrnOf(c, item).Some?
    requires FromEvent(c, item).Ok? && t in FromEvent(c, item).value.entries
    ensures exists ep :: ep in item.endpoints && EntryFor(c, item, UrnOf(c, item).value, ep, t)
  {
    hide EntryFor, UrnOf, FromEvent, FullyValid, Publishable, InOrder, Discoverable;
    var p := FromEvent(c, item).value;
    var from, _ := ActivePartitionsEndpoints(c, item);
    var k :| 0 <= k < |p.entries| && p.entries[k] == t;
    assert item.endpoints[from[k]] in item.endpoints;
  }

  // ---- nothing is invented -------------------------------------------------

  /** Every batch holds the entries of a stretch of the feed. */
  ghost predicate Sourced(project: Projector, feed: seq<EventItem>, batches: seq<seq<ProjectedEntry>>) {
    forall i :: 0 <= i < |batches| ==> FromStretch(project, feed, batches[i])
  }

  ghost predicate FromStretch(project: Projector, feed: seq<EventItem>, batch: seq<ProjectedEntry>) {
    exists m: nat, n: nat :: m <= n <= |feed| && ProjectAll(project, feed[m..n]) == Some(batch)
  }

  lemma SourcedByLongerFeed(project: Projector, feed: seq<EventItem>, items: seq<EventItem>,
                            batches: seq<seq<ProjectedEntry>>)
    requires Sourced(project, feed, batches)
    ensures Sourced(project, feed + items, batches)
  {
    hide ProjectAll;
    forall i | 0 <= i < |batches| ensures FromStretch(project, feed + items, batches[i]) {
      var m: nat, n: nat :| m <= n <= |feed| && ProjectAll(project, feed[m..n]) == Some(batches[i]);
      assert (feed + items)[m..n] == feed[m..n];
    }
  }

  lemma SourcedApply(project: Projector, s: State)
    requires Inv(project, s) && s.phase.Fetched? && ProjectAll(project, s.phase.page.items).Some?
    requires Sourced(project, s.feed, s.index.batches)
    ensures Sourced(project, s.feed, WithBatch(project, s).batches)
  {
    hide ProjectAll, Covered, FeedOk, Position;
    var m: nat, n: nat :| Delivers(s.feed, Pos(s), s.phase.page, m, n);
    assert FromStretch(project, s.feed, ProjectAll(project, s.feed[m..n]).value);
  }

  lemma SourcedStep(project: Projector, s: State, e: Event)
    requires Inv(project, s) && Enabled(project, s, e) && Sourced(project, s.feed, s.index.batches)
    ensures Sourced(project, Step(project, s, e).feed, Step(project, s, e).index.batches)
  {
    hide Inv, Sourced, ProjectAll;
    match e
    case Publish(items) => SourcedByLongerFeed(project, s.feed, items, s.index.batches);
    case Apply => SourcedApply(project, s);
    case ApplyFails(_) => SourcedApply(project, s);
    case _ =>
  }

  lemma {:induction false} SourcedAfter(project: Projector, s: State, es: seq<Event>)
    requires Inv(project, s) && IsRun(project, s, es) && Sourced(project, s.feed, s.index.batches)
    ensures Sourced(project, After(project, s, es).feed, After(project, s, es).index.batches)
    decreases |es|
  {
    if es != [] {
      hide Inv, Sourced;
      InvStep(project, s, es[0]);
      SourcedStep(project, s, es[0]);
      SourcedAfter(project, Step(project, s, es[0]), es[1..]);
    }
  }

  lemma {:induction false} ProjectAllSources(project: Projector, items: seq<EventItem>, t: ProjectedEntry)
    requires ProjectAll(project, items).Some? && t in ProjectAll(project, items).value
    ensures exists j :: 0 <= j < |items| && project(items[j]).Some? && t in project(items[j]).value
  {
    var n := |items| - 1;
    if t !in project(items[n]).value {
      ProjectAllSources(project, items[..n], t);
      var j :| 0 <= j < n && project(items[..n][j]).Some? && t in project(items[..n][j]).value;
      assert items[..n][j] == items[j];
    }
  }

  /** Whatever is recorded, in any run, stands for an event of the feed. */
  lemma RecordedStandsForEvent(c: Config, feed: seq<EventItem>, es: seq<Event>, t: ProjectedEntry)
    requires FeedOk(feed) && IsRun(FinderProjector(c), Initial(feed), es)
    requires Recorded(After(FinderProjector(c), Initial(feed), es), t)
    ensures var s := After(FinderProjector(c), Initial(feed), es);
            exists j :: 0 <= j < |s.feed| && StandsFor(c, s.feed[j], t)
  {
    hide IsRun, After, Inv, StandsFor, FromEvent, ProjectAll;
    var project := FinderProjector(c);
    var s := After(project, Initial(feed), es);
    InvInitially(project, feed);
    SourcedAfter(project, Initial(feed), es);
    var i :| 0 <= i < |s.index.batches| && t in s.index.batches[i];
    assert FromStretch(project, s.feed, s.index.batches[i]);
    var m: nat, n: nat :| m <= n <= |s.feed| && ProjectAll(project, s.feed[m..n]) == Some(s.index.batches[i]);
    ProjectAllSources(project, s.feed[m..n], t);
    var j :| 0 <= j < |s.feed[m..n]| && project(s.feed[m..n][j]).Some? && t in project(s.feed[m..n][j]).value;
    assert s.feed[m..n][j] == s.feed[m + j];
    EntriesStandForEvent(c, s.feed[m + j], t);
  }

  lemma {:induction false} MalformedStaysMalformed(project: Projector, items: seq<EventItem>, k: nat)
    requires k <= |items| && ProjectAll(project, items[..k]).None?
    ensures ProjectAll(project, items).None?
    decreases |items|
  {
    if k < |items| {
      assert items[..|items| - 1][..k] == items[..k];
      MalformedStaysMalformed(project, items[..|items| - 1], k);
    } else {
      assert items[..k] == items;
    }
  }
}
