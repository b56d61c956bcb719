/** reduceToLive: collapsing a match list into the agents that are live now. */
module LiveReduction {
  import opened Leaves
  import opened Sorting

  predicate Terminal(m: AgentMatch) {
    m.identity.eventType == "AGENT_REVOKED" || m.identity.eventType == "AGENT_DEPRECATED"
  }

  function Name(m: AgentMatch): string {
    m.identity.ansName
  }

  predicate IndexLe(a: AgentMatch, b: AgentMatch) {
    a.leafIndex <= b.leafIndex
  }

  ghost predicate DistinctIndices(ms: seq<AgentMatch>) {
    forall i, j :: 0 <= i < j < |ms| ==> ms[i].leafIndex != ms[j].leafIndex
  }

  ghost predicate Increasing(ms: seq<AgentMatch>) {
    forall i, j :: 0 <= i < j < |ms| ==> ms[i].leafIndex < ms[j].leafIndex
  }

  // ---- the reference: replaying the log ------------------------------------

  function Without(live: seq<AgentMatch>, name: string): seq<AgentMatch> {
    if live == [] then [] else
      var n := |live| - 1;
      Without(live[..n], name) + (if Name(live[n]) == name then [] else [live[n]])
  }

  /** One leaf: a later leaf replaces its name, a terminal one removes it, an
      unnamed one stays. */
  function ReplayLeaf(live: seq<AgentMatch>, m: AgentMatch): seq<AgentMatch> {
    if Name(m) == "" then live + [m]
    else if Terminal(m) then Without(live, Name(m))
    else Without(live, Name(m)) + [m]
  }

  /** The live agents after the leaves of ms, taken in the order given. */
  function Replay(ms: seq<AgentMatch>): seq<AgentMatch> {
    if ms == [] then [] else ReplayLeaf(Replay(ms[..|ms| - 1]), ms[|ms| - 1])
  }

  /** m is in ms and no other leaf of its name is later. */
  ghost predicate Latest(ms: seq<AgentMatch>, m: AgentMatch) {
    m in ms && forall x :: x in ms && Name(x) == Name(m) ==> x.leafIndex <= m.leafIndex
  }

  ghost predicate Live(ms: seq<AgentMatch>, m: AgentMatch) {
    m in ms &&
    (Name(m) == "" || (Latest(ms, m) && m.identity.eventType !in {"AGENT_REVOKED", "AGENT_DEPRECATED"}))
  }

  lemma IncreasingSnoc(s: seq<AgentMatch>, m: AgentMatch)
    requires Increasing(s) && forall x :: x in s ==> x.leafIndex < m.leafIndex
    ensures Increasing(s + [m])
  {
    var t := s + [m];
    forall i, j | 0 <= i < j < |t| ensures t[i].leafIndex < t[j].leafIndex {
      assert t[i] in s;
    }
  }

  lemma {:induction false} WithoutMembers(live: seq<AgentMatch>, name: string)
    requires Increasing(live)
    ensures forall x :: x in Without(live, name) <==> x in live && Name(x) != name
    ensures Increasing(Without(live, name))
  {
    if live != [] {
      var front, last := live[..|live| - 1], live[|live| - 1];
      WithoutMembers(front, name);
      assert live == front + [last];
      if Name(last) != name {
        IncreasingSnoc(Without(front, name), last);
      }
    }
  }

  /** How one later leaf changes which leaves are live. */
  lemma LiveStep(front: seq<AgentMatch>, last: AgentMatch, m: AgentMatch)
    requires forall x :: x in front ==> x.leafIndex < last.leafIndex
    ensures Live(front + [last], m) <==>
              || (m in front && Live(front, m) && (Name(m) == "" || Name(m) != Name(last)))
              || (m == last && (Name(m) == "" || !Terminal(m)))
  {
    var ms := front + [last];
    assert forall x :: x in ms <==> x in front || x == last;
    if m in front && Live(front, m) && Name(m) != "" && Name(m) != Name(last) {
      assert Latest(ms, m);
    }
  }

  lemma ReplayLeafMembers(live: seq<AgentMatch>, last: AgentMatch)
    requires Increasing(live) && forall x :: x in live ==> x.leafIndex < last.leafIndex
    ensures Increasing(ReplayLeaf(live, last))
    ensures forall m :: m in ReplayLeaf(live, last) <==>
              || (m in live && (Name(m) == "" || Name(m) != Name(last)))
              || (m == last && (Name(m) == "" || !Terminal(m)))
  {
    WithoutMembers(live, Name(last));
    IncreasingSnoc(live, last);
    IncreasingSnoc(Without(live, Name(last)), last);
  }

  /** Replaying leaves in log order leaves exactly the live ones, in log order. */
  lemma {:induction false} ReplayMembers(ms: seq<AgentMatch>)
    requires Increasing(ms)
    ensures forall m :: m in Replay(ms) <==> Live(ms, m)
    ensures Increasing(Replay(ms))
  {
    hide Name, Terminal, ReplayLeaf;
    if ms != [] {
      var front, last := ms[..|ms| - 1], ms[|ms| - 1];
      ReplayMembers(front);
      assert ms == front + [last];
      assert forall x :: x in front ==> x.leafIndex < last.leafIndex;
      ReplayLeafMembers(Replay(front), last);
      forall m ensures m in Replay(ms) <==> Live(ms, m) {
        LiveStep(front, last, m);
      }
    }
  }

  lemma IndicesIdentify(ms: seq<AgentMatch>)
    requires DistinctIndices(ms)
    ensures TieFree(ms, IndexLe) && NoDuplicates(ms)
  {
  }

  /** Sorting by index puts the leaves in log order. */
  lemma SortedIsLogOrder(ms: seq<AgentMatch>)
    requires DistinctIndices(ms)
    ensures TotalPreorder(IndexLe)
    ensures Increasing(Sort(ms, IndexLe))
    ensures forall m :: m in Sort(ms, IndexLe) <==> m in ms
  {
    SortSorts(ms, IndexLe);
    var sorted := Sort(ms, IndexLe);
    IndicesIdentify(ms);
    SameMembers(sorted, ms);
    RearrangedNoDuplicates(ms, sorted);
    hide Sort, DistinctIndices;
    forall i, j | 0 <= i < j < |sorted| ensures sorted[i].leafIndex < sorted[j].leafIndex {
      assert IndexLe(sorted[i], sorted[j]) && sorted[i] in ms && sorted[j] in ms;
    }
  }

  /** The replay does not depend on the order the matches arrive in. */
  lemma ReplayForgetsOrder(ms: seq<AgentMatch>, ms': seq<AgentMatch>)
    requires DistinctIndices(ms) && multiset(ms) == multiset(ms')
    ensures Replay(Sort(ms, IndexLe)) == Replay(Sort(ms', IndexLe))
  {
    IndicesIdentify(ms);
    SortForgetsOrder(ms, ms', IndexLe);
  }

  // ---- the source's two loops ----------------------------------------------

  /** m stands in ms before every other leaf of its name and index: among equals the
      first is kept. */
  ghost predicate FirstLatest(ms: seq<AgentMatch>, m: AgentMatch) {
    exists i :: 0 <= i < |ms| && ms[i] == m && BelowBefore(ms, i)
  }

  ghost predicate BelowBefore(ms: seq<AgentMatch>, i: nat)
    requires i < |ms|
  {
    forall j :: 0 <= j < i && Name(ms[j]) == Name(ms[i]) ==> ms[j].leafIndex < ms[i].leafIndex
  }

  lemma FirstLatestStays(ms: seq<AgentMatch>, x: AgentMatch, m: AgentMatch)
    requires FirstLatest(ms, x)
    ensures FirstLatest(ms + [m], x)
  {
    var i :| 0 <= i < |ms| && ms[i] == x && BelowBefore(ms, i);
    assert (ms + [m])[i] == x && BelowBefore(ms + [m], i);
  }

  lemma NewFirstLatest(ms: seq<AgentMatch>, m: AgentMatch)
    requires forall x :: x in ms && Name(x) == Name(m) ==> x.leafIndex < m.leafIndex
    ensures FirstLatest(ms + [m], m)
  {
    var t := ms + [m];
    forall j | 0 <= j < |ms| && Name(t[j]) == Name(m) ensures t[j].leafIndex < m.leafIndex {
      assert t[j] in ms;
    }
    assert t[|ms|] == m && BelowBefore(t, |ms|);
  }

  ghost predicate Tracks(ms: seq<AgentMatch>, latest: map<string, AgentMatch>) {
    && (forall k :: k in latest ==> k != "" && Name(latest[k]) == k && Latest(ms, latest[k]))
    && (forall k :: k in latest ==> FirstLatest(ms, latest[k]))
    && (forall m :: m in ms && Name(m) != "" ==> Name(m) in latest)
  }

  lemma TracksKept(ms: seq<AgentMatch>, latest: map<string, AgentMatch>, m: AgentMatch)
    requires Tracks(ms, latest)
    requires Name(m) == "" || (Name(m) in latest && m.leafIndex <= latest[Name(m)].leafIndex)
    ensures Tracks(ms + [m], latest)
  {
    hide FirstLatest;
    forall k | k in latest ensures FirstLatest(ms + [m], latest[k]) { FirstLatestStays(ms, latest[k], m); }
  }

  lemma TracksReplaced(ms: seq<AgentMatch>, latest: map<string, AgentMatch>, m: AgentMatch)
    requires Tracks(ms, latest) && Name(m) != ""
    requires Name(m) in latest ==> m.leafIndex > latest[Name(m)].leafIndex
    ensures Tracks(ms + [m], latest[Name(m) := m])
  {
    hide FirstLatest;
    forall x | x in ms && Name(x) == Name(m) ensures x.leafIndex < m.leafIndex {
      assert Latest(ms, latest[Name(x)]);
    }
    NewFirstLatest(ms, m);
    forall k | k in latest ensures FirstLatest(ms + [m], latest[k]) { FirstLatestStays(ms, latest[k], m); }
  }

  lemma IndexIsNew(ms: seq<AgentMatch>, i: nat)
    requires DistinctIndices(ms) && i < |ms|
    ensures forall x :: x in ms[..i] ==> x.leafIndex != ms[i].leafIndex
  {
  }

  /** The map of latest leaves, and the unnamed leaves in input order. */
  method CollectLatest(ms: seq<AgentMatch>) returns (latest: map<string, AgentMatch>, unnamed: seq<AgentMatch>)
    ensures Tracks(ms, latest)
    ensures forall m :: m in unnamed <==> m in ms && Name(m) == ""
    ensures DistinctIndices(ms) ==> NoDuplicates(unnamed)
  {
    latest, unnamed := map[], [];
    assert Tracks(ms[..0], latest);
    hide Tracks, DistinctIndices;
    for i := 0 to |ms|
      invariant Tracks(ms[..i], latest)
      invariant forall m :: m in unnamed <==> m in ms[..i] && Name(m) == ""
      invariant DistinctIndices(ms) ==> NoDuplicates(unnamed)
    {
      var m := ms[i];
      assert ms[..i + 1] == ms[..i] + [m];
      if DistinctIndices(ms) {
        IndexIsNew(ms, i);
      }
      if Name(m) == "" {
        TracksKept(ms[..i], latest, m);
        unnamed := unnamed + [m];
      } else if Name(m) !in latest || m.leafIndex > latest[Name(m)].leafIndex {
        TracksReplaced(ms[..i], latest, m);
        latest := latest[Name(m) := m];
      } else {
        TracksKept(ms[..i], latest, m);
      }
    }
    assert ms[..|ms|] == ms;
  }

  /** Appends the non-terminal values of the map, in an arbitrary order. */
  method AppendLive(latest: map<string, AgentMatch>, out0: seq<AgentMatch>) returns (out: seq<AgentMatch>)
    requires forall k :: k in latest ==> k != "" && Name(latest[k]) == k
    requires forall m :: m in out0 ==> Name(m) == ""
    ensures forall m :: m in out <==> m in out0 || (Name(m) in latest && m == latest[Name(m)] && !Terminal(m))
    ensures NoDuplicates(out0) ==> NoDuplicates(out)
  {
    out := out0;
    var todo := latest.Keys;
    while todo != {}
      invariant todo <= latest.Keys
      invariant forall m :: m in out <==>
        m in out0 || (Name(m) in latest.Keys - todo && m == latest[Name(m)] && !Terminal(m))
      invariant NoDuplicates(out0) ==> NoDuplicates(out)
      decreases |todo|
    {
      var k :| k in todo;
      todo := todo - {k};
      if !Terminal(latest[k]) {
        assert latest[k] !in out;
        out := out + [latest[k]];
      }
    }
  }

  /** reduceToLive. For leaves with distinct indices the result is the replay of
      the log: independent of the input order, of map iteration order and of how
      the unstable sort breaks ties. */
  method ReduceToLive(ms: seq<AgentMatch>) returns (out: seq<AgentMatch>)
    ensures Sorted(out, IndexLe)
    ensures forall m :: m in out ==> Live(ms, m)
    ensures forall m :: m in ms && Name(m) == "" ==> m in out
    ensures DistinctIndices(ms) ==> out == Replay(Sort(ms, IndexLe))
  {
    var latest, unnamed := CollectLatest(ms);
    var all := AppendLive(latest, unnamed);
    out := SortSlice(all, IndexLe);
    SameMembers(out, all);
    if DistinctIndices(ms) {
      LatestIsUnique(ms, latest);
      assert forall m :: m in all <==> Live(ms, m);
      ArrangeLive(ms, all, out);
    }
  }

  lemma LatestIsUnique(ms: seq<AgentMatch>, latest: map<string, AgentMatch>)
    requires DistinctIndices(ms)
    requires forall k :: k in latest ==> Name(latest[k]) == k && Latest(ms, latest[k])
    ensures forall m :: Latest(ms, m) && Name(m) in latest ==> m == latest[Name(m)]
  {
    IndicesIdentify(ms);
    forall m | Latest(ms, m) && Name(m) in latest ensures m == latest[Name(m)] {
      var x := latest[Name(m)];
      assert IndexLe(x, m) && IndexLe(m, x);
    }
  }

  /** Any sorted arrangement of the live leaves is the replay. */
  lemma ArrangeLive(ms: seq<AgentMatch>, all: seq<AgentMatch>, out: seq<AgentMatch>)
    requires DistinctIndices(ms) && NoDuplicates(all)
    requires forall m :: m in all <==> Live(ms, m)
    requires Sorted(out, IndexLe) && multiset(out) == multiset(all)
    ensures out == Replay(Sort(ms, IndexLe))
  {
    SortedIsLogOrder(ms);
    var sorted := Sort(ms, IndexLe);
    var replay := Replay(sorted);
    ReplayMembers(sorted);
    assert forall m :: Live(sorted, m) <==> Live(ms, m);
    SameMembersRearrange(all, replay);
    SameMembers(out, all);
    IndicesIdentify(ms);
    SortedUnique(out, replay, IndexLe);
  }

  /** After the walk: its matches come in log order, so reducing them is replaying
      the scanned log leaf by leaf. */
  lemma ScanIsReplayed(pick: Picker, leaves: seq<Leaf>, base: nat)
    ensures DistinctIndices(Scan(pick, leaves, base))
    ensures Replay(Sort(Scan(pick, leaves, base), IndexLe)) == Replay(Scan(pick, leaves, base))
  {
    hide Scan, Replay;
    var ms := Scan(pick, leaves, base);
    ScanExact(pick, leaves, base);
    SortedIsLogOrder(ms);
    SortSorts(ms, IndexLe);
    IndicesIdentify(ms);
    SortedUnique(ms, Sort(ms, IndexLe), IndexLe);
  }
}
