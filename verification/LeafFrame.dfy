/** Which credential of a chain is the presented one: the frame no other frame's
    edge block refers to. */
module LeafFrame {
  import opened Prelude
  import opened Sequences
  import opened Sorting
  import AcdcScan

  // ---- edge blocks ---------------------------------------------------------

  /** A decoded JSON document; members in any order. */
  datatype Value = Text(s: string) | Other | List(items: seq<Value>) | Object(members: seq<Named>)

  datatype Named = Named(name: string, value: Value)

  const MAX_EDGE_DEPTH: nat := 64

  /** collectEdgeNodes: the non-empty text values of `n` members, at any nesting
      up to the depth limit. */
  function EdgeNodes(v: Value, depth: nat): set<string>
    decreases v, 1
  {
    if depth > MAX_EDGE_DEPTH then {} else
      match v
      case Object(members) => MemberNodes(members, depth)
      case List(items) => ItemNodes(items, depth)
      case _ => {}
  }

  function MemberNodes(ms: seq<Named>, depth: nat): set<string>
    decreases ms, 0
  {
    if ms == [] then {} else
      NodeOf(ms[0]) + EdgeNodes(ms[0].value, depth + 1) + MemberNodes(ms[1..], depth)
  }

  function ItemNodes(vs: seq<Value>, depth: nat): set<string>
    decreases vs, 0
  {
    if vs == [] then {} else EdgeNodes(vs[0], depth + 1) + ItemNodes(vs[1..], depth)
  }

  function NodeOf(m: Named): set<string> {
    if m.name == "n" && m.value.Text? && m.value.s != "" then {m.value.s} else {}
  }

  function Children(v: Value): seq<Value> {
    match v
    case Object(members) => seq(|members|, i requires 0 <= i < |members| => members[i].value)
    case List(items) => items
    case _ => []
  }

  /** v has an `n` member with text s, `hops` levels down. */
  ghost predicate NamesAt(v: Value, s: string, hops: nat)
    decreases hops
  {
    if hops == 0 then v.Object? && s != "" && Named("n", Text(s)) in v.members
    else exists i :: 0 <= i < |Children(v)| && NamesAt(Children(v)[i], s, hops - 1)
  }

  /** s is named within the depth left below `depth`. */
  ghost predicate Reaches(v: Value, depth: nat, s: string) {
    exists hops: nat :: depth + hops <= MAX_EDGE_DEPTH && NamesAt(v, s, hops)
  }

  ghost predicate SomeReaches(vs: seq<Value>, depth: nat, s: string) {
    exists i :: 0 <= i < |vs| && Reaches(vs[i], depth + 1, s)
  }

  /** The walk collects exactly the texts some path of at most the allowed length
      leads to. */
  lemma {:induction false} EdgeNodesExactly(v: Value, depth: nat, s: string)
    ensures s in EdgeNodes(v, depth) <==> Reaches(v, depth, s)
    decreases v, 1
  {
    if depth <= MAX_EDGE_DEPTH {
      ReachesByChild(v, depth, s);
      match v
      case Object(members) => MemberNodesExactly(members, depth, s);
      case List(items) => ItemNodesExactly(items, depth, s);
      case _ =>
    }
  }

  lemma ReachesByChild(v: Value, depth: nat, s: string)
    requires depth <= MAX_EDGE_DEPTH
    ensures Reaches(v, depth, s) <==> NamesAt(v, s, 0) || SomeReaches(Children(v), depth, s)
  {
    if hops: nat :| depth + hops <= MAX_EDGE_DEPTH && NamesAt(v, s, hops) {
      if hops > 0 {
        var i :| 0 <= i < |Children(v)| && NamesAt(Children(v)[i], s, hops - 1);
        assert Reaches(Children(v)[i], depth + 1, s);
      }
    }
    if SomeReaches(Children(v), depth, s) {
      var i :| 0 <= i < |Children(v)| && Reaches(Children(v)[i], depth + 1, s);
      var hops: nat :| depth + 1 + hops <= MAX_EDGE_DEPTH && NamesAt(Children(v)[i], s, hops);
      assert NamesAt(v, s, hops + 1);
    }
  }

  lemma {:induction false} MemberNodesExactly(ms: seq<Named>, depth: nat, s: string)
    ensures s in MemberNodes(ms, depth) <==>
              (s != "" && Named("n", Text(s)) in ms) || SomeReaches(Children(Object(ms)), depth, s)
    decreases ms, 0
  {
    if ms != [] {
      hide Reaches;
      EdgeNodesExactly(ms[0].value, depth + 1, s);
      MemberNodesExactly(ms[1..], depth, s);
      var vs, ws := Children(Object(ms)), Children(Object(ms[1..]));
      assert vs[1..] == ws;
      ReachesFirstOrRest(vs, depth, s);
      FirstOrRest(ms, Named("n", Text(s)));
    }
  }

  lemma FirstOrRest<T>(ms: seq<T>, m: T)
    requires ms != []
    ensures m in ms <==> m == ms[0] || m in ms[1..]
  {
  }

  lemma {:induction false} ItemNodesExactly(vs: seq<Value>, depth: nat, s: string)
    ensures s in ItemNodes(vs, depth) <==> SomeReaches(vs, depth, s)
    decreases vs, 0
  {
    if vs != [] {
      EdgeNodesExactly(vs[0], depth + 1, s);
      ItemNodesExactly(vs[1..], depth, s);
      ReachesFirstOrRest(vs, depth, s);
    }
  }

  lemma ReachesFirstOrRest(vs: seq<Value>, depth: nat, s: string)
    requires vs != []
    ensures SomeReaches(vs, depth, s) <==> Reaches(vs[0], depth + 1, s) || SomeReaches(vs[1..], depth, s)
  {
    hide Reaches;
    if SomeReaches(vs, depth, s) {
      var i :| 0 <= i < |vs| && Reaches(vs[i], depth + 1, s);
      if i > 0 {
        assert Reaches(vs[1..][i - 1], depth + 1, s);
      }
    }
    if SomeReaches(vs[1..], depth, s) {
      var i :| 0 <= i < |vs[1..]| && Reaches(vs[1..][i], depth + 1, s);
      assert Reaches(vs[i + 1], depth + 1, s);
    }
  }

  // ---- frames --------------------------------------------------------------

  /** A credential frame: its SAID, subject fields and edge block. */
  datatype Frame = Frame(said: string, subjectAid: string, lei: string, edge: Option<Value>)

  function Edges(f: Frame): set<string> {
    if f.edge.Some? then EdgeNodes(f.edge.value, 0) else {}
  }

  function Referenced(frames: seq<Frame>): set<string> {
    if frames == [] then {} else Referenced(frames[..|frames| - 1]) + Edges(frames[|frames| - 1])
  }

  lemma {:induction false} ReferencedBySome(frames: seq<Frame>, s: string)
    ensures s in Referenced(frames) <==> exists i :: 0 <= i < |frames| && s in Edges(frames[i])
  {
    if frames != [] {
      ReferencedBySome(frames[..|frames| - 1], s);
    }
  }

  /** The first frame whose SAID no edge refers to. */
  function Leaf(frames: seq<Frame>, referenced: set<string>): Option<Frame> {
    if frames == [] then None
    else if frames[0].said !in referenced then Some(frames[0])
    else Leaf(frames[1..], referenced)
  }

  method LeafLoop(frames: seq<Frame>, referenced: set<string>) returns (r: Option<Frame>)
    ensures r == Leaf(frames, referenced)
  {
    for i := 0 to |frames|
      invariant Leaf(frames, referenced) == Leaf(frames[i..], referenced)
    {
      if frames[i].said !in referenced {
        return Some(frames[i]);
      }
      assert frames[i..][1..] == frames[i + 1..];
    }
    return None;
  }

  lemma {:induction false} LeafIsUnreferenced(frames: seq<Frame>, referenced: set<string>)
    ensures match Leaf(frames, referenced)
            case Some(f) => f in frames && f.said !in referenced
            case None => forall f :: f in frames ==> f.said in referenced
  {
    if frames != [] { LeafIsUnreferenced(frames[1..], referenced); }
  }

  /** Frame j's edges refer to frame i. */
  ghost predicate RefersTo(frames: seq<Frame>, j: nat, i: nat) {
    i < |frames| && j < |frames| && frames[i].said in Edges(frames[j])
  }

  /** Each frame of the walk is referred to by the next. */
  ghost predicate Walk(frames: seq<Frame>, w: seq<nat>) {
    (forall k :: 0 <= k < |w| ==> w[k] < |frames|) &&
    forall k :: 0 <= k < |w| - 1 ==> RefersTo(frames, w[k + 1], w[k])
  }

  ghost predicate Acyclic(frames: seq<Frame>) {
    forall w :: Walk(frames, w) && |w| >= 2 ==> w[0] != w[|w| - 1]
  }

  /** If every frame is referred to, walks of any length exist. */
  lemma {:induction false} LongWalk(frames: seq<Frame>, n: nat) returns (w: seq<nat>)
    requires frames != [] && n > 0
    requires forall i :: 0 <= i < |frames| ==> frames[i].said in Referenced(frames)
    ensures |w| == n && Walk(frames, w)
  {
    if n == 1 {
      w := [0];
    } else {
      var front := LongWalk(frames, n - 1);
      var last := front[n - 2];
      ReferencedBySome(frames, frames[last].said);
      var j :| 0 <= j < |frames| && frames[last].said in Edges(frames[j]);
      w := front + [j];
      forall k | 0 <= k < |w| - 1 ensures RefersTo(frames, w[k + 1], w[k]) {
        assert k < n - 2 ==> RefersTo(frames, front[k + 1], front[k]);
      }
    }
  }

  ghost function Below(n: nat): (s: set<nat>)
    ensures |s| == n && forall x: nat :: x in s <==> x < n
  {
    if n == 0 then {} else Below(n - 1) + {n - 1}
  }

  /** More positions than values: some value repeats. */
  lemma Pigeonhole(w: seq<nat>, n: nat)
    requires |w| > n && forall k :: 0 <= k < |w| ==> w[k] < n
    ensures !NoDuplicates(w)
  {
    if NoDuplicates(w) {
      MembersCount(w);
      SubsetCount(Members(w), Below(n));
    }
  }

  lemma SubsetCount<T>(a: set<T>, b: set<T>)
    requires a <= b
    ensures |a| <= |b|
  {
    assert b == a + (b - a);
  }

  lemma RepeatIsCycle(frames: seq<Frame>, w: seq<nat>, a: nat, b: nat)
    requires Walk(frames, w) && a < b < |w| && w[a] == w[b]
    ensures !Acyclic(frames)
  {
    var cycle := w[a..b + 1];
    forall k | 0 <= k < |cycle| - 1 ensures RefersTo(frames, cycle[k + 1], cycle[k]) {
      assert RefersTo(frames, w[(a + k) + 1], w[a + k]);
    }
    assert Walk(frames, cycle) && |cycle| >= 2 && cycle[0] == cycle[|cycle| - 1];
  }

  /** A chain without cycles has a leaf: if the edge relation of a non-empty set of
      frames is acyclic, an unreferenced frame exists and the search finds one. */
  lemma AcyclicHasLeaf(frames: seq<Frame>)
    requires frames != [] && Acyclic(frames)
    ensures Leaf(frames, Referenced(frames)).Some?
    ensures var f := Leaf(frames, Referenced(frames)).value; f in frames && f.said !in Referenced(frames)
  {
    LeafIsUnreferenced(frames, Referenced(frames));
    if Leaf(frames, Referenced(frames)).None? {
      assert forall i :: 0 <= i < |frames| ==> frames[i] in frames;
      var w := LongWalk(frames, |frames| + 1);
      Pigeonhole(w, |frames|);
      var a, b :| 0 <= a < b < |w| && w[a] == w[b];
      RepeatIsCycle(frames, w, a, b);
    }
  }

  ghost predicate OneLeaf(frames: seq<Frame>) {
    forall f, g :: f in frames && g in frames && f.said !in Referenced(frames) && g.said !in Referenced(frames) ==>
      f == g
  }

  /** Position independence: with one unreferenced frame, every order of the
      frames gives the same leaf. */
  lemma LeafForgetsOrder(frames: seq<Frame>, frames': seq<Frame>)
    requires multiset(frames) == multiset(frames') && OneLeaf(frames)
    ensures Leaf(frames, Referenced(frames)) == Leaf(frames', Referenced(frames'))
  {
    forall f ensures f in frames <==> f in frames' {
      assert f in frames <==> f in multiset(frames);
      assert f in frames' <==> f in multiset(frames');
    }
    ReferencedForgetsOrder(frames, frames');
    LeafIsUnreferenced(frames, Referenced(frames));
    LeafIsUnreferenced(frames', Referenced(frames'));
  }

  /** Every order of the frames gives the same leaf. */
  ghost predicate OrderFree(frames: seq<Frame>) {
    forall fs :: multiset(fs) == multiset(frames) ==> Leaf(fs, Referenced(fs)) == Leaf(frames, Referenced(frames))
  }

  /** An unreferenced frame becomes the leaf when it is moved to the front. */
  lemma FrontIsLeaf(frames: seq<Frame>, f: Frame) returns (fs: seq<Frame>)
    requires f in frames && f.said !in Referenced(frames)
    ensures multiset(fs) == multiset(frames) && Leaf(fs, Referenced(fs)) == Some(f)
  {
    var i :| 0 <= i < |frames| && frames[i] == f;
    AroundPosition(frames, i);
    fs := [f] + (frames[..i] + frames[i + 1..]);
    SameMembers(fs, frames);
    ReferencedForgetsOrder(fs, frames);
  }

  /** The leaf does not depend on the order of the frames exactly when no two
      different frames are unreferenced. */
  lemma LeafForgetsOrderExactly(frames: seq<Frame>)
    ensures OrderFree(frames) <==> OneLeaf(frames)
  {
    hide Leaf, Referenced;
    if OneLeaf(frames) {
      forall fs | multiset(fs) == multiset(frames)
        ensures Leaf(fs, Referenced(fs)) == Leaf(frames, Referenced(frames))
      {
        LeafForgetsOrder(frames, fs);
      }
    }
    if OrderFree(frames) {
      forall f, g | f in frames && g in frames && f.said !in Referenced(frames) && g.said !in Referenced(frames)
        ensures f == g
      {
        var fs := FrontIsLeaf(frames, f);
        var gs := FrontIsLeaf(frames, g);
      }
    }
  }

  /** Two credentials that do not mention each other: the first one wins, so the
      order decides. */
  lemma TwoLeavesDisagree()
    ensures var a, b := Frame("A", "", "", None), Frame("B", "", "", None);
            && Leaf([a, b], Referenced([a, b])) == Some(a)
            && Leaf([b, a], Referenced([b, a])) == Some(b)
  {
    var a, b := Frame("A", "", "", None), Frame("B", "", "", None);
    ReferencedBySome([a, b], "A");
    ReferencedBySome([b, a], "B");
  }

  lemma ReferencedForgetsOrder(frames: seq<Frame>, frames': seq<Frame>)
    requires forall f :: f in frames <==> f in frames'
    ensures Referenced(frames) == Referenced(frames')
  {
    forall s ensures s in Referenced(frames) <==> s in Referenced(frames') {
      ReferencedBySome(frames, s);
      ReferencedBySome(frames', s);
      if i :| 0 <= i < |frames| && s in Edges(frames[i]) {
        assert frames[i] in frames';
      }
      if i :| 0 <= i < |frames'| && s in Edges(frames'[i]) {
        assert frames'[i] in frames;
      }
    }
  }

  // ---- the whole path ------------------------------------------------------

  /** json.Unmarshal of an object; frames without a SAID are dropped. */
  function FrameDecoder(unmarshal: string -> Option<Frame>): string -> Option<Frame> {
    (obj: string) => if unmarshal(obj).Some? && unmarshal(obj).value.said != "" then unmarshal(obj) else None
  }

  function Frames(unmarshal: string -> Option<Frame>, cesr: string): seq<Frame> {
    FilterMap(FrameDecoder(unmarshal), AcdcScan.ScanObjects(cesr))
  }

  function PresentedSaid(unmarshal: string -> Option<Frame>, cesr: string): string {
    var frames := Frames(unmarshal, cesr);
    var leaf := Leaf(frames, Referenced(frames));
    if leaf.Some? then leaf.value.said else ""
  }

  method PresentedCredentialSaid(unmarshal: string -> Option<Frame>, cesr: string) returns (said: string)
    ensures said == PresentedSaid(unmarshal, cesr)
  {
    var frames := AcdcScan.ScanChain(cesr, FrameDecoder(unmarshal));
    var leaf := LeafLoop(frames, Referenced(frames));
    said := if leaf.Some? then leaf.value.said else "";
  }

  ghost predicate GoodSegments(segments: seq<AcdcScan.Segment>, tail: string) {
    (forall i :: 0 <= i < |segments| ==>
       AcdcScan.IsAcdc(segments[i].credential) && AcdcScan.NoMarkerIn(segments[i].gap)) &&
    AcdcScan.NoMarkerIn(tail)
  }

  /** f is decoded from one of the credentials of the export. */
  ghost predicate Decoded(unmarshal: string -> Option<Frame>, segments: seq<AcdcScan.Segment>, f: Frame) {
    f.said != "" &&
    exists i :: 0 <= i < |segments| && unmarshal(AcdcScan.Print(segments[i].credential)) == Some(f)
  }

  lemma FramesAreDecoded(unmarshal: string -> Option<Frame>, segments: seq<AcdcScan.Segment>, tail: string, f: Frame)
    requires GoodSegments(segments, tail)
    ensures f in Frames(unmarshal, AcdcScan.Interleave(segments, tail)) <==> Decoded(unmarshal, segments, f)
  {
    hide AcdcScan.Print, FilterMap, GoodSegments;
    var texts := AcdcScan.Credentials(segments);
    assert AcdcScan.ScanObjects(AcdcScan.Interleave(segments, tail)) == texts by {
      AllGood(segments, tail);
      AcdcScan.ScanFindsCredentials(segments, tail);
    }
    FilterMapMember(FrameDecoder(unmarshal), texts, f);
    if i :| 0 <= i < |texts| && FrameDecoder(unmarshal)(texts[i]) == Some(f) {
      assert unmarshal(AcdcScan.Print(segments[i].credential)) == Some(f);
    }
    if Decoded(unmarshal, segments, f) {
      var i :| 0 <= i < |segments| && unmarshal(AcdcScan.Print(segments[i].credential)) == Some(f);
      assert FrameDecoder(unmarshal)(texts[i]) == Some(f);
    }
  }

  lemma AllGood(segments: seq<AcdcScan.Segment>, tail: string)
    requires GoodSegments(segments, tail)
    ensures forall i :: 0 <= i < |segments| ==>
              AcdcScan.IsAcdc(segments[i].credential) && AcdcScan.NoMarkerIn(segments[i].gap)
    ensures AcdcScan.NoMarkerIn(tail)
  {
  }

  /** An edge path of at most 64 steps in the frame names the SAID. */
  ghost predicate Mentions(f: Frame, s: string) {
    f.edge.Some? && exists hops: nat :: hops <= 64 && NamesAt(f.edge.value, s, hops)
  }

  lemma EdgesAreMentioned(f: Frame, s: string)
    ensures s in Edges(f) <==> Mentions(f, s)
  {
    if f.edge.Some? {
      EdgeNodesExactly(f.edge.value, 0, s);
      hide EdgeNodes, NamesAt;
      forall hops: nat | hops <= 64 && NamesAt(f.edge.value, s, hops) ensures Reaches(f.edge.value, 0, s) {
        assert 0 + hops <= MAX_EDGE_DEPTH;
      }
    }
  }

  /** What is presented: the SAID of a credential of the export that no credential of
      the export refers to. Nothing is presented exactly when every credential is
      referred to, so never for a non-empty export without cycles. */
  lemma PresentedIsUnreferenced(unmarshal: string -> Option<Frame>, segments: seq<AcdcScan.Segment>, tail: string)
    requires GoodSegments(segments, tail)
    ensures var cesr := AcdcScan.Interleave(segments, tail);
            var said := PresentedSaid(unmarshal, cesr);
            && (said != "" ==>
                  && (exists f :: Decoded(unmarshal, segments, f) && f.said == said)
                  && (forall g :: Decoded(unmarshal, segments, g) ==> !Mentions(g, said)))
            && (said == "" <==>
                  forall f :: Decoded(unmarshal, segments, f) ==>
                    exists g :: Decoded(unmarshal, segments, g) && Mentions(g, f.said))
            && (Frames(unmarshal, cesr) != [] && Acyclic(Frames(unmarshal, cesr)) ==> said != "")
  {
    var cesr := AcdcScan.Interleave(segments, tail);
    var frames, said := Frames(unmarshal, cesr), PresentedSaid(unmarshal, cesr);
    hide Frames, Leaf, Referenced, Acyclic, Decoded, Edges, Mentions;
    forall f ensures f in frames <==> Decoded(unmarshal, segments, f) {
      FramesAreDecoded(unmarshal, segments, tail, f);
    }
    forall f | f in frames ensures f.said != "" { DecodedIsNamed(unmarshal, segments, f); }
    LeafIsUnreferenced(frames, Referenced(frames));
    forall s ensures s in Referenced(frames) <==> exists g :: g in frames && Mentions(g, s) {
      ReferencedByMember(frames, s);
    }
    if frames != [] && Acyclic(frames) {
      AcyclicHasLeaf(frames);
    }
  }

  lemma DecodedIsNamed(unmarshal: string -> Option<Frame>, segments: seq<AcdcScan.Segment>, f: Frame)
    requires Decoded(unmarshal, segments, f)
    ensures f.said != ""
  {
  }

  lemma ReferencedByMember(frames: seq<Frame>, s: string)
    ensures s in Referenced(frames) <==> exists g :: g in frames && Mentions(g, s)
  {
    hide Referenced, Edges, Mentions;
    ReferencedBySome(frames, s);
    forall g ensures s in Edges(g) <==> Mentions(g, s) { EdgesAreMentioned(g, s); }
    if i :| 0 <= i < |frames| && s in Edges(frames[i]) {
      assert frames[i] in frames;
    }
    if g :| g in frames && Mentions(g, s) {
      var i :| 0 <= i < |frames| && frames[i] == g;
      assert s in Edges(frames[i]);
    }
  }

  /** Two exports that carry the same credentials in different orders, with
      whatever attachments between them, present the same SAID. */
  lemma PresentationForgetsOrder(unmarshal: string -> Option<Frame>,
                                 segments: seq<AcdcScan.Segment>, tail: string,
                                 segments': seq<AcdcScan.Segment>, tail': string)
    requires GoodSegments(segments, tail) && GoodSegments(segments', tail')
    requires multiset(AcdcScan.Credentials(segments)) == multiset(AcdcScan.Credentials(segments'))
    requires OneLeaf(Frames(unmarshal, AcdcScan.Interleave(segments, tail)))
    ensures PresentedSaid(unmarshal, AcdcScan.Interleave(segments, tail))
         == PresentedSaid(unmarshal, AcdcScan.Interleave(segments', tail'))
  {
    hide OneLeaf, Leaf, Referenced, FilterMap, FrameDecoder;
    AcdcScan.ScanFindsCredentials(segments, tail);
    AcdcScan.ScanFindsCredentials(segments', tail');
    FilterMapRearranged(FrameDecoder(unmarshal), AcdcScan.Credentials(segments), AcdcScan.Credentials(segments'));
    LeafForgetsOrder(Frames(unmarshal, AcdcScan.Interleave(segments, tail)),
                     Frames(unmarshal, AcdcScan.Interleave(segments', tail')));
  }
}
