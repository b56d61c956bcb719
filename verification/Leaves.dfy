/** Log leaves and the provider filter of the `ans-verify list` walker. */
module Leaves {
  import opened Prelude
  import opened Text
  import opened Sequences

  type Leaf = seq<byte>

  /** The envelope fields the walker reads (agentIdentity). */
  datatype AgentIdentity = AgentIdentity(agentId: string, ansName: string, host: string, eventType: string)

  /** One agent leaf that matched the provider filter. */
  datatype AgentMatch = AgentMatch(leafIndex: nat, identity: AgentIdentity, leafBytes: Leaf)

  /** Which leaves the walk keeps, and the identity it reads off each. */
  type Picker = Leaf -> Option<AgentIdentity>

  /** Undecodable leaves, and leaves naming neither an agent nor a host, are not
      events. `decode` stands for the JSON decoder of an envelope. */
  function ExtractAgentIdentity(decode: Picker, leaf: Leaf): Option<AgentIdentity> {
    match decode(leaf)
    case None => None
    case Some(id) => if id.ansName == "" && id.host == "" then None else Some(id)
  }

  function TrimDot(s: string): string {
    if s != [] && s[|s| - 1] == '.' then s[..|s| - 1] else s
  }

  function Canonical(name: string): string {
    ToLower(TrimDot(name))
  }

  predicate ProviderMatches(host: string, suffix: string) {
    host != "" && suffix != "" &&
    var h, s := Canonical(host), Canonical(suffix);
    h == s || HasSuffix(h, "." + s)
  }

  /** The DNS labels of a name, case and a final dot disregarded. */
  function Labels(name: string): seq<string> {
    Split(ToLower(if HasSuffix(name, ".") then name[..|name| - 1] else name), '.')
  }

  lemma LabelsOfCanonical(name: string)
    ensures Labels(name) == Split(Canonical(name), '.')
  {
    hide Split, ToLower;
  }

  /** The provider test compares whole DNS labels, from the right: a host matches
      exactly when the suffix's labels end the host's labels. */
  lemma ProviderMatchesLabels(host: string, suffix: string)
    requires host != "" && suffix != ""
    ensures ProviderMatches(host, suffix) <==> HasSuffix(Labels(host), Labels(suffix))
  {
    LabelsOfCanonical(host);
    LabelsOfCanonical(suffix);
    hide Split, Canonical, HasSuffix, Labels;
    var h, s := Canonical(host), Canonical(suffix);
    if HasSuffix(h, "." + s) {
      TextSuffixIsLabelSuffix(h, s);
    }
    if HasSuffix(Split(h, '.'), Split(s, '.')) {
      LabelSuffixIsTextSuffix(h, s);
    }
    SuffixOfItself(Split(h, '.'));
  }

  lemma SuffixOfItself<T>(s: seq<T>)
    ensures HasSuffix(s, s)
  {
  }

  lemma TextSuffixIsLabelSuffix(h: string, s: string)
    requires HasSuffix(h, "." + s)
    ensures HasSuffix(Split(h, '.'), Split(s, '.'))
  {
    hide Split;
    var x := h[..|h| - |s| - 1];
    assert h == x + h[|h| - |s| - 1..] && "." + s == ['.'] + s;
    AppendAssoc(x, ['.'], s);
    SplitAt(x, '.', s);
    assert (Split(x, '.') + Split(s, '.'))[|Split(x, '.')|..] == Split(s, '.');
  }

  lemma LabelSuffixIsTextSuffix(h: string, s: string)
    requires HasSuffix(Split(h, '.'), Split(s, '.'))
    ensures h == s || HasSuffix(h, "." + s)
  {
    hide Split, Join;
    var hs, ss := Split(h, '.'), Split(s, '.');
    JoinOfSplit(h, '.');
    JoinOfSplit(s, '.');
    if |hs| > |ss| {
      var front := hs[..|hs| - |ss|];
      assert hs == front + ss;
      JoinConcat(front, ss, '.');
      assert h[|h| - |s| - 1..] == "." + s;
    } else {
      assert hs == ss;
    }
  }

  /** The walker's filter for one provider. */
  function ProviderPicker(decode: Picker, suffix: string): Picker {
    leaf =>
      match ExtractAgentIdentity(decode, leaf)
      case None => None
      case Some(id) => if ProviderMatches(id.host, suffix) then Some(id) else None
  }

  function MatchesAt(pick: Picker, leaf: Leaf, index: nat): seq<AgentMatch> {
    match pick(leaf)
    case None => []
    case Some(id) => [AgentMatch(index, id, leaf)]
  }

  /** The sequential walk: leaves in order, the first one numbered `base`. */
  function Scan(pick: Picker, leaves: seq<Leaf>, base: nat): seq<AgentMatch> {
    if leaves == [] then [] else
      var n := |leaves| - 1;
      Scan(pick, leaves[..n], base) + MatchesAt(pick, leaves[n], base + n)
  }

  lemma ScanNothing(pick: Picker, base: nat)
    ensures Scan(pick, [], base) == []
  {
  }

  lemma ScanSnoc(pick: Picker, s: seq<Leaf>, leaf: Leaf, base: nat)
    ensures Scan(pick, s + [leaf], base) == Scan(pick, s, base) + MatchesAt(pick, leaf, base + |s|)
  {
    assert (s + [leaf])[..|s|] == s;
  }

  lemma {:induction false} ScanConcat(pick: Picker, a: seq<Leaf>, b: seq<Leaf>, base: nat)
    ensures Scan(pick, a + b, base) == Scan(pick, a, base) + Scan(pick, b, base + |a|)
    decreases |b|, 1
  {
    if b == [] {
      assert a + b == a;
      assert Scan(pick, b, base + |a|) == [];
    } else {
      ScanConcatStep(pick, a, b, base);
    }
  }

  lemma {:induction false} ScanConcatStep(pick: Picker, a: seq<Leaf>, b: seq<Leaf>, base: nat)
    requires b != []
    ensures Scan(pick, a + b, base) == Scan(pick, a, base) + Scan(pick, b, base + |a|)
    decreases |b|, 0
  {
    hide *;
    var front, leaf := b[..|b| - 1], b[|b| - 1];
    ScanConcat(pick, a, front, base);
    FrontLast(b);
    AppendAssoc(a, front, [leaf]);
    ScanSnoc(pick, a + front, leaf, base);
    ScanSnoc(pick, front, leaf, base + |a|);
    AppendAssoc(Scan(pick, a, base), Scan(pick, front, base + |a|), MatchesAt(pick, leaf, base + |a| + |front|));
  }

  /** m reports the leaf at its own index. */
  predicate Reports(pick: Picker, leaves: seq<Leaf>, base: nat, m: AgentMatch) {
    base <= m.leafIndex < base + |leaves| &&
    m.leafBytes == leaves[m.leafIndex - base] && pick(m.leafBytes) == Some(m.identity)
  }

  /** The scan reports exactly the picked positions, each under its own index,
      in strictly increasing index order. */
  lemma {:induction false} ScanExact(pick: Picker, leaves: seq<Leaf>, base: nat)
    ensures forall m :: m in Scan(pick, leaves, base) <==> Reports(pick, leaves, base, m)
    ensures forall i, j :: 0 <= i < j < |Scan(pick, leaves, base)| ==>
              Scan(pick, leaves, base)[i].leafIndex < Scan(pick, leaves, base)[j].leafIndex
  {
    if leaves != [] {
      var n := |leaves| - 1;
      ScanExact(pick, leaves[..n], base);
      forall i | 0 <= i < |Scan(pick, leaves[..n], base)|
        ensures Scan(pick, leaves[..n], base)[i].leafIndex < base + n
      {
        assert Scan(pick, leaves[..n], base)[i] in Scan(pick, leaves[..n], base);
      }
    }
  }
}
