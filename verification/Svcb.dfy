/** SVCB/HTTPS record matching of the DNS verifier: presentation format, parser
    and the subset match of sections 2.5.2, 7.1.1 and 8 of RFC 9460. */
module Svcb {
  import opened Prelude
  import opened Text
  import opened Sequences

  datatype Param = Param(key: string, value: string)

  /** A live record as the DNS library delivers it. */
  datatype Record = Record(priority: nat, target: string, params: seq<Param>)

  datatype Parsed = Parsed(priority: int, target: string, params: map<string, string>)

  // ---- presentation format -------------------------------------------------

  function FormatParams(ps: seq<Param>): string {
    if ps == [] then "" else " " + ps[0].key + "=" + ps[0].value + FormatParams(ps[1..])
  }

  /** formatHTTPSValue. */
  function Format(r: Record): string {
    Itoa(r.priority) + " " + r.target + FormatParams(r.params)
  }

  /** strconv.Atoi, including its optional sign and 64-bit range. */
  function Atoi(s: string): Option<int> {
    var signed := s != "" && (s[0] == '+' || s[0] == '-');
    match ParseNat(if signed then s[1..] else s)
    case None => None
    case Some(n) =>
      var v: int := if signed && s[0] == '-' then 0 - n else n;
      if -0x8000_0000_0000_0000 <= v < 0x8000_0000_0000_0000 then Some(v) else None
  }

  /** Key and value of one field; a field without '=' has an empty value. */
  function ParseField(f: string): Param {
    var eq := IndexOf(f, '=');
    if eq == |f| then Param(f, "") else Param(f[..eq], f[eq + 1..])
  }

  function ParamMap(fields: seq<string>): map<string, string> {
    if fields == [] then map[] else
      var p := ParseField(fields[|fields| - 1]);
      ParamMap(fields[..|fields| - 1])[p.key := p.value]
  }

  function Parse(s: string): Result<Parsed> {
    FromFields(Fields(s))
  }

  function FromFields(fields: seq<string>): Result<Parsed> {
    if |fields| < 2 then Err("too few fields") else
      match Atoi(fields[0])
      case None => Err("priority")
      case Some(priority) => Ok(Parsed(priority, fields[1], ParamMap(fields[2..])))
  }

  method CollectParams(rest: seq<string>) returns (params: map<string, string>)
    ensures params == ParamMap(rest)
  {
    hide IndexOf;
    params := map[];
    for i := 0 to |rest|
      invariant params == ParamMap(rest[..i])
    {
      assert rest[..i + 1][..i] == rest[..i];
      var f := rest[i];
      var eq := IndexOf(f, '=');
      if eq == |f| {
        params := params[f := ""];
      } else {
        params := params[f[..eq] := f[eq + 1..]];
      }
    }
    assert rest[..|rest|] == rest;
  }

  method ParseSvcbValue(s: string) returns (r: Result<Parsed>)
    ensures r == Parse(s)
  {
    hide Fields, Atoi, ParamMap;
    var fields := Fields(s);
    if |fields| < 2 {
      return Err("too few fields");
    }
    var priority := Atoi(fields[0]);
    if priority.None? {
      return Err("priority");
    }
    var rest := fields[2..];
    var params := CollectParams(rest);
    return Ok(Parsed(priority.value, fields[1], params));
  }

  /** Records the format can carry: no white space, '='-free distinct keys. */
  ghost predicate WellFormed(r: Record) {
    && r.priority < 0x1_0000
    && r.target != "" && SpaceFree(r.target)
    && (forall i :: 0 <= i < |r.params| ==>
          SpaceFree(r.params[i].key) && SpaceFree(r.params[i].value) && Free(r.params[i].key, '='))
    && (forall i, j :: 0 <= i < j < |r.params| ==> r.params[i].key != r.params[j].key)
  }

  function FieldOf(p: Param): string {
    p.key + "=" + p.value
  }

  function FieldTexts(ps: seq<Param>): (fs: seq<string>)
    ensures |fs| == |ps| && forall i :: 0 <= i < |ps| ==> fs[i] == FieldOf(ps[i])
  {
    seq(|ps|, i requires 0 <= i < |ps| => FieldOf(ps[i]))
  }

  lemma {:induction false} FormatParamsJoin(words: seq<string>, ps: seq<Param>)
    requires words != []
    ensures Join(words, ' ') + FormatParams(ps) == Join(words + FieldTexts(ps), ' ')
    decreases |ps|
  {
    if ps == [] {
      assert words + FieldTexts(ps) == words;
    } else {
      var w := FieldOf(ps[0]);
      assert FormatParams(ps) == " " + w + FormatParams(ps[1..]);
      JoinOne(w, ' ');
      FieldTextsFirst(ps);
      hide Join, FormatParams, FieldOf, FieldTexts;
      FormatParamsJoin(words + [w], ps[1..]);
      JoinConcat(words, [w], ' ');
      AppendAssoc(words, [w], FieldTexts(ps[1..]));
      AppendAssoc(Join(words, ' '), " " + w, FormatParams(ps[1..]));
      AppendAssoc(Join(words, ' '), " ", w);
    }
  }

  lemma FieldTextsFirst(ps: seq<Param>)
    requires ps != []
    ensures FieldTexts(ps) == [FieldOf(ps[0])] + FieldTexts(ps[1..])
  {
  }

  lemma {:induction false} ParamMapCarries(ps: seq<Param>)
    requires forall i :: 0 <= i < |ps| ==> Free(ps[i].key, '=')
    requires forall i, j :: 0 <= i < j < |ps| ==> ps[i].key != ps[j].key
    ensures var m := ParamMap(FieldTexts(ps));
            forall k, v :: k in m && m[k] == v <==> Param(k, v) in ps
  {
    if ps != [] {
      var n := |ps| - 1;
      ParamMapCarries(ps[..n]);
      assert FieldTexts(ps)[..n] == FieldTexts(ps[..n]);
      FieldParses(ps[n]);
      assert ps == ps[..n] + [ps[n]];
    }
  }

  lemma FieldParses(p: Param)
    requires Free(p.key, '=')
    ensures ParseField(FieldOf(p)) == p
  {
    assert FieldOf(p) == p.key + ['='] + p.value;
    IndexOfSeparator(p.key, '=', p.value);
  }

  lemma ItoaReads(n: nat)
    requires n < 0x1_0000
    ensures Atoi(Itoa(n)) == Some(n) && Itoa(n) != "" && SpaceFree(Itoa(n))
  {
    ParseOfItoa(n);
    assert IsDigit(Itoa(n)[0]);
  }

  lemma FieldsOfLine(priority: string, target: string, ps: seq<Param>)
    requires priority != "" && SpaceFree(priority) && target != "" && SpaceFree(target)
    requires forall i :: 0 <= i < |ps| ==> SpaceFree(ps[i].key) && SpaceFree(ps[i].value)
    ensures Fields(priority + " " + target + FormatParams(ps)) == [priority, target] + FieldTexts(ps)
  {
    var words := [priority, target];
    assert words[1..] == [target] && Join([target], ' ') == target;
    assert Join(words, ' ') == priority + " " + target;
    FormatParamsJoin(words, ps);
    FieldsOfJoin(words + FieldTexts(ps));
  }

  ghost predicate SameContent(p: Parsed, r: Record) {
    && p.priority == r.priority && p.target == r.target
    && forall k, v :: k in p.params && p.params[k] == v <==> Param(k, v) in r.params
  }

  /** Parsing undoes formatting: the same priority, target and parameters. */
  lemma FormatParses(r: Record)
    requires WellFormed(r)
    ensures Parse(Format(r)).Ok? && SameContent(Parse(Format(r)).value, r)
  {
    ItoaReads(r.priority);
    FieldsOfLine(Itoa(r.priority), r.target, r.params);
    FieldsParse(r, Itoa(r.priority));
  }

  lemma FieldsParse(r: Record, priority: string)
    requires WellFormed(r) && Atoi(priority) == Some(r.priority)
    ensures FromFields([priority, r.target] + FieldTexts(r.params)).Ok?
    ensures SameContent(FromFields([priority, r.target] + FieldTexts(r.params)).value, r)
  {
    ParamMapCarries(r.params);
    assert ([priority, r.target] + FieldTexts(r.params))[2..] == FieldTexts(r.params);
  }

  // ---- the alpn list -------------------------------------------------------

  /** Length up to the first comma that no backslash escapes, or to the end. */
  function SegmentLength(s: string): (k: nat)
    ensures k <= |s|
    ensures k < |s| ==> s[k] == ','
  {
    if s == "" || s[0] == ',' then 0
    else if s[0] == '\\' && |s| > 1 then 2 + SegmentLength(s[2..])
    else 1 + SegmentLength(s[1..])
  }

  function SplitAlpn(s: string): (segments: seq<string>)
    ensures segments != []
    decreases |s|
  {
    var k := SegmentLength(s);
    if k == |s| then [s] else [s[..k]] + SplitAlpn(s[k + 1..])
  }

  /** How the segment length counts the characters from position i on. */
  lemma SegmentFrom(s: string, i: nat)
    requires i < |s|
    ensures s[i] == ',' ==> SegmentLength(s[i..]) == 0
    ensures s[i] == '\\' && i + 1 < |s| ==> SegmentLength(s[i..]) == 2 + SegmentLength(s[i + 2..])
    ensures s[i] != ',' && !(s[i] == '\\' && i + 1 < |s|) ==> SegmentLength(s[i..]) == 1 + SegmentLength(s[i + 1..])
  {
    if s[i] == '\\' && i + 1 < |s| {
      assert s[i..][2..] == s[i + 2..];
    } else {
      assert s[i..][1..] == s[i + 1..];
    }
  }

  /** How the split proceeds from a segment start. */
  lemma SplitFrom(s: string, start: nat, i: nat)
    requires start <= i <= |s| && SegmentLength(s[start..]) == i - start
    ensures i == |s| ==> SplitAlpn(s[start..]) == [s[start..]]
    ensures i < |s| ==> s[i] == ',' && SplitAlpn(s[start..]) == [s[start..i]] + SplitAlpn(s[i + 1..])
  {
    hide SegmentLength;
    var t := s[start..];
    if i < |s| {
      assert t[..i - start] == s[start..i];
      assert t[i - start + 1..] == s[i + 1..];
    }
  }

  method SplitAlpnScan(s: string) returns (out: seq<string>)
    ensures out == SplitAlpn(s)
  {
    hide SplitAlpn, SegmentLength;
    out := [];
    var start, i := 0, 0;
    assert s[0..] == s;
    while i < |s|
      invariant 0 <= start <= i <= |s|
      invariant SplitAlpn(s) == out + SplitAlpn(s[start..])
      invariant SegmentLength(s[start..]) == i - start + SegmentLength(s[i..])
    {
      SegmentFrom(s, i);
      if s[i] == '\\' && i + 1 < |s| {
        i := i + 2;
      } else if s[i] == ',' {
        SplitFrom(s, start, i);
        out := out + [s[start..i]];
        i := i + 1;
        start := i;
      } else {
        i := i + 1;
      }
    }
    SplitFrom(s, start, i);
    out := out + [s[start..]];
  }

  /** Joining the segments with commas gives the value back. */
  lemma {:induction false} AlpnJoin(s: string)
    ensures Join(SplitAlpn(s), ',') == s
    decreases |s|
  {
    AlpnStep(s);
    hide *;
    var k := SegmentLength(s);
    if k < |s| {
      AlpnJoin(s[k + 1..]);
      Around(s, k);
      JoinFirst(s[..k], SplitAlpn(s[k + 1..]), ',');
    } else {
      JoinOne(s, ',');
    }
  }

  lemma AlpnStep(s: string)
    ensures var k := SegmentLength(s);
            if k == |s| then SplitAlpn(s) == [s]
            else s[k] == ',' && SplitAlpn(s) == [s[..k]] + SplitAlpn(s[k + 1..])
  {
    hide SegmentLength;
  }

  lemma {:induction false} SegmentIsWhole(s: string)
    ensures SegmentLength(s[..SegmentLength(s)]) == SegmentLength(s)
  {
    var k := SegmentLength(s);
    if s != "" && s[0] != ',' {
      if s[0] == '\\' && |s| > 1 {
        SegmentIsWhole(s[2..]);
        assert s[..k][2..] == s[2..][..k - 2];
      } else {
        SegmentIsWhole(s[1..]);
        assert s[..k][1..] == s[1..][..k - 1];
      }
    }
  }

  /** Every segment is a single id: splitting it again changes nothing. */
  lemma {:induction false} AlpnSegmentsStand(s: string, x: string)
    requires x in SplitAlpn(s)
    ensures SplitAlpn(x) == [x]
    decreases |s|
  {
    var k := SegmentLength(s);
    SegmentIsWhole(s);
    if k < |s| {
      if x != s[..k] {
        AlpnSegmentsStand(s[k + 1..], x);
      }
    }
  }

  /** Length of the run of backslashes that ends just before position i. */
  function BackslashRun(s: string, i: nat): nat
    requires i <= |s|
  {
    if i == 0 || s[i - 1] != '\\' then 0 else 1 + BackslashRun(s, i - 1)
  }

  /** A separator is a comma behind an even number of backslashes. */
  predicate SeparatorAt(s: string, i: nat)
    requires i < |s|
  {
    s[i] == ',' && BackslashRun(s, i) % 2 == 0
  }

  function SeparatorsFrom(s: string, i: nat): nat
    requires i <= |s|
    decreases |s| - i
  {
    if i == |s| then 0 else (if SeparatorAt(s, i) then 1 else 0) + SeparatorsFrom(s, i + 1)
  }

  /** Moving inside a segment does not change the number of segments. */
  lemma SameCount(s: string, i: nat, j: nat)
    requires i <= j <= |s| && SegmentLength(s[i..]) == j - i + SegmentLength(s[j..])
    ensures |SplitAlpn(s[i..])| == |SplitAlpn(s[j..])|
  {
    var e := j + SegmentLength(s[j..]);
    SplitFrom(s, i, e);
    SplitFrom(s, j, e);
  }

  /** Scanning from an unescaped position splits at exactly the separators. */
  lemma {:induction false} SegmentCountFrom(s: string, i: nat)
    requires i <= |s| && BackslashRun(s, i) % 2 == 0
    ensures |SplitAlpn(s[i..])| == 1 + SeparatorsFrom(s, i)
    decreases |s| - i
  {
    hide *;
    if i == |s| {
      NoneLeft(s);
    } else {
      CountStep(s, i);
      SegmentFrom(s, i);
      if s[i] == '\\' && i + 1 < |s| {
        EscapedPair(s, i);
        SegmentCountFrom(s, i + 2);
        SameCount(s, i, i + 2);
      } else if s[i] == ',' {
        SplitFrom(s, i, i);
        SegmentCountFrom(s, i + 1);
      } else if i + 1 == |s| {
        SplitFrom(s, i, i + 1);
      } else {
        SegmentCountFrom(s, i + 1);
        SameCount(s, i, i + 1);
      }
    }
  }

  lemma NoneLeft(s: string)
    ensures |SplitAlpn(s[|s|..])| == 1 && SeparatorsFrom(s, |s|) == 0
  {
    SplitFrom(s, |s|, |s|);
  }

  lemma CountStep(s: string, i: nat)
    requires i < |s| && BackslashRun(s, i) % 2 == 0
    ensures SeparatorsFrom(s, i) == (if s[i] == ',' then 1 else 0) + SeparatorsFrom(s, i + 1)
    ensures s[i] != '\\' ==> BackslashRun(s, i + 1) % 2 == 0
    ensures i + 1 == |s| ==> SeparatorsFrom(s, i + 1) == 0
  {
  }

  /** A backslash at an unescaped position hides the character after it. */
  lemma EscapedPair(s: string, i: nat)
    requires i + 1 < |s| && s[i] == '\\' && BackslashRun(s, i) % 2 == 0
    ensures BackslashRun(s, i + 2) % 2 == 0
    ensures SeparatorsFrom(s, i) == SeparatorsFrom(s, i + 2)
  {
    assert BackslashRun(s, i + 1) == 1 + BackslashRun(s, i);
    assert !SeparatorAt(s, i) && !SeparatorAt(s, i + 1);
    assert SeparatorsFrom(s, i + 1) == SeparatorsFrom(s, i + 2);
  }

  /** The number of ids is one more than the number of unescaped commas. */
  lemma AlpnSegmentCount(s: string)
    ensures |SplitAlpn(s)| == 1 + SeparatorsFrom(s, 0)
  {
    SegmentCountFrom(s, 0);
    assert s[0..] == s;
  }

  // ---- targets -------------------------------------------------------------

  function AsciiLower(s: string): string {
    seq(|s|, i requires 0 <= i < |s| => if 'A' <= s[i] <= 'Z' then (s[i] as int + 32) as char else s[i])
  }

  /** Ends in a dot that is not itself escaped. */
  predicate IsFqdn(s: string) {
    s != "" && s[|s| - 1] == '.' && BackslashRun(s, |s| - 1) % 2 == 0
  }

  /** dns.CanonicalName. */
  function CanonicalName(s: string): string {
    AsciiLower(if IsFqdn(s) then s else s + ".")
  }

  function EffectiveTarget(target: string, owner: string, serviceMode: bool): string {
    CanonicalName(if serviceMode && target == "." then owner else target)
  }

  // ---- matching ------------------------------------------------------------

  predicate ParamMatches(key: string, want: string, got: string) {
    if key != "alpn" then want == got
    else forall id :: id in SplitAlpn(want) ==> id in SplitAlpn(got)
  }

  predicate Matches(expected: Parsed, actual: Parsed, owner: string) {
    && expected.priority == actual.priority
    && EffectiveTarget(expected.target, owner, expected.priority != 0)
       == EffectiveTarget(actual.target, owner, expected.priority != 0)
    && forall k :: k in expected.params ==>
         k in actual.params && ParamMatches(k, expected.params[k], actual.params[k])
  }

  /** The record carries what is expected under k: the same value, or for alpn a
      list with at least the expected ids. */
  ghost predicate Advertises(r: Record, k: string, want: string) {
    exists v :: Param(k, v) in r.params &&
      if k == "alpn" then forall id :: id in SplitAlpn(want) ==> id in SplitAlpn(v) else v == want
  }

  /** A name without its final unescaped dot. */
  function Bare(s: string): string {
    if IsFqdn(s) then s[..|s| - 1] else s
  }

  /** Exactly n backslashes stand right before position i. */
  ghost predicate RunBefore(s: string, i: nat, n: nat)
    requires i <= |s|
  {
    n <= i && (forall j :: i - n <= j < i ==> s[j] == '\\') && (n < i ==> s[i - n - 1] != '\\')
  }

  lemma {:induction false} BackslashRunExactly(s: string, i: nat, n: nat)
    requires i <= |s|
    ensures BackslashRun(s, i) == n <==> RunBefore(s, i, n)
  {
    if i > 0 && s[i - 1] == '\\' && n > 0 {
      BackslashRunExactly(s, i - 1, n - 1);
    }
  }

  /** The final dot counts unless an odd number of backslashes stands before it. */
  lemma FqdnExactly(s: string)
    ensures IsFqdn(s) <==> s != "" && s[|s| - 1] == '.' && exists n: nat :: RunBefore(s, |s| - 1, 2 * n)
  {
    if s != "" {
      var run := BackslashRun(s, |s| - 1);
      BackslashRunExactly(s, |s| - 1, run);
      forall n: nat | RunBefore(s, |s| - 1, 2 * n) ensures run == 2 * n {
        BackslashRunExactly(s, |s| - 1, 2 * n);
      }
      if run % 2 == 0 {
        assert run == 2 * (run / 2);
      }
    }
  }

  ghost predicate SameLetter(x: char, y: char) {
    || x == y
    || ('A' <= x <= 'Z' && y as int - 'a' as int == x as int - 'A' as int)
    || ('A' <= y <= 'Z' && x as int - 'a' as int == y as int - 'A' as int)
  }

  ghost predicate SameLetters(x: string, y: string) {
    |x| == |y| && forall i :: 0 <= i < |x| ==> SameLetter(x[i], y[i])
  }

  lemma LowerAgrees(x: string, y: string)
    ensures AsciiLower(x) == AsciiLower(y) <==> SameLetters(x, y)
  {
    if AsciiLower(x) == AsciiLower(y) {
      assert |x| == |AsciiLower(x)| && |y| == |AsciiLower(y)|;
      forall i | 0 <= i < |x| ensures SameLetter(x[i], y[i]) {
        assert AsciiLower(x)[i] == AsciiLower(y)[i];
      }
    }
  }

  /** Names are compared without regard to ASCII case and to a final dot. */
  lemma CanonicalNamesAgree(a: string, b: string)
    ensures CanonicalName(a) == CanonicalName(b) <==> SameLetters(Bare(a), Bare(b))
  {
    LowerAgrees(Bare(a), Bare(b));
    hide IsFqdn, AsciiLower, SameLetters;
    CanonicalIsBare(a);
    CanonicalIsBare(b);
    var x, y := AsciiLower(Bare(a)), AsciiLower(Bare(b));
    assert (x + ".")[..|x|] == x && (y + ".")[..|y|] == y;
  }

  lemma CanonicalIsBare(a: string)
    ensures CanonicalName(a) == AsciiLower(Bare(a)) + "."
  {
    hide BackslashRun;
    assert IsFqdn(a) ==> a == Bare(a) + ".";
    assert AsciiLower(Bare(a) + ".") == AsciiLower(Bare(a)) + ".";
  }

  /** The two targets name the same host; in a service record "." is the owner. */
  ghost predicate SameTarget(t: string, u: string, owner: string, service: bool) {
    SameLetters(Bare(if service && t == "." then owner else t), Bare(if service && u == "." then owner else u))
  }

  /** The whole path from a live record to the verdict: format, parse and match
      accept exactly when the priority is the expected one, the targets name the same
      host and the record itself advertises every expected parameter: for alpn every
      expected id is among the record's ids, for any other key the value is equal. */
  lemma LiveRecordMatches(expected: Parsed, r: Record, owner: string)
    requires WellFormed(r)
    ensures Parse(Format(r)).Ok?
    ensures Matches(expected, Parse(Format(r)).value, owner) <==>
              && expected.priority == r.priority
              && SameTarget(expected.target, r.target, owner, r.priority != 0)
              && forall k :: k in expected.params ==> Advertises(r, k, expected.params[k])
  {
    FormatParses(r);
    var p := Parse(Format(r)).value;
    TargetsAgree(expected.target, r.target, owner, r.priority != 0);
    hide EffectiveTarget, SameTarget;
    forall k | k in expected.params
      ensures Advertises(r, k, expected.params[k]) <==>
                k in p.params && ParamMatches(k, expected.params[k], p.params[k])
    {
      if k in p.params {
        assert Param(k, p.params[k]) in r.params;
      }
    }
  }

  lemma TargetsAgree(t: string, u: string, owner: string, service: bool)
    ensures EffectiveTarget(t, owner, service) == EffectiveTarget(u, owner, service) <==>
              SameTarget(t, u, owner, service)
  {
    hide CanonicalName, SameLetters, Bare;
    CanonicalNamesAgree(if service && t == "." then owner else t, if service && u == "." then owner else u);
  }

  lemma MatchReflexive(p: Parsed, owner: string)
    ensures Matches(p, p, owner)
  {
  }

  /** For a fixed owner, matching is transitive. */
  lemma MatchTransitive(a: Parsed, b: Parsed, c: Parsed, owner: string)
    requires Matches(a, b, owner) && Matches(b, c, owner)
    ensures Matches(a, c, owner)
  {
    forall k | k in a.params ensures k in c.params && ParamMatches(k, a.params[k], c.params[k]) {
      assert k in b.params && ParamMatches(k, a.params[k], b.params[k]);
      assert k in c.params && ParamMatches(k, b.params[k], c.params[k]);
    }
  }

  /** Parameters added by coexisting specifications never break a match. */
  lemma ExtraParamsKeepMatch(expected: Parsed, actual: Parsed, extra: map<string, string>, owner: string)
    requires Matches(expected, actual, owner)
    requires actual.params.Keys !! extra.Keys
    ensures Matches(expected, actual.(params := actual.params + extra), owner)
  {
    MatchTransitive(expected, actual, actual.(params := actual.params + extra), owner);
  }

  /** In ServiceMode "." and the owner name are the same target, in either role;
      in AliasMode "." stands for itself. */
  lemma DotIsOwner(p: Parsed, owner: string)
    requires p.target == "."
    ensures p.priority != 0 ==> Matches(p, p.(target := owner), owner) && Matches(p.(target := owner), p, owner)
    ensures p.priority == 0 ==> (Matches(p, p.(target := owner), owner) <==> CanonicalName(owner) == ".")
  {
    assert BackslashRun(".", 0) == 0;
    assert AsciiLower(".") == ".";
  }

  // ---- exactly what is parsed ----------------------------------------------

  lemma FieldSays(f: string, k: string, v: string)
    ensures ParseField(f) == Param(k, v) <==>
              Free(k, '=') && (if Free(f, '=') then f == k && v == "" else f == k + "=" + v)
  {
    var eq := IndexOf(f, '=');
    if eq < |f| {
      Around(f, eq);
      assert !Free(f, '=') by { assert f[eq] == '='; }
      if f == k + "=" + v && Free(k, '=') {
        IndexOfSeparator(k, '=', v);
        assert f == k + ['='] + v && f[..|k|] == k && f[|k| + 1..] == v;
      }
    } else {
      assert f[..eq] == f;
    }
  }

  /** What the parameters of a value are: k has value v exactly when the last field
      that names k says so. A field without '=' names itself, with an empty value. */
  lemma {:induction false} ParamsExactly(fields: seq<string>, k: string, v: string)
    ensures k in ParamMap(fields) && ParamMap(fields)[k] == v <==>
              exists i :: 0 <= i < |fields| && ParseField(fields[i]) == Param(k, v) &&
                forall j :: i < j < |fields| ==> ParseField(fields[j]).key != k
  {
    hide ParseField;
    if fields != [] {
      var n := |fields| - 1;
      var front, last := fields[..n], ParseField(fields[n]);
      ParamsExactly(front, k, v);
      if last.key != k {
        if i :| 0 <= i < |front| && ParseField(front[i]) == Param(k, v) &&
                forall j :: i < j < |front| ==> ParseField(front[j]).key != k {
          assert ParseField(fields[i]) == Param(k, v);
          forall j | i < j < |fields| ensures ParseField(fields[j]).key != k {
            if j < n { assert fields[j] == front[j]; }
          }
        }
        if i :| 0 <= i < |fields| && ParseField(fields[i]) == Param(k, v) &&
                forall j :: i < j < |fields| ==> ParseField(fields[j]).key != k {
          assert i < n && front[i] == fields[i];
          forall j | i < j < |front| ensures ParseField(front[j]).key != k {
            assert fields[j] == front[j];
          }
        }
      }
    }
  }

  /** Which values parse: at least two fields, the first a signed 64-bit decimal. */
  lemma ParsesExactly(s: string, p: Parsed)
    ensures Parse(s) == Ok(p) <==>
              && |Fields(s)| >= 2 && Atoi(Fields(s)[0]) == Some(p.priority) && p.target == Fields(s)[1]
              && p.params == ParamMap(Fields(s)[2..])
  {
    hide Fields, Atoi, ParamMap;
  }

  /** A sign is read, and the range is that of a 64-bit int. */
  lemma AtoiSigned(t: string, n: nat)
    requires ParseNat(t) == Some(n)
    ensures Atoi(t) == (if n < 0x8000_0000_0000_0000 then Some(n) else None)
    ensures Atoi("+" + t) == (if n < 0x8000_0000_0000_0000 then Some(n) else None)
    ensures Atoi("-" + t) == (if n <= 0x8000_0000_0000_0000 then Some(0 - n) else None)
  {
    assert t != "" && IsDigit(t[0]);
    hide ParseNat;
    SignThenText('+', t);
    SignThenText('-', t);
  }

  lemma SignThenText(sign: char, t: string)
    ensures ([sign] + t)[0] == sign && ([sign] + t)[1..] == t
  {
  }

  /** The text is t with at most a sign before it, and t denotes the size of v. */
  ghost predicate Writes(s: string, v: int, t: string) {
    ParseNat(t).Some? &&
    var n := ParseNat(t).value;
    (v == n && (s == t || s == "+" + t)) || (v == 0 - n && s == "-" + t)
  }

  /** Nothing but an optional sign before decimal digits is a number. */
  lemma AtoiExactly(s: string, v: int)
    ensures Atoi(s) == Some(v) <==>
              -0x8000_0000_0000_0000 <= v < 0x8000_0000_0000_0000 && exists t :: Writes(s, v, t)
  {
    if Atoi(s) == Some(v) {
      var t := AtoiReads(s, v);
    }
    forall t | Writes(s, v, t) && -0x8000_0000_0000_0000 <= v < 0x8000_0000_0000_0000 ensures Atoi(s) == Some(v) {
      WrittenIsRead(s, v, t);
    }
  }

  lemma WrittenIsRead(s: string, v: int, t: string)
    requires Writes(s, v, t) && -0x8000_0000_0000_0000 <= v < 0x8000_0000_0000_0000
    ensures Atoi(s) == Some(v)
  {
    hide Atoi, ParseNat;
    AtoiSigned(t, ParseNat(t).value);
  }

  lemma AtoiReads(s: string, v: int) returns (t: string)
    requires Atoi(s) == Some(v)
    ensures -0x8000_0000_0000_0000 <= v < 0x8000_0000_0000_0000 && Writes(s, v, t)
  {
    hide ParseNat;
    t := s;
    if s != "" && (s[0] == '+' || s[0] == '-') {
      t := s[1..];
      assert s == [s[0]] + t;
    }
  }
}
