/** Locating ACDC credential frames in a CESR export: the brace-balancing
    scanner, the frame marker and the chain scan, against JSON's concrete syntax. */
module AcdcScan {
  import opened Prelude
  import opened Text
  import opened Sequences

  // ---- balancedJSONObject --------------------------------------------------

  datatype Scanner = Scanner(depth: int, inStr: bool, escaped: bool)

  const START: Scanner := Scanner(0, false, false)

  /** The scanner at this point closes a brace. */
  predicate Closes(a: Scanner, c: char) {
    !a.escaped && !a.inStr && c == '}'
  }

  function Eat(a: Scanner, c: char): Scanner {
    if a.escaped then a.(escaped := false)
    else if c == '\\' && a.inStr then a.(escaped := true)
    else if c == '"' then a.(inStr := !a.inStr)
    else if a.inStr then a
    else if c == '{' then a.(depth := a.depth + 1)
    else if c == '}' then a.(depth := a.depth - 1)
    else a
  }

  /** How many characters the scanner reads up to the brace that brings the depth
      to zero; None when the text ends first. */
  function Stop(a: Scanner, t: string): (r: Option<nat>)
    ensures r.Some? ==> 1 <= r.value <= |t|
    decreases |t|
  {
    if t == "" then None
    else if Closes(a, t[0]) && a.depth == 1 then Some(1)
    else match Stop(Eat(a, t[0]), t[1..])
      case None => None
      case Some(k) => Some(k + 1)
  }

  function Shift(r: Option<nat>, d: nat): Option<nat> {
    match r case None => None case Some(k) => Some(k + d)
  }

  /** Reading the character at i. */
  lemma StopFrom(a: Scanner, s: string, i: nat)
    requires i < |s|
    ensures Stop(a, s[i..]) ==
              if Closes(a, s[i]) && a.depth == 1 then Some(1) else Shift(Stop(Eat(a, s[i]), s[i + 1..]), 1)
  {
    assert s[i..][1..] == s[i + 1..];
  }

  lemma StopNowhere(a: Scanner, s: string)
    ensures Stop(a, s[|s|..]) == None
  {
  }

  /** The object beginning at start and the index past it, or "" and the end. */
  method BalancedJsonObject(s: string, start: nat) returns (obj: string, end: nat)
    requires start <= |s|
    ensures match Stop(START, s[start..])
            case None => obj == "" && end == |s|
            case Some(k) => obj == s[start..start + k] && end == start + k
  {
    hide Stop;
    var depth, inStr, escaped := 0, false, false;
    for i := start to |s|
      invariant Stop(START, s[start..]) == Shift(Stop(Scanner(depth, inStr, escaped), s[i..]), i - start)
    {
      var c := s[i];
      StopFrom(Scanner(depth, inStr, escaped), s, i);
      if escaped {
        escaped := false;
      } else if c == '\\' && inStr {
        escaped := true;
      } else if c == '"' {
        inStr := !inStr;
      } else if inStr {
      } else if c == '{' {
        depth := depth + 1;
      } else if c == '}' {
        depth := depth - 1;
        if depth == 0 {
          return s[start..i + 1], i + 1;
        }
      }
    }
    StopNowhere(Scanner(depth, inStr, escaped), s);
    return "", |s|;
  }

  // ---- JSON texts ----------------------------------------------------------

  /** One character of a string literal: itself, or a backslash escape. */
  datatype Piece = Raw(c: char) | Esc(c: char)

  /** A JSON text with all its white space; a scalar is a number or a word. */
  datatype Json =
    | Scalar(text: string)
    | Str(lit: seq<Piece>)
    | Arr(pad: string, elems: seq<Elem>)
    | Obj(pad: string, members: seq<Member>)

  datatype Elem = Elem(before: string, value: Json, after: string)

  datatype Member = Member(
    before: string, key: seq<Piece>, beforeColon: string, afterColon: string, value: Json, after: string)

  predicate JsonSpace(s: string) {
    forall i :: 0 <= i < |s| ==> s[i] == ' ' || s[i] == '\t' || s[i] == '\n' || s[i] == '\r'
  }

  predicate GoodLiteral(lit: seq<Piece>) {
    forall i :: 0 <= i < |lit| && lit[i].Raw? ==> lit[i].c != '"' && lit[i].c != '\\'
  }

  /** No quotes and no braces: the scanner passes over it. */
  predicate Plain(t: string) {
    forall i :: 0 <= i < |t| ==> t[i] != '"' && t[i] != '{' && t[i] != '}'
  }

  ghost predicate Good(j: Json)
    decreases j, 1
  {
    match j
    case Scalar(text) => Plain(text)
    case Str(lit) => GoodLiteral(lit)
    case Arr(pad, elems) => JsonSpace(pad) && GoodElems(elems)
    case Obj(pad, members) => JsonSpace(pad) && GoodMembers(members)
  }

  ghost predicate GoodElems(es: seq<Elem>)
    decreases es, 0
  {
    es == [] || (JsonSpace(es[0].before) && Good(es[0].value) && JsonSpace(es[0].after) && GoodElems(es[1..]))
  }

  ghost predicate GoodMembers(ms: seq<Member>)
    decreases ms, 0
  {
    ms == [] ||
    (&& JsonSpace(ms[0].before) && GoodLiteral(ms[0].key) && JsonSpace(ms[0].beforeColon)
     && JsonSpace(ms[0].afterColon) && Good(ms[0].value) && JsonSpace(ms[0].after) && GoodMembers(ms[1..]))
  }

  function PrintPieces(lit: seq<Piece>): string {
    if lit == [] then "" else
      (match lit[0] case Raw(c) => [c] case Esc(c) => ['\\', c]) + PrintPieces(lit[1..])
  }

  function PrintLiteral(lit: seq<Piece>): string {
    "\"" + PrintPieces(lit) + "\""
  }

  function Print(j: Json): string
    decreases j, 1
  {
    match j
    case Scalar(text) => text
    case Str(lit) => PrintLiteral(lit)
    case Arr(pad, elems) => "[" + pad + PrintElems(elems) + "]"
    case Obj(pad, members) => "{" + pad + PrintMembers(members) + "}"
  }

  function PrintElems(es: seq<Elem>): string
    decreases es, 0
  {
    if es == [] then "" else
      es[0].before + Print(es[0].value) + es[0].after + (if |es| > 1 then "," else "") + PrintElems(es[1..])
  }

  function PrintMember(m: Member): string
    decreases m, 0
  {
    m.before + PrintLiteral(m.key) + m.beforeColon + ":" + m.afterColon + Print(m.value) + m.after
  }

  function PrintMembers(ms: seq<Member>): string
    decreases ms, 0
  {
    if ms == [] then "" else PrintMember(ms[0]) + (if |ms| > 1 then "," else "") + PrintMembers(ms[1..])
  }

  // ---- the scanner on JSON -------------------------------------------------

  /** The scanner reads t from a to b without stopping. */
  ghost predicate Passes(a: Scanner, t: string, b: Scanner)
    decreases |t|
  {
    if t == "" then a == b
    else !(Closes(a, t[0]) && a.depth == 1) && Passes(Eat(a, t[0]), t[1..], b)
  }

  lemma {:induction false} PassesConcat(a: Scanner, t: string, b: Scanner, u: string, c: Scanner)
    requires Passes(a, t, b) && Passes(b, u, c)
    ensures Passes(a, t + u, c)
    decreases |t|
  {
    if t == "" {
      assert t + u == u;
    } else {
      PassesConcat(Eat(a, t[0]), t[1..], b, u, c);
      assert (t + u)[1..] == t[1..] + u;
    }
  }

  lemma {:induction false} StopAfter(a: Scanner, t: string, b: Scanner, u: string)
    requires Passes(a, t, b)
    ensures Stop(a, t + u) == match Stop(b, u) case None => None case Some(k) => Some(|t| + k)
    decreases |t|
  {
    if t == "" {
      assert t + u == u;
    } else {
      StopAfter(Eat(a, t[0]), t[1..], b, u);
      assert (t + u)[1..] == t[1..] + u;
    }
  }

  /** Outside strings at depth d. */
  function At(d: int): Scanner {
    Scanner(d, false, false)
  }

  lemma {:induction false} PassesPlain(d: int, t: string)
    requires Plain(t)
    ensures Passes(At(d), t, At(d))
    decreases |t|
  {
    if t != "" { PassesPlain(d, t[1..]); }
  }

  lemma {:induction false} PassesPieces(d: int, lit: seq<Piece>)
    requires GoodLiteral(lit)
    ensures Passes(Scanner(d, true, false), PrintPieces(lit), Scanner(d, true, false))
  {
    if lit != [] {
      PassesPieces(d, lit[1..]);
      var q := Scanner(d, true, false);
      match lit[0]
      case Raw(c) =>
        assert ([c] + PrintPieces(lit[1..]))[1..] == PrintPieces(lit[1..]);
      case Esc(c) =>
        var t := ['\\', c];
        assert t[1..] == [c] && [c][1..] == "";
        assert Passes(Eat(q, '\\'), [c], q);
        assert Passes(q, t, q);
        PassesConcat(q, t, q, PrintPieces(lit[1..]), q);
    }
  }

  lemma PassesLiteral(d: int, lit: seq<Piece>)
    requires GoodLiteral(lit)
    ensures Passes(At(d), PrintLiteral(lit), At(d))
  {
    var q := Scanner(d, true, false);
    PassesPieces(d, lit);
    PassesOne(At(d), '"', q);
    PassesOne(q, '"', At(d));
    PassesConcat(At(d), "\"", q, PrintPieces(lit), q);
    PassesConcat(At(d), "\"" + PrintPieces(lit), q, "\"", At(d));
  }

  lemma PassesOne(a: Scanner, c: char, b: Scanner)
    requires b == Eat(a, c) && !(Closes(a, c) && a.depth == 1)
    ensures Passes(a, [c], b)
  {
    assert [c][1..] == "";
  }

  /** Two neutral texts in a row are neutral. */
  lemma PassesBoth(d: int, t: string, u: string)
    requires Passes(At(d), t, At(d)) && Passes(At(d), u, At(d))
    ensures Passes(At(d), t + u, At(d))
  {
    PassesConcat(At(d), t, At(d), u, At(d));
  }

  /** Inside an object, the scanner passes over any JSON value and is back where
      it was: same depth, outside strings. */
  lemma {:induction false} PassesJson(d: int, j: Json)
    requires d >= 1 && Good(j)
    ensures Passes(At(d), Print(j), At(d))
    decreases j, 1
  {
    hide Passes;
    match j
    case Scalar(text) => PassesPlain(d, text);
    case Str(lit) => PassesLiteral(d, lit);
    case Arr(pad, elems) =>
      PassesElems(d, elems);
      PassesBrackets(d, pad, PrintElems(elems));
    case Obj(pad, members) =>
      PassesMembers(d + 1, members);
      PassesBraces(d, pad, PrintMembers(members));
  }

  lemma PassesBrackets(d: int, pad: string, inside: string)
    requires Plain(pad) && Passes(At(d), inside, At(d))
    ensures Passes(At(d), "[" + pad + inside + "]", At(d))
  {
    hide Passes;
    PassesPlain(d, "[" + pad);
    PassesPlain(d, "]");
    PassesBoth(d, "[" + pad, inside);
    PassesBoth(d, "[" + pad + inside, "]");
  }

  lemma PassesBraces(d: int, pad: string, inside: string)
    requires d >= 1 && Plain(pad) && Passes(At(d + 1), inside, At(d + 1))
    ensures Passes(At(d), "{" + pad + inside + "}", At(d))
  {
    hide Passes;
    PassesPlain(d + 1, pad);
    PassesBoth(d + 1, pad, inside);
    PassesOne(At(d), '{', At(d + 1));
    PassesOne(At(d + 1), '}', At(d));
    PassesConcat(At(d), "{", At(d + 1), pad + inside, At(d + 1));
    PassesConcat(At(d), "{" + (pad + inside), At(d + 1), "}", At(d));
    AppendAssoc("{", pad, inside);
  }

  lemma {:induction false} PassesElems(d: int, es: seq<Elem>)
    requires d >= 1 && GoodElems(es)
    ensures Passes(At(d), PrintElems(es), At(d))
    decreases es, 0
  {
    hide Passes;
    PassesPlain(d, "");
    if es != [] {
      var e := es[0];
      PassesJson(d, e.value);
      PassesElems(d, es[1..]);
      PassesPlain(d, e.before);
      PassesPlain(d, e.after);
      PassesPlain(d, if |es| > 1 then "," else "");
      PassesBoth(d, e.before, Print(e.value));
      PassesBoth(d, e.before + Print(e.value), e.after);
      PassesBoth(d, e.before + Print(e.value) + e.after, if |es| > 1 then "," else "");
      PassesBoth(d, e.before + Print(e.value) + e.after + (if |es| > 1 then "," else ""), PrintElems(es[1..]));
    }
  }

  lemma {:induction false} PassesMember(d: int, m: Member)
    requires d >= 1 && GoodMembers([m])
    ensures Passes(At(d), PrintMember(m), At(d))
    decreases m, 0
  {
    hide Passes;
    PassesJson(d, m.value);
    PassesLiteral(d, m.key);
    PassesPlain(d, m.before);
    PassesPlain(d, m.beforeColon);
    PassesPlain(d, ":");
    PassesPlain(d, m.afterColon);
    PassesPlain(d, m.after);
    var t := m.before + PrintLiteral(m.key);
    PassesBoth(d, m.before, PrintLiteral(m.key));
    PassesBoth(d, t, m.beforeColon);
    PassesBoth(d, t + m.beforeColon, ":");
    PassesBoth(d, t + m.beforeColon + ":", m.afterColon);
    PassesBoth(d, t + m.beforeColon + ":" + m.afterColon, Print(m.value));
    PassesBoth(d, t + m.beforeColon + ":" + m.afterColon + Print(m.value), m.after);
  }

  lemma {:induction false} PassesMembers(d: int, ms: seq<Member>)
    requires d >= 1 && GoodMembers(ms)
    ensures Passes(At(d), PrintMembers(ms), At(d))
    decreases ms, 0
  {
    hide Passes;
    PassesPlain(d, "");
    if ms != [] {
      assert GoodMembers([ms[0]]) by { assert [ms[0]][1..] == []; }
      PassesMember(d, ms[0]);
      PassesMembers(d, ms[1..]);
      PassesPlain(d, if |ms| > 1 then "," else "");
      PassesBoth(d, PrintMember(ms[0]), if |ms| > 1 then "," else "");
      PassesBoth(d, PrintMember(ms[0]) + (if |ms| > 1 then "," else ""), PrintMembers(ms[1..]));
    }
  }

  /** The scanner stops exactly at the closing brace of any JSON object, whatever
      nests in it and whatever follows it. */
  lemma StopsAtObject(j: Json, rest: string)
    requires j.Obj? && Good(j)
    ensures Stop(START, Print(j) + rest) == Some(|Print(j)|)
  {
    hide Passes, PrintMembers, Plain;
    var inside := j.pad + PrintMembers(j.members);
    PassesMembers(1, j.members);
    PassesPlain(1, j.pad);
    PassesBoth(1, j.pad, PrintMembers(j.members));
    PassesOne(START, '{', At(1));
    PassesConcat(START, "{", At(1), inside, At(1));
    StopAfter(START, "{" + inside, At(1), "}" + rest);
    assert Print(j) + rest == ("{" + inside) + ("}" + rest);
    assert ("}" + rest)[0] == '}' && Stop(At(1), "}" + rest) == Some(1);
  }

  // ---- the frame marker ----------------------------------------------------

  /** \s of the regular expression. */
  predicate MarkerSpace(c: char) {
    c == ' ' || c == '\t' || c == '\n' || c == '\r' || c == '\U{C}'
  }

  function SkipSpace(t: string): string {
    if t != "" && MarkerSpace(t[0]) then SkipSpace(t[1..]) else t
  }

  const VERSION_KEY: string := "\"v\""
  const VERSION_VALUE: string := "\"ACDC"

  /** The text after a prefix, if it has it. */
  function After(t: string, prefix: string): Option<string> {
    if prefix <= t then Some(t[|prefix|..]) else None
  }

  /** `{`, white space, `"v"`, white space, `:`, white space, `"ACDC`. */
  predicate Marker(t: string) {
    var a := After(t, "{");
    a.Some? &&
    var b := After(SkipSpace(a.value), VERSION_KEY);
    b.Some? &&
    var c := After(SkipSpace(b.value), ":");
    c.Some? && VERSION_VALUE <= SkipSpace(c.value)
  }

  /** FindStringIndex: the leftmost marker. */
  function FindMarker(t: string): (r: Option<nat>)
    ensures r.Some? ==> r.value < |t|
  {
    if t == "" then None
    else if Marker(t) then Some(0)
    else match FindMarker(t[1..])
      case None => None
      case Some(k) => Some(k + 1)
  }

  /** The objects scanACDCChain cuts out, in order; an object that does not close
      ends the scan. */
  function ScanObjects(t: string): seq<string>
    decreases |t|
  {
    match FindMarker(t)
    case None => []
    case Some(start) =>
      match Stop(START, t[start..])
      case None => []
      case Some(k) => [t[start..start + k]] + ScanObjects(t[start + k..])
  }

  lemma ScanStep(cesr: string, offset: nat, loc: Option<nat>)
    requires offset <= |cesr| && loc == FindMarker(cesr[offset..])
    ensures loc.None? ==> ScanObjects(cesr[offset..]) == []
    ensures loc.Some? ==>
              var start := offset + loc.value;
              match Stop(START, cesr[start..])
              case None => ScanObjects(cesr[offset..]) == []
              case Some(k) => ScanObjects(cesr[offset..]) == [cesr[start..start + k]] + ScanObjects(cesr[start + k..])
  {
    hide Stop, FindMarker;
    var rest := cesr[offset..];
    if loc.Some? {
      var start := offset + loc.value;
      assert rest[loc.value..] == cesr[start..];
      var stop := Stop(START, cesr[start..]);
      if stop.Some? {
        var k := stop.value;
        assert rest[loc.value..loc.value + k] == cesr[start..start + k];
        assert rest[loc.value + k..] == cesr[start + k..];
      }
    }
  }

  /** The scanning loop; `decode` parses an object into a frame, or rejects it. */
  method ScanChain<F>(cesr: string, decode: string -> Option<F>) returns (frames: seq<F>)
    ensures frames == FilterMap(decode, ScanObjects(cesr))
  {
    hide Stop, FindMarker, ScanObjects, FilterMap;
    ghost var visited: seq<string> := [];
    frames := [];
    NothingKept(decode);
    var offset := 0;
    assert cesr[0..] == cesr;
    while true
      invariant 0 <= offset <= |cesr|
      invariant ScanObjects(cesr) == visited + ScanObjects(cesr[offset..])
      invariant frames == FilterMap(decode, visited)
      decreases |cesr| - offset
    {
      var loc := FindMarker(cesr[offset..]);
      ScanStep(cesr, offset, loc);
      assert visited + [] == visited;
      if loc.None? {
        return;
      }
      var start := offset + loc.value;
      var obj, end := BalancedJsonObject(cesr, start);
      if obj == "" {
        return;
      }
      FilterMapSnoc(decode, visited, obj);
      visited := visited + [obj];
      offset := end;
      var frame := decode(obj);
      if frame.Some? {
        frames := frames + [frame.value];
      }
    }
  }

  // ---- the chain scan on interleaved objects -------------------------------

  /** A credential message: an object whose first member is "v": "ACDC...". */
  ghost predicate IsAcdc(j: Json) {
    && j.Obj? && Good(j) && j.members != []
    && var m := j.members[0];
       && m.key == [Raw('v')] && m.value.Str?
       && [Raw('A'), Raw('C'), Raw('D'), Raw('C')] <= m.value.lit
  }

  ghost predicate NoMarkerIn(gap: string) {
    forall i :: 0 <= i < |gap| ==> !Marker(gap[i..])
  }

  /** Attachment text and a credential after it. */
  datatype Segment = Segment(gap: string, credential: Json)

  function Interleave(segments: seq<Segment>, tail: string): string {
    if segments == [] then tail
    else segments[0].gap + (Print(segments[0].credential) + Interleave(segments[1..], tail))
  }

  function Credentials(segments: seq<Segment>): (ts: seq<string>)
    ensures |ts| == |segments|
  {
    seq(|segments|, i requires 0 <= i < |segments| => Print(segments[i].credential))
  }

  lemma {:induction false} SkipJsonSpace(pad: string, t: string)
    requires JsonSpace(pad) && t != "" && !MarkerSpace(t[0])
    ensures SkipSpace(pad + t) == t
  {
    if pad == "" {
      assert pad + t == t;
    } else {
      SkipJsonSpace(pad[1..], t);
      assert (pad + t)[1..] == pad[1..] + t;
    }
  }

  /** Any white space a serializer inserts is tolerated by the marker. */
  lemma MarkerAtCredential(j: Json, rest: string)
    requires IsAcdc(j)
    ensures Marker(Print(j) + rest)
  {
    var m := j.members[0];
    var x := PrintLiteral(m.value.lit) + Remainder(j, rest);
    var c := m.afterColon + x;
    var b := m.beforeColon + (":" + c);
    var a := j.pad + m.before + (VERSION_KEY + b);
    AcdcLiteral(m.value.lit);
    FirstMemberSpaces(j);
    CredentialText(j, rest);
    SkipJsonSpace(j.pad + m.before, VERSION_KEY + b);
    SkipJsonSpace(m.beforeColon, ":" + c);
    SkipJsonSpace(m.afterColon, x);
    assert ("{" + a)[1..] == a && (VERSION_KEY + b)[|VERSION_KEY|..] == b && (":" + c)[1..] == c;
  }

  lemma FirstMemberSpaces(j: Json)
    requires IsAcdc(j)
    ensures var m := j.members[0];
            JsonSpace(j.pad + m.before) && JsonSpace(m.beforeColon) && JsonSpace(m.afterColon)
    ensures PrintLiteral(j.members[0].key) == VERSION_KEY
  {
    assert GoodMembers(j.members);
    var m := j.members[0];
    assert JsonSpace(j.pad) && JsonSpace(m.before) && JsonSpace(m.beforeColon) && JsonSpace(m.afterColon);
    assert [Raw('v')][1..] == [];
  }

  /** What follows the first member's value. */
  function Remainder(j: Json, rest: string): string
    requires j.Obj? && j.members != []
  {
    j.members[0].after + ((if |j.members| > 1 then "," else "") + (PrintMembers(j.members[1..]) + ("}" + rest)))
  }

  lemma AcdcLiteral(lit: seq<Piece>)
    requires [Raw('A'), Raw('C'), Raw('D'), Raw('C')] <= lit
    ensures VERSION_VALUE <= PrintLiteral(lit)
  {
    var rest := PrintPieces(lit[4..]);
    assert lit[1..][1..] == lit[2..] && lit[2..][1..] == lit[3..] && lit[3..][1..] == lit[4..];
    assert PrintPieces(lit[3..]) == "C" + rest;
    assert PrintPieces(lit[2..]) == "DC" + rest;
    assert PrintPieces(lit[1..]) == "CDC" + rest;
    assert PrintPieces(lit) == "ACDC" + rest;
  }

  lemma MemberText(m: Member, tail: string)
    ensures PrintMember(m) + tail ==
              m.before + (PrintLiteral(m.key) + (m.beforeColon + (":" + (m.afterColon +
                (Print(m.value) + (m.after + tail))))))
  {
    hide Print, PrintLiteral;
    var k, v := PrintLiteral(m.key), Print(m.value);
    var m1 := m.before + k;
    var m2 := m1 + m.beforeColon;
    var m3 := m2 + ":";
    var m4 := m3 + m.afterColon;
    var m5 := m4 + v;
    AppendAssoc(m5, m.after, tail);
    AppendAssoc(m4, v, m.after + tail);
    AppendAssoc(m3, m.afterColon, v + (m.after + tail));
    AppendAssoc(m2, ":", m.afterColon + (v + (m.after + tail)));
    AppendAssoc(m1, m.beforeColon, ":" + (m.afterColon + (v + (m.after + tail))));
    AppendAssoc(m.before, k, m.beforeColon + (":" + (m.afterColon + (v + (m.after + tail)))));
  }

  lemma ObjectText(j: Json, rest: string)
    requires j.Obj? && j.members != []
    ensures Print(j) + rest ==
              "{" + (j.pad + (PrintMember(j.members[0]) +
              ((if |j.members| > 1 then "," else "") + (PrintMembers(j.members[1..]) + ("}" + rest)))))
  {
    hide PrintMember;
    var first, others := PrintMember(j.members[0]), PrintMembers(j.members[1..]);
    var sep := if |j.members| > 1 then "," else "";
    assert Print(j) == "{" + j.pad + PrintMembers(j.members) + "}";
    assert PrintMembers(j.members) == first + sep + others;
    AppendAssoc("{" + j.pad + (first + sep + others), "}", rest);
    AppendAssoc("{" + j.pad, first + sep + others, "}" + rest);
    AppendAssoc("{", j.pad, (first + sep + others) + ("}" + rest));
    AppendAssoc(first + sep, others, "}" + rest);
    AppendAssoc(first, sep, others + ("}" + rest));
  }

  lemma CredentialText(j: Json, rest: string)
    requires IsAcdc(j)
    ensures var m := j.members[0];
            Print(j) + rest ==
              "{" + (j.pad + m.before + (VERSION_KEY + (m.beforeColon + (":" + (m.afterColon +
              (PrintLiteral(m.value.lit) + Remainder(j, rest)))))))
  {
    var m := j.members[0];
    var tail := (if |j.members| > 1 then "," else "") + (PrintMembers(j.members[1..]) + ("}" + rest));
    FirstMemberSpaces(j);
    ObjectText(j, rest);
    MemberText(m, tail);
    assert Print(m.value) == PrintLiteral(m.value.lit);
    hide PrintLiteral, PrintMember, PrintMembers, Print;
    var value := PrintLiteral(m.value.lit) + (m.after + tail);
    AppendAssoc(j.pad, m.before, VERSION_KEY + (m.beforeColon + (":" + (m.afterColon + value))));
  }

  lemma {:induction false} SkipSpaceBefore(t: string, u: string)
    requires u != "" && !MarkerSpace(u[0])
    ensures SkipSpace(t + u) == SkipSpace(t) + u
  {
    if t == "" {
      assert t + u == u;
    } else {
      SkipSpaceBefore(t[1..], u);
      assert (t + u)[1..] == t[1..] + u;
    }
  }

  lemma PrefixIndex(p: string, s: string, i: nat)
    requires p <= s && i < |p|
    ensures p[i] == s[i]
  {
  }

  lemma PrefixOfFront(p: string, t: string, u: string)
    requires |p| <= |t|
    ensures p <= t + u <==> p <= t
    ensures (t + u)[|p|..] == t[|p|..] + u
  {
    assert (t + u)[..|p|] == t[..|p|];
  }

  /** A prefix without braces cannot reach into a text that starts with one. */
  lemma AfterBefore(t: string, u: string, prefix: string)
    requires u != "" && u[0] == '{' && Free(prefix, '{')
    ensures After(t + u, prefix) == match After(t, prefix) case None => None case Some(x) => Some(x + u)
  {
    if |prefix| <= |t| {
      PrefixOfFront(prefix, t, u);
    } else if prefix <= t + u {
      PrefixIndex(prefix, t + u, |t|);
    }
  }

  /** A marker cannot begin in a gap and end in the credential after it. */
  lemma MarkerDoesNotStraddle(t: string, u: string)
    requires t != "" && u != "" && u[0] == '{'
    ensures Marker(t + u) ==> Marker(t)
  {
    if Marker(t + u) {
      PrefixOfFront("{", t, u);
      var a := t[1..];
      SkipSpaceBefore(a, u);
      AfterBefore(SkipSpace(a), u, VERSION_KEY);
      var b := After(SkipSpace(a), VERSION_KEY).value;
      SkipSpaceBefore(b, u);
      AfterBefore(SkipSpace(b), u, ":");
      var c := After(SkipSpace(b), ":").value;
      SkipSpaceBefore(c, u);
      AfterBefore(SkipSpace(c), u, VERSION_VALUE);
    }
  }

  lemma {:induction false} FindAfterGap(gap: string, u: string)
    requires NoMarkerIn(gap) && u != "" && u[0] == '{' && Marker(u)
    ensures FindMarker(gap + u) == Some(|gap|)
  {
    hide Marker;
    if gap == "" {
      assert gap + u == u;
    } else {
      assert gap[0..] == gap;
      MarkerDoesNotStraddle(gap, u);
      assert (gap + u)[1..] == gap[1..] + u;
      forall i | 0 <= i < |gap[1..]| ensures !Marker(gap[1..][i..]) {
        assert gap[1..][i..] == gap[i + 1..];
      }
      FindAfterGap(gap[1..], u);
    }
  }

  lemma {:induction false} FindNothing(gap: string)
    requires NoMarkerIn(gap)
    ensures FindMarker(gap) == None
  {
    hide Marker;
    if gap != "" {
      assert gap[0..] == gap;
      forall i | 0 <= i < |gap[1..]| ensures !Marker(gap[1..][i..]) {
        assert gap[1..][i..] == gap[i + 1..];
      }
      FindNothing(gap[1..]);
    }
  }

  /** Main result: over any credentials separated by text without a frame marker,
      the scan visits exactly those credentials, whole and in order, whatever JSON
      they contain. */
  lemma {:induction false} ScanFindsCredentials(segments: seq<Segment>, tail: string)
    requires forall i :: 0 <= i < |segments| ==> IsAcdc(segments[i].credential) && NoMarkerIn(segments[i].gap)
    requires NoMarkerIn(tail)
    ensures ScanObjects(Interleave(segments, tail)) == Credentials(segments)
  {
    hide Marker, FindMarker, Stop, Print, IsAcdc, NoMarkerIn;
    var t := Interleave(segments, tail);
    if segments == [] {
      FindNothing(tail);
    } else {
      var gap, j, rest := segments[0].gap, segments[0].credential, Interleave(segments[1..], tail);
      var obj := Print(j);
      CredentialStarts(j, rest);
      FindAfterGap(gap, obj + rest);
      FirstSegment(segments, tail);
      Between(gap, obj, rest);
      ScanFindsCredentials(segments[1..], tail);
      assert Credentials(segments) == [obj] + Credentials(segments[1..]);
    }
  }

  lemma FirstSegment(segments: seq<Segment>, tail: string)
    requires segments != []
    ensures Interleave(segments, tail) ==
              segments[0].gap + (Print(segments[0].credential) + Interleave(segments[1..], tail))
  {
    hide Print;
  }

  lemma Between(gap: string, obj: string, rest: string)
    ensures var t := gap + (obj + rest);
            t[|gap|..] == obj + rest && t[|gap|..|gap| + |obj|] == obj && t[|gap| + |obj|..] == rest
  {
  }

  lemma CredentialStarts(j: Json, rest: string)
    requires IsAcdc(j)
    ensures Print(j) != "" && (Print(j) + rest)[0] == '{' && Marker(Print(j) + rest)
    ensures Stop(START, Print(j) + rest) == Some(|Print(j)|)
  {
    hide Marker, Stop;
    MarkerAtCredential(j, rest);
    StopsAtObject(j, rest);
  }

  // ---- exactly what is a marker --------------------------------------------

  /** White space as the marker's pattern has it. */
  ghost predicate Gap(w: string) {
    forall i :: 0 <= i < |w| ==> w[i] in {' ', '\t', '\n', '\r', '\U{C}'}
  }

  lemma {:induction false} SkipGap(w: string, t: string)
    requires Gap(w) && t != "" && !MarkerSpace(t[0])
    ensures SkipSpace(w + t) == t
  {
    if w == "" {
      assert w + t == t;
    } else {
      SkipGap(w[1..], t);
      assert (w + t)[1..] == w[1..] + t;
    }
  }

  lemma {:induction false} SkippedGap(t: string) returns (w: string)
    ensures Gap(w) && t == w + SkipSpace(t)
  {
    w := "";
    if t != "" && MarkerSpace(t[0]) {
      var w' := SkippedGap(t[1..]);
      w := [t[0]] + w';
    }
  }

  ghost predicate MarkerText(t: string, w: seq<string>, rest: string) {
    && |w| == 3 && Gap(w[0]) && Gap(w[1]) && Gap(w[2])
    && t == "{" + (w[0] + ("\"v\"" + (w[1] + (":" + (w[2] + ("\"ACDC" + rest))))))
  }

  /** Where a credential begins: a brace, the key v, a colon and a value beginning
      with ACDC, with white space between them only. */
  lemma MarkerExactly(t: string)
    ensures Marker(t) <==> exists w, rest :: MarkerText(t, w, rest)
  {
    if Marker(t) {
      var a := t[1..];
      var w0 := SkippedGap(a);
      var b := SkipSpace(a)[3..];
      var w1 := SkippedGap(b);
      var c := SkipSpace(b)[1..];
      var w2 := SkippedGap(c);
      var rest := SkipSpace(c)[5..];
      assert SkipSpace(c) == "\"ACDC" + rest;
      assert SkipSpace(b) == ":" + c;
      assert SkipSpace(a) == "\"v\"" + b;
      assert t == "{" + a;
      assert MarkerText(t, [w0, w1, w2], rest);
    }
    forall w, rest | MarkerText(t, w, rest) ensures Marker(t) {
      TextIsMarker(t, w, rest);
    }
  }

  lemma AfterPrefix(prefix: string, rest: string)
    ensures After(prefix + rest, prefix) == Some(rest)
  {
    assert (prefix + rest)[|prefix|..] == rest;
  }

  lemma TextIsMarker(t: string, w: seq<string>, rest: string)
    requires MarkerText(t, w, rest)
    ensures Marker(t)
  {
    var value := "\"ACDC" + rest;
    var colon := ":" + (w[2] + value);
    var key := "\"v\"" + (w[1] + colon);
    AfterPrefix("{", w[0] + key);
    AfterPrefix(VERSION_KEY, w[1] + colon);
    AfterPrefix(":", w[2] + value);
    AfterPrefix(VERSION_VALUE, rest);
    SkipGap(w[0], key);
    SkipGap(w[1], colon);
    SkipGap(w[2], value);
  }
}
