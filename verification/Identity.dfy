/** Identifier canonicalization and did:web resolution URLs. */
module Identifier {
  import opened Prelude
  import opened Text

  datatype Kind = DidWeb | DidKey | Lei

  datatype Inferred = Inferred(kind: Kind, canonical: string)

  const DID_WEB: string := "did:web:"
  const DID_KEY: string := "did:key:"

  predicate IsLabelChar(c: char) {
    'a' <= c <= 'z' || '0' <= c <= '9' || c == '-'
  }

  predicate ValidLabel(l: string) {
    0 < |l| <= 63 && l[0] != '-' && l[|l| - 1] != '-' && forall i :: 0 <= i < |l| ==> IsLabelChar(l[i])
  }

  /** validateDNSHost. */
  predicate ValidDnsHost(host: string) {
    0 < |host| <= 253 && forall l :: l in Split(host, '.') ==> ValidLabel(l)
  }

  predicate ValidPathSegment(seg: string) {
    seg != "" && seg != "." && seg != ".." &&
    forall i :: 0 <= i < |seg| ==> ' ' <= seg[i] && seg[i] != '\U{7F}'
  }

  /** Host and path of a did:web value. */
  datatype DidWebParts = DidWebParts(host: string, path: seq<string>)

  function Compose(p: DidWebParts): string {
    DID_WEB + Join([p.host] + p.path, ':')
  }

  predicate PathsValid(path: seq<string>) {
    forall i :: 0 <= i < |path| ==> ValidPathSegment(path[i])
  }

  function FromSegments(segments: seq<string>): Result<string>
    requires segments != []
  {
    var p := DidWebParts(ToLower(segments[0]), segments[1..]);
    if ValidDnsHost(p.host) && PathsValid(p.path) then Ok(Compose(p)) else Err("DID_BAD_FORMAT")
  }

  predicate PlainText(s: string) {
    Free(s, '%') && Free(s, '@') && Free(s, '/')
  }

  function CanonicalizeDidWeb(value: string): Result<string>
    requires DID_WEB <= value
  {
    var rest := value[|DID_WEB|..];
    if rest == "" || !PlainText(rest) then Err("DID_BAD_FORMAT") else FromSegments(Split(rest, ':'))
  }

  predicate IsLei(value: string) {
    |value| == 20 && forall i :: 0 <= i < |value| ==> IsAlphanumeric(value[i])
  }

  function UpperChar(c: char): char {
    if 'a' <= c <= 'z' then (c as int - 32) as char else c
  }

  function ToUpper(s: string): (t: string)
    ensures |t| == |s| && forall i :: 0 <= i < |s| ==> t[i] == UpperChar(s[i])
  {
    seq(|s|, i requires 0 <= i < |s| => UpperChar(s[i]))
  }

  /** InferIdentifierKind. */
  function Infer(raw: string): Result<Inferred> {
    var value := TrimSpace(raw);
    if DID_WEB <= value then
      match CanonicalizeDidWeb(value)
      case Err(e) => Err(e)
      case Ok(canonical) => Ok(Inferred(DidWeb, canonical))
    else if DID_KEY <= value then
      if |value| <= |DID_KEY| then Err("DID_BAD_FORMAT") else Ok(Inferred(DidKey, value))
    else if IsLei(value) then Ok(Inferred(Lei, ToUpper(value)))
    else Err("IDENTIFIER_KIND_UNSUPPORTED")
  }

  // ---- the shape of canonical did:web values -------------------------------

  ghost predicate CanonicalParts(p: DidWebParts) {
    ValidDnsHost(p.host) && PathsValid(p.path) && AllFree(p.path, ':') &&
    forall i :: 0 <= i < |p.path| ==> PlainText(p.path[i])
  }

  lemma HostChars(host: string, i: nat)
    requires ValidDnsHost(host) && i < |host|
    ensures IsLabelChar(host[i]) || host[i] == '.'
  {
    var labels := Split(host, '.');
    JoinOfSplit(host, '.');
    JoinChars(labels, '.', i);
    if host[i] != '.' {
      var k, j :| 0 <= k < |labels| && 0 <= j < |labels[k]| && host[i] == labels[k][j];
      assert labels[k] in labels;
    }
  }

  lemma LowerHost(host: string)
    requires ValidDnsHost(host)
    ensures host != "" && ToLower(host) == host && Free(host, ':') && PlainText(host) && SpaceFree(host)
  {
    forall i | 0 <= i < |host|
      ensures LowerChar(host[i]) == host[i] && host[i] !in {':', '/', '%', '@'} && !IsSpace(host[i])
    {
      HostChars(host, i);
    }
  }

  lemma PlainJoin(parts: seq<string>)
    requires forall i :: 0 <= i < |parts| ==> PlainText(parts[i])
    ensures PlainText(Join(parts, ':'))
  {
    JoinKeepsFree(parts, ':', '%');
    JoinKeepsFree(parts, ':', '@');
    JoinKeepsFree(parts, ':', '/');
  }

  lemma PlainSplit(s: string)
    requires PlainText(s)
    ensures forall i :: 0 <= i < |Split(s, ':')| ==> PlainText(Split(s, ':')[i])
  {
    SplitKeepsFree(s, ':', '%');
    SplitKeepsFree(s, ':', '@');
    SplitKeepsFree(s, ':', '/');
  }

  /** Canonical parts print to a value that infers to itself. */
  lemma ComposeIsFixed(p: DidWebParts)
    requires CanonicalParts(p) && Trimmed(Compose(p))
    ensures Infer(Compose(p)) == Ok(Inferred(DidWeb, Compose(p)))
  {
    hide ValidDnsHost, PathsValid, PlainText, Split, Join, ToLower, ToUpper, IsLei;
    var parts := [p.host] + p.path;
    var rest := Join(parts, ':');
    assert DID_WEB <= Compose(p) && Compose(p)[|DID_WEB|..] == rest;
    LowerHost(p.host);
    PlainJoin(parts);
    SplitOfJoin(parts, ':');
    SplitFree("", ':');
    assert parts[1..] == p.path;
    assert DidWebParts(ToLower(parts[0]), parts[1..]) == p;
  }

  /** A did:web value that infers has canonical parts, and its canonical form is
      their print. */
  lemma InferredParts(raw: string) returns (p: DidWebParts)
    requires Infer(raw).Ok? && Infer(raw).value.kind.DidWeb?
    ensures CanonicalParts(p) && Infer(raw).value.canonical == Compose(p) && Trimmed(Compose(p))
  {
    hide ValidDnsHost, PathsValid, PlainText, Split, Join, ToLower, ToUpper, IsLei, TrimSpace;
    var value := TrimSpace(raw);
    var rest := value[|DID_WEB|..];
    var segments := Split(rest, ':');
    p := DidWebParts(ToLower(segments[0]), segments[1..]);
    SplitParts(rest, ':');
    PlainSplit(rest);
    TrimmedCompose(value, p);
  }

  lemma TrimmedCompose(value: string, p: DidWebParts)
    requires Trimmed(value) && DID_WEB <= value && value != DID_WEB
    requires var segments := Split(value[|DID_WEB|..], ':');
             p == DidWebParts(ToLower(segments[0]), segments[1..])
    requires CanonicalParts(p)
    ensures Trimmed(Compose(p))
  {
    hide Split, Join, ValidDnsHost, PlainText;
    var rest := value[|DID_WEB|..];
    var segments, parts := Split(rest, ':'), [p.host] + p.path;
    LowerHost(p.host);
    JoinOfSplit(rest, ':');
    JoinLast(parts, ':');
    if p.path != [] {
      JoinLast(segments, ':');
      assert segments[|segments| - 1] == parts[|parts| - 1];
    }
  }

  lemma LeiIsFixed(value: string)
    requires IsLei(value)
    ensures Infer(ToUpper(value)) == Ok(Inferred(Lei, ToUpper(value)))
  {
    hide CanonicalizeDidWeb, TrimSpace;
    var u := ToUpper(value);
    assert IsLei(u) by {
      forall i | 0 <= i < |u| ensures IsAlphanumeric(u[i]) {}
    }
    assert IsAlphanumeric(u[0]) && IsAlphanumeric(u[19]) && Trimmed(u);
    assert IsAlphanumeric(u[3]) && u[3] != ':';
    assert DID_WEB[3] == ':' && DID_KEY[3] == ':';
    assert !(DID_WEB <= u) && !(DID_KEY <= u);
    assert ToUpper(u) == u;
  }

  /** Canonicalization is idempotent: what Infer returns, Infer leaves alone. */
  lemma CanonicalIsFixed(raw: string)
    requires Infer(raw).Ok?
    ensures Infer(Infer(raw).value.canonical) == Infer(raw)
  {
    if Infer(raw).value.kind.DidWeb? {
      var p := InferredParts(raw);
      ComposeIsFixed(p);
    } else if Infer(raw).value.kind.Lei? {
      LeiIsFixed(TrimSpace(raw));
    }
  }

  // ---- resolution URLs -----------------------------------------------------

  function ResolutionUrl(canonical: string): Result<string> {
    if !(DID_WEB <= canonical) then Err("DID_BAD_FORMAT") else
      var segments := Split(canonical[|DID_WEB|..], ':');
      if segments[0] == "" then Err("DID_BAD_FORMAT")
      else if |segments| == 1 then Ok("https://" + segments[0] + "/.well-known/did.json")
      else Ok("https://" + segments[0] + "/" + Join(segments[1..], '/') + "/did.json")
  }

  /** The path segments of the document, the well-known default included. */
  function DocumentPath(p: DidWebParts): seq<string> {
    if p.path == [] then [".well-known"] else p.path
  }

  function UrlParts(p: DidWebParts): seq<string> {
    [p.host] + DocumentPath(p) + ["did.json"]
  }

  lemma UrlText(host: string, path: seq<string>)
    requires path != []
    ensures Join([host] + path + ["did.json"], '/') == host + "/" + Join(path, '/') + "/did.json"
  {
    JoinConcat([host] + path, ["did.json"], '/');
    JoinConcat([host], path, '/');
    assert Join(["did.json"], '/') == "did.json" && Join([host], '/') == host;
    assert host + "/" + Join(path, '/') + "/" + "did.json" == host + "/" + Join(path, '/') + "/did.json";
  }

  lemma UrlOfParts(p: DidWebParts)
    requires CanonicalParts(p)
    ensures ResolutionUrl(Compose(p)) == Ok("https://" + Join(UrlParts(p), '/'))
  {
    hide ValidDnsHost, PathsValid, PlainText, Split, Join, ToLower, ToUpper, IsLei;
    var parts := [p.host] + p.path;
    LowerHost(p.host);
    assert Compose(p)[|DID_WEB|..] == Join(parts, ':');
    SplitOfJoin(parts, ':');
    assert parts[1..] == p.path;
    UrlText(p.host, DocumentPath(p));
    JoinOne(".well-known", '/');
    assert "https://" + (p.host + "/" + ".well-known" + "/did.json") == "https://" + p.host + "/.well-known/did.json";
    assert "https://" + (p.host + "/" + Join(p.path, '/') + "/did.json")
        == "https://" + p.host + "/" + Join(p.path, '/') + "/did.json";
  }

  lemma UrlPartsFree(p: DidWebParts)
    requires CanonicalParts(p)
    ensures AllFree(UrlParts(p), '/')
  {
    LowerHost(p.host);
  }

  /** Two canonical values resolve at one URL exactly when they are the same
      value, or the pair `host` and `host:.well-known`. */
  lemma UrlsCollideOnlyAtWellKnown(p: DidWebParts, q: DidWebParts)
    requires CanonicalParts(p) && CanonicalParts(q)
    ensures ResolutionUrl(Compose(p)) == ResolutionUrl(Compose(q)) <==>
              || Compose(p) == Compose(q)
              || (p.host == q.host && {p.path, q.path} == {[], [".well-known"]})
  {
    hide ValidDnsHost, PathsValid, PlainText, Join, ResolutionUrl;
    UrlOfParts(p);
    UrlOfParts(q);
    UrlPartsFree(p);
    UrlPartsFree(q);
    JoinInjective(UrlParts(p), UrlParts(q), '/');
    var x, y := "https://" + Join(UrlParts(p), '/'), "https://" + Join(UrlParts(q), '/');
    assert x[8..] == Join(UrlParts(p), '/') && y[8..] == Join(UrlParts(q), '/');
    LowerHost(p.host);
    LowerHost(q.host);
    JoinInjective([p.host] + p.path, [q.host] + q.path, ':');
    assert Compose(p)[8..] == Join([p.host] + p.path, ':') && Compose(q)[8..] == Join([q.host] + q.path, ':');
    PartsDecide(p, q);
  }

  lemma PartsDecide(p: DidWebParts, q: DidWebParts)
    ensures [p.host] + p.path == [q.host] + q.path <==> p == q
    ensures UrlParts(p) == UrlParts(q) <==>
              p == q || (p.host == q.host && {p.path, q.path} == {[], [".well-known"]})
  {
    assert ([p.host] + p.path)[1..] == p.path && ([q.host] + q.path)[1..] == q.path;
    var u, v := UrlParts(p), UrlParts(q);
    assert u[1..|u| - 1] == DocumentPath(p) && v[1..|v| - 1] == DocumentPath(q);
    if p.host == q.host && {p.path, q.path} == {[], [".well-known"]} {
      assert p.path in {[], [".well-known"]} && q.path in {[], [".well-known"]};
    }
  }

  // ---- exactly what is accepted --------------------------------------------

  /** Dot-separated labels of 1 to 63 lower-case letters, digits and inner hyphens,
      253 characters in all. */
  ghost predicate DnsName(host: string) {
    |host| <= 253 && exists labels :: IsNameOf(host, labels)
  }

  ghost predicate IsNameOf(host: string, labels: seq<string>) {
    && labels != [] && host == Join(labels, '.')
    && forall i :: 0 <= i < |labels| ==>
         && 1 <= |labels[i]| <= 63 && labels[i][0] != '-' && labels[i][|labels[i]| - 1] != '-'
         && forall j :: 0 <= j < |labels[i]| ==>
              var x := labels[i][j]; 'a' <= x <= 'z' || '0' <= x <= '9' || x == '-'
  }

  lemma DnsNameExactly(host: string)
    ensures ValidDnsHost(host) <==> DnsName(host)
  {
    hide Split, Join;
    if ValidDnsHost(host) {
      JoinOfSplit(host, '.');
      var labels := Split(host, '.');
      forall i | 0 <= i < |labels| ensures ValidLabel(labels[i]) { assert labels[i] in labels; }
      assert IsNameOf(host, labels);
    }
    if DnsName(host) {
      var labels :| IsNameOf(host, labels);
      SplitOfJoin(labels, '.');
      NotEmptyJoin(labels);
    }
  }

  lemma NotEmptyJoin(labels: seq<string>)
    requires labels != [] && labels[0] != ""
    ensures Join(labels, '.') != ""
  {
  }

  /** A path segment: not empty, no dot segment, no control character, and none of the
      characters with a meaning in the value or the URL. */
  ghost predicate PathSegment(seg: string) {
    && seg != "" && seg != "." && seg != ".."
    && forall i :: 0 <= i < |seg| ==>
         seg[i] as int >= 0x20 && seg[i] as int != 0x7F && seg[i] !in {':', '%', '@', '/'}
  }

  ghost predicate AllSegments(path: seq<string>) {
    forall i :: 0 <= i < |path| ==> PathSegment(path[i])
  }

  /** What a did:web value is: the prefix, a host that lower-cases to a DNS name, and
      path segments, with colons between; the canonical form lower-cases the host. */
  lemma DidWebExactly(raw: string, canonical: string)
    ensures Infer(raw) == Ok(Inferred(DidWeb, canonical)) <==>
              exists host, path ::
                && TrimSpace(raw) == "did:web:" + Join([host] + path, ':') && Free(host, ':')
                && DnsName(ToLower(host)) && AllSegments(path)
                && canonical == "did:web:" + Join([ToLower(host)] + path, ':')
  {
    hide ValidDnsHost, TrimSpace, ToLower, Join, Split, DnsName, IsLei, ToUpper;
    if Infer(raw) == Ok(Inferred(DidWeb, canonical)) {
      var value := TrimSpace(raw);
      var rest := value[|DID_WEB|..];
      var segments := Split(rest, ':');
      JoinOfSplit(rest, ':');
      SplitParts(rest, ':');
      PlainSplit(rest);
      DnsNameExactly(ToLower(segments[0]));
      assert segments == [segments[0]] + segments[1..] && value == DID_WEB + rest;
      SegmentsAreFree(segments[1..]);
    }
    forall host, path | && TrimSpace(raw) == "did:web:" + Join([host] + path, ':') && Free(host, ':')
                        && DnsName(ToLower(host)) && AllSegments(path)
      ensures Infer(raw) == Ok(Inferred(DidWeb, "did:web:" + Join([ToLower(host)] + path, ':')))
    {
      DidWebParses(raw, host, path);
    }
  }

  lemma SegmentsAreFree(path: seq<string>)
    requires PathsValid(path) && AllFree(path, ':')
    requires forall i :: 0 <= i < |path| ==> PlainText(path[i])
    ensures AllSegments(path)
  {
  }

  lemma DidWebParses(raw: string, host: string, path: seq<string>)
    requires TrimSpace(raw) == "did:web:" + Join([host] + path, ':') && Free(host, ':')
    requires DnsName(ToLower(host)) && AllSegments(path)
    ensures Infer(raw) == Ok(Inferred(DidWeb, "did:web:" + Join([ToLower(host)] + path, ':')))
  {
    DnsNameExactly(ToLower(host));
    LowerHost(ToLower(host));
    PlainUnlowered(host);
    SegmentsAreValid(path);
    hide ValidDnsHost, TrimSpace, ToLower, Join, DnsName, IsLei, ToUpper, PathsValid, AllSegments, PlainText,
      CanonicalizeDidWeb;
    CanonicalizeParts(host, path);
  }

  lemma CanonicalizeParts(host: string, path: seq<string>)
    requires host != "" && PlainText(host) && Free(host, ':') && ValidDnsHost(ToLower(host))
    requires PathsValid(path) && AllFree(path, ':') && forall i :: 0 <= i < |path| ==> PlainText(path[i])
    ensures CanonicalizeDidWeb("did:web:" + Join([host] + path, ':')) ==
              Ok("did:web:" + Join([ToLower(host)] + path, ':'))
  {
    hide ValidDnsHost, ToLower, Join, Split, PathsValid, PlainText;
    var parts := [host] + path;
    PlainJoin(parts);
    SplitOfJoin(parts, ':');
    assert ("did:web:" + Join(parts, ':'))[|DID_WEB|..] == Join(parts, ':') && parts[1..] == path;
    NonEmptyHead(host, path);
  }

  lemma NonEmptyHead(host: string, path: seq<string>)
    requires host != ""
    ensures Join([host] + path, ':') != ""
  {
  }

  lemma PlainUnlowered(host: string)
    requires PlainText(ToLower(host)) && ToLower(host) != ""
    ensures PlainText(host) && host != ""
  {
    forall i | 0 <= i < |host| ensures host[i] !in {'%', '@', '/'} {
      assert ToLower(host)[i] == LowerChar(host[i]);
    }
  }

  lemma SegmentsAreValid(path: seq<string>)
    requires AllSegments(path)
    ensures PathsValid(path) && AllFree(path, ':') && forall i :: 0 <= i < |path| ==> PlainText(path[i])
  {
  }

  ghost predicate CapitalOf(x: char, y: char) {
    if 'a' <= x <= 'z' then y as int - 'A' as int == x as int - 'a' as int else y == x
  }

  /** What the other two kinds are: any non-empty did:key value as it is, and twenty
      letters and digits in upper case. Everything else is refused. */
  lemma OtherKindsExactly(raw: string, canonical: string)
    ensures var value := TrimSpace(raw);
            && (Infer(raw) == Ok(Inferred(DidKey, canonical)) <==>
                  "did:key:" <= value && |value| > 8 && canonical == value)
            && (Infer(raw) == Ok(Inferred(Lei, canonical)) <==>
                  && |value| == |canonical| == 20
                  && forall i :: 0 <= i < 20 ==> IsAlphanumeric(value[i]) && CapitalOf(value[i], canonical[i]))
  {
    hide TrimSpace, CanonicalizeDidWeb;
    var value := TrimSpace(raw);
    assert |canonical| == |value| && (forall i :: 0 <= i < |value| ==> canonical[i] == UpperChar(value[i])) ==>
      canonical == ToUpper(value);
    assert DID_WEB[3] == ':' && DID_KEY[3] == ':' && DID_WEB[4] != DID_KEY[4];
    if DID_WEB <= value || DID_KEY <= value {
      assert value[3] == ':';
    }
  }
}
