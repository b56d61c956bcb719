/** Semantic versions and ANS names: ans://v{MAJOR.MINOR.PATCH}.{agentHost}. */
module AnsName {
  import opened Prelude
  import opened Text
  import Radix
  import opened Sequences

  const MAX_INT: nat := 0x7FFF_FFFF_FFFF_FFFF

  /** Go's int on 64 bits, and the range of a version component. */
  type Int = n: int | -0x8000_0000_0000_0000 <= n <= MAX_INT

  type Component = n: nat | n <= MAX_INT

  /** The fields are private: a version comes from NewSemVer or ParseSemVer. */
  datatype SemVer = SemVer(major: Component, minor: Component, patch: Component)
  {
    predicate IsZero() {
      major == 0 && minor == 0 && patch == 0
    }
  }

  function NewSemVer(major: Int, minor: Int, patch: Int): Result<SemVer> {
    if major < 0 || minor < 0 || patch < 0 then Err("INVALID_SEMVER") else Ok(SemVer(major, minor, patch))
  }

  datatype Name = Name(version: SemVer, host: string)

  function VersionText(v: SemVer): string {
    Itoa(v.major) + "." + Itoa(v.minor) + "." + Itoa(v.patch)
  }

  /** The number a component denotes. */
  function Number(s: string): nat
    requires CanonicalDecimal(s)
  {
    ItoaOfParse(s);
    ParseNat(s).value
  }

  /** strconv.Atoi with its range error ignored: a huge component saturates. */
  function ToComponent(s: string): Component
    requires CanonicalDecimal(s)
  {
    if Number(s) > MAX_INT then MAX_INT else Number(s)
  }

  function ParseSemVer(s: string): Result<SemVer> {
    var parts := Split(s, '.');
    if |parts| == 3 && CanonicalDecimal(parts[0]) && CanonicalDecimal(parts[1]) && CanonicalDecimal(parts[2])
    then Ok(SemVer(ToComponent(parts[0]), ToComponent(parts[1]), ToComponent(parts[2])))
    else Err("MALFORMED_SEMVER")
  }

  // ---- hosts ---------------------------------------------------------------

  /** RFC 1123 label. */
  predicate ValidLabel(l: string) {
    1 <= |l| <= 63 && IsAlphanumeric(l[0]) && IsAlphanumeric(l[|l| - 1]) &&
    forall i :: 0 <= i < |l| ==> IsAlphanumeric(l[i]) || l[i] == '-'
  }

  /** A dotted quad, the only IP literal whose characters a hostname allows. */
  predicate IsIpv4(host: string) {
    var parts := Split(host, '.');
    |parts| == 4 && forall p :: p in parts ==> CanonicalDecimal(p) && |p| <= 3 && ParseNat(p).value <= 255
  }

  predicate ValidHost(host: string) {
    && 0 < |host| <= 253 && !IsIpv4(host)
    && var labels := Split(host, '.');
       |labels| >= 2 && forall l :: l in labels ==> ValidLabel(l)
  }

  function NewName(version: SemVer, agentHost: string): Result<Name> {
    var host := ToLower(TrimSpace(agentHost));
    if ValidHost(host) then Ok(Name(version, host)) else Err("INVALID_AGENT_HOST")
  }

  // ---- printing and parsing ------------------------------------------------

  const PREFIX: string := "ans://"

  function NameText(n: Name): string {
    PREFIX + "v" + VersionText(n.version) + "." + n.host
  }

  /** Index of the n-th dot. */
  function NthDot(s: string, n: nat): (r: Option<nat>)
    requires n >= 1
    ensures r.Some? ==> r.value < |s| && s[r.value] == '.'
    decreases n
  {
    var k := IndexOf(s, '.');
    if k == |s| then None
    else if n == 1 then Some(k)
    else match NthDot(s[k + 1..], n - 1)
      case None => None
      case Some(j) => Some(k + 1 + j)
  }

  function Shift(r: Option<nat>, d: nat): Option<nat> {
    match r case None => None case Some(k) => Some(k + d)
  }

  /** Counting past a dot-free prefix and its dot. */
  lemma NthDotAfter(a: string, rest: string, n: nat)
    requires n >= 1 && Free(a, '.')
    ensures NthDot(a + "." + rest, n) == if n == 1 then Some(|a|) else Shift(NthDot(rest, n - 1), |a| + 1)
  {
    var s := a + "." + rest;
    assert s == a + ['.'] + rest;
    IndexOfSeparator(a, '.', rest);
    assert s[|a| + 1..] == rest;
  }

  lemma NoDot(s: string, n: nat)
    requires n >= 1 && Free(s, '.')
    ensures NthDot(s, n) == None
  {
  }

  lemma DotFrom(s: string, from: nat, i: nat, n: nat)
    requires n >= 1 && from <= i < |s| && s[i] == '.' && Free(s[from..i], '.')
    ensures NthDot(s[from..], n) == if n == 1 then Some(i - from) else Shift(NthDot(s[i + 1..], n - 1), i - from + 1)
  {
    hide NthDot;
    assert s[from..] == s[from..i] + "." + s[i + 1..];
    NthDotAfter(s[from..i], s[i + 1..], n);
  }

  /** The dot-counting loop of ParseAnsName. */
  method FindThirdDot(s: string) returns (r: Option<nat>)
    ensures r == NthDot(s, 3)
  {
    hide NthDot, IndexOf;
    var dots, from := 0, 0;
    assert s[0..] == s;
    for i := 0 to |s|
      invariant 0 <= dots < 3 && 0 <= from <= i
      invariant Free(s[from..i], '.')
      invariant NthDot(s, 3) == Shift(NthDot(s[from..], 3 - dots), from)
    {
      if s[i] == '.' {
        DotFrom(s, from, i, 3 - dots);
        dots := dots + 1;
        if dots == 3 {
          return Some(i);
        }
        from := i + 1;
      } else {
        assert s[from..i + 1] == s[from..i] + [s[i]];
      }
    }
    assert s[from..|s|] == s[from..];
    NoDot(s[from..], 3 - dots);
    return None;
  }

  function ParseName(text: string): Result<Name> {
    var s := TrimSpace(text);
    if !(PREFIX <= s) then Err("INVALID_ANS_PROTOCOL") else
      var rest := s[|PREFIX|..];
      if rest == "" || rest[0] != 'v' then Err("INVALID_ANS_VERSION") else
        ParseVersioned(rest[1..])
  }

  function ParseVersioned(rest: string): Result<Name> {
    match NthDot(rest, 3)
    case None => Err("MALFORMED_ANS_NAME")
    case Some(k) =>
      if k + 1 >= |rest| then Err("MALFORMED_ANS_NAME") else
        match ParseSemVer(rest[..k])
        case Err(_) => Err("INVALID_ANS_VERSION")
        case Ok(v) => NewName(v, rest[k + 1..])
  }

  // ---- round trip ----------------------------------------------------------

  lemma HostChars(host: string, i: nat)
    requires ValidHost(host) && i < |host|
    ensures IsAlphanumeric(host[i]) || host[i] == '-' || host[i] == '.'
  {
    var labels := Split(host, '.');
    JoinOfSplit(host, '.');
    JoinChars(labels, '.', i);
    if host[i] != '.' {
      var k, j :| 0 <= k < |labels| && 0 <= j < |labels[k]| && host[i] == labels[k][j];
      assert labels[k] in labels;
    }
  }

  lemma HostIsClean(host: string)
    requires ValidHost(host)
    ensures SpaceFree(host)
  {
    forall i | 0 <= i < |host| ensures !IsSpace(host[i]) {
      HostChars(host, i);
    }
  }

  /** A host NewName accepted is accepted again unchanged. */
  lemma NewNameIsFixed(version: SemVer, agentHost: string)
    requires NewName(version, agentHost).Ok?
    ensures var host := NewName(version, agentHost).value.host;
            && ValidHost(host) && SpaceFree(host) && NewName(version, agentHost) == Ok(Name(version, host))
            && forall v :: NewName(v, host) == Ok(Name(v, host))
  {
    hide ValidHost;
    var host := NewName(version, agentHost).value.host;
    HostIsClean(host);
    ToLowerIdempotent(TrimSpace(agentHost));
  }

  lemma DecimalIsDotFree(s: string)
    requires CanonicalDecimal(s)
    ensures Free(s, '.')
  {
  }

  /** The third dot ends a dotted triple. */
  lemma ThreeDots(a: string, b: string, c: string, rest: string)
    requires Free(a, '.') && Free(b, '.') && Free(c, '.')
    ensures NthDot((a + "." + b + "." + c) + "." + rest, 3) == Some(|a + "." + b + "." + c|)
  {
    hide NthDot;
    var tail := c + "." + rest;
    assert (a + "." + b + "." + c) + "." + rest == a + "." + (b + "." + tail);
    NthDotAfter(a, b + "." + tail, 3);
    NthDotAfter(b, tail, 2);
    NthDotAfter(c, rest, 1);
  }

  lemma ComponentOfItoa(n: Component)
    ensures ToComponent(Itoa(n)) == n && Free(Itoa(n), '.')
  {
    ParseOfItoa(n);
    DecimalIsDotFree(Itoa(n));
  }

  /** Parsing undoes printing for every version. */
  lemma SemVerRoundTrip(v: SemVer)
    ensures ParseSemVer(VersionText(v)) == Ok(v)
  {
    hide ToComponent, Itoa, Split, CanonicalDecimal;
    ComponentOfItoa(v.major);
    ComponentOfItoa(v.minor);
    ComponentOfItoa(v.patch);
    ThreeSegments(Itoa(v.major), Itoa(v.minor), Itoa(v.patch));
  }

  /** A version is built exactly from non-negative components, and its text is read
      back to the same three numbers. */
  lemma NewSemVerExactly(major: Int, minor: Int, patch: Int)
    ensures NewSemVer(major, minor, patch).Ok? <==> major >= 0 && minor >= 0 && patch >= 0
    ensures NewSemVer(major, minor, patch).Ok? ==>
              var v := NewSemVer(major, minor, patch).value;
              ParseSemVer(VersionText(v)) == Ok(v) && v.major == major && v.minor == minor && v.patch == patch
  {
    if NewSemVer(major, minor, patch).Ok? {
      SemVerRoundTrip(NewSemVer(major, minor, patch).value);
    }
  }

  lemma PrintedVersioned(version: SemVer, host: string)
    requires host != ""
    ensures ParseVersioned(VersionText(version) + "." + host) == NewName(version, host)
  {
    hide NewName, ParseSemVer, NthDot, Itoa;
    SemVerRoundTrip(version);
    ComponentOfItoa(version.major);
    ComponentOfItoa(version.minor);
    ComponentOfItoa(version.patch);
    ThreeDots(Itoa(version.major), Itoa(version.minor), Itoa(version.patch), host);
    var text := VersionText(version);
    var rest := text + "." + host;
    assert rest[..|text|] == text && rest[|text| + 1..] == host;
  }

  lemma PrintedName(n: Name)
    requires n.host != "" && SpaceFree(n.host)
    ensures ParseName(NameText(n)) == ParseVersioned(VersionText(n.version) + "." + n.host)
  {
    hide VersionText, ParseVersioned;
    TextIsTrimmed(n);
    var text, rest := NameText(n), VersionText(n.version) + "." + n.host;
    assert text[|PREFIX|..] == "v" + rest && ("v" + rest)[1..] == rest;
  }

  /** ParseAnsName undoes String for every name NewAnsName builds. */
  lemma NameRoundTrip(version: SemVer, agentHost: string)
    requires NewName(version, agentHost).Ok?
    ensures ParseName(NameText(NewName(version, agentHost).value)) == NewName(version, agentHost)
  {
    hide NewName, ValidHost, ParseSemVer, VersionText, ParseVersioned, ParseName, NameText;
    var n := NewName(version, agentHost).value;
    NewNameIsFixed(version, agentHost);
    HostNotEmpty(n.host);
    PrintedName(n);
    PrintedVersioned(version, n.host);
  }

  lemma HostNotEmpty(host: string)
    requires ValidHost(host)
    ensures host != ""
  {
  }

  lemma TextIsTrimmed(n: Name)
    requires n.host != "" && SpaceFree(n.host)
    ensures Trimmed(NameText(n)) && PREFIX <= NameText(n)
  {
    hide VersionText;
    var t := NameText(n);
    assert t[0] == 'a' && t[|t| - 1] == n.host[|n.host| - 1];
  }

  /** Names as the constructors build them. */
  ghost predicate ProperName(n: Name) {
    NewName(n.version, n.host) == Ok(n)
  }

  /** Printed names are unique. */
  lemma NamesPrintUniquely(m: Name, n: Name)
    requires ProperName(m) && ProperName(n)
    ensures NameText(m) == NameText(n) <==> m == n
  {
    hide NewName, ParseName, NameText;
    NameRoundTrip(m.version, m.host);
    NameRoundTrip(n.version, n.host);
  }

  lemma VersionsPrintUniquely(v: SemVer, w: SemVer)
    ensures VersionText(v) == VersionText(w) <==> v == w
  {
    hide VersionText;
    SemVerRoundTrip(v);
    SemVerRoundTrip(w);
  }

  // ---- printing what was parsed --------------------------------------------

  /** The pieces of a name as written. */
  datatype Written = Written(major: string, minor: string, patch: string, host: string)
  {
    predicate Numeric() {
      CanonicalDecimal(major) && CanonicalDecimal(minor) && CanonicalDecimal(patch)
    }

    function Version(): string {
      major + "." + minor + "." + patch
    }

    function Text(): string {
      PREFIX + "v" + Version() + "." + host
    }

    /** Every component fits Go's int. */
    predicate InRange()
      requires Numeric()
    {
      Number(major) <= MAX_INT && Number(minor) <= MAX_INT && Number(patch) <= MAX_INT
    }

    function Read(): SemVer
      requires Numeric()
    {
      SemVer(ToComponent(major), ToComponent(minor), ToComponent(patch))
    }
  }

  lemma ComponentPrints(s: string)
    requires CanonicalDecimal(s)
    ensures Itoa(ToComponent(s)) == s <==> Number(s) <= MAX_INT
  {
    ItoaOfParse(s);
    ItoaInjective(ToComponent(s), Number(s));
  }

  /** A version text is its version's print exactly when no component overflowed. */
  lemma VersionPrints(w: Written)
    requires w.Numeric()
    ensures VersionText(w.Read()) == w.Version() <==> w.InRange()
  {
    hide Itoa, ToComponent, Number, CanonicalDecimal, Split;
    var v := w.Read();
    ComponentPrints(w.major);
    ComponentPrints(w.minor);
    ComponentPrints(w.patch);
    DecimalIsDotFree(w.major);
    DecimalIsDotFree(w.minor);
    DecimalIsDotFree(w.patch);
    ComponentOfItoa(v.major);
    ComponentOfItoa(v.minor);
    ComponentOfItoa(v.patch);
    ThreeSegments(w.major, w.minor, w.patch);
    ThreeSegments(Itoa(v.major), Itoa(v.minor), Itoa(v.patch));
  }

  /** A text that parses is, but for the white space around it, a written name. */
  lemma ParsedPieces(s: string) returns (w: Written)
    requires ParseName(s).Ok?
    ensures w.Numeric() && TrimSpace(s) == w.Text() && NewName(w.Read(), w.host) == ParseName(s)
  {
    hide ParseVersioned, TrimSpace, NewName, CanonicalDecimal, ToComponent;
    var t := TrimSpace(s);
    var rest := t[|PREFIX|..][1..];
    w := VersionedPieces(rest);
    WrittenText(w);
    assert t[|PREFIX|..] == "v" + rest;
    assert t == PREFIX + t[|PREFIX|..];
  }

  lemma WrittenText(w: Written)
    ensures w.Text() == PREFIX + ("v" + (w.Version() + "." + w.host))
  {
  }

  lemma VersionedPieces(rest: string) returns (w: Written)
    requires ParseVersioned(rest).Ok?
    ensures w.Numeric() && rest == w.Version() + "." + w.host
    ensures NewName(w.Read(), w.host) == ParseVersioned(rest)
  {
    hide NewName, CanonicalDecimal, ToComponent, Split, NthDot;
    var k := NthDot(rest, 3).value;
    var parts := Split(rest[..k], '.');
    w := Written(parts[0], parts[1], parts[2], rest[k + 1..]);
    JoinOfSplit(rest[..k], '.');
    JoinThree(parts[0], parts[1], parts[2]);
    assert parts == [parts[0], parts[1], parts[2]];
    assert rest == rest[..k] + "." + rest[k + 1..];
  }

  /** String gives a parsed text back exactly when nothing in it was normalised
      away: no white space around the name or its host, no upper-case host, and no
      component beyond Go's int. The last condition is the code's own: ParseSemVer
      drops Atoi's range error. */
  lemma PrintOfParse(s: string) returns (w: Written)
    requires ParseName(s).Ok?
    ensures w.Numeric() && TrimSpace(s) == w.Text()
    ensures NameText(ParseName(s).value) == s <==>
              s == TrimSpace(s) && w.host == ToLower(TrimSpace(w.host)) && w.InRange()
  {
    w := ParsedPieces(s);
    var n := ParseName(s).value;
    assert n.version == w.Read() && n.host == ToLower(TrimSpace(w.host));
    NewNameIsFixed(w.Read(), w.host);
    HostNotEmpty(n.host);
    VersionPrints(w);
    PrintIsWritten(n, w);
    TextIsTrimmed(n);
  }

  /** A print is a written text exactly when versions and hosts agree. */
  lemma PrintIsWritten(n: Name, w: Written)
    requires w.Numeric()
    ensures NameText(n) == w.Text() <==> VersionText(n.version) == w.Version() && n.host == w.host
  {
    hide Itoa, NthDot, CanonicalDecimal;
    var v := n.version;
    ComponentOfItoa(v.major);
    ComponentOfItoa(v.minor);
    ComponentOfItoa(v.patch);
    DecimalIsDotFree(w.major);
    DecimalIsDotFree(w.minor);
    DecimalIsDotFree(w.patch);
    ThreeDots(Itoa(v.major), Itoa(v.minor), Itoa(v.patch), n.host);
    ThreeDots(w.major, w.minor, w.patch, w.host);
    var a, b := VersionText(v) + "." + n.host, w.Version() + "." + w.host;
    assert NameText(n) == (PREFIX + "v") + a && w.Text() == (PREFIX + "v") + b;
    if NameText(n) == w.Text() {
      assert a == NameText(n)[|PREFIX| + 1..] && b == w.Text()[|PREFIX| + 1..];
      assert a[..|VersionText(v)|] == VersionText(v) && b[..|w.Version()|] == w.Version();
      assert a[|VersionText(v)| + 1..] == n.host && b[|w.Version()| + 1..] == w.host;
    }
  }

  /** Every written name with a well-formed host parses, overflowing or not. */
  lemma WrittenParses(w: Written)
    requires w.Numeric() && ValidHost(w.host)
    ensures ParseName(w.Text()) == NewName(w.Read(), w.host)
  {
    hide NewName, ValidHost, CanonicalDecimal, ToComponent, ParseVersioned, IsSpace, TrimSpace;
    HostNotEmpty(w.host);
    WrittenIsTrimmed(w);
    WrittenText(w);
    WrittenVersioned(w);
    var t, rest := w.Text(), w.Version() + "." + w.host;
    assert t[|PREFIX|..] == "v" + rest && ("v" + rest)[1..] == rest;
  }

  lemma WrittenIsTrimmed(w: Written)
    requires ValidHost(w.host)
    ensures Trimmed(w.Text())
  {
    HostIsClean(w.host);
    HostNotEmpty(w.host);
    hide ValidHost;
    var t := w.Text();
    assert t[0] == 'a' && t[|t| - 1] == w.host[|w.host| - 1];
  }

  lemma WrittenVersioned(w: Written)
    requires w.Numeric() && w.host != ""
    ensures ParseVersioned(w.Version() + "." + w.host) == NewName(w.Read(), w.host)
  {
    hide NewName, CanonicalDecimal, ToComponent, NthDot, Split;
    DecimalIsDotFree(w.major);
    DecimalIsDotFree(w.minor);
    DecimalIsDotFree(w.patch);
    ThreeDots(w.major, w.minor, w.patch, w.host);
    ThreeSegments(w.major, w.minor, w.patch);
    var rest := w.Version() + "." + w.host;
    assert rest[..|w.Version()|] == w.Version() && rest[|w.Version()| + 1..] == w.host;
  }

  lemma ZeroNumber()
    ensures CanonicalDecimal("0") && Number("0") == 0
  {
    ParseOfItoa(0);
  }

  /** 9223372036854775808, one above Go's largest int. */
  const TOO_BIG: string := "922" + "3372" + "0368" + "5477" + "5808"

  predicate AllDigits(s: string) {
    forall i :: 0 <= i < |s| ==> IsDigit(s[i])
  }

  function Amount(s: string): nat
    requires AllDigits(s)
  {
    Radix.Value(DigitsOf(s), 10)
  }

  lemma OneMoreDigit(s: string, c: char)
    requires AllDigits(s) && IsDigit(c)
    ensures AllDigits(s + [c]) && Amount(s + [c]) == Amount(s) * 10 + DigitValue(c)
  {
    assert DigitsOf(s + [c])[..|s|] == DigitsOf(s);
  }

  /** A block of four digits, and its number. */
  ghost predicate Block(t: string, n: nat) {
    |t| == 4 && AllDigits(t) &&
    n == DigitValue(t[0]) * 1000 + DigitValue(t[1]) * 100 + DigitValue(t[2]) * 10 + DigitValue(t[3])
  }

  lemma OneMoreBlock(s: string, t: string, n: nat)
    requires AllDigits(s) && Block(t, n)
    ensures AllDigits(s + t) && Amount(s + t) == Amount(s) * 10000 + n
  {
    hide Amount, DigitsOf;
    OneMoreDigit(s, t[0]);
    OneMoreDigit(s + [t[0]], t[1]);
    OneMoreDigit(s + [t[0]] + [t[1]], t[2]);
    OneMoreDigit(s + [t[0]] + [t[1]] + [t[2]], t[3]);
    assert s + t == s + [t[0]] + [t[1]] + [t[2]] + [t[3]];
  }

  lemma FirstDigits()
    ensures AllDigits("922") && Amount("922") == 922
  {
    assert Amount("") == 0 && AllDigits("");
    hide Amount, DigitsOf, AllDigits;
    OneMoreDigit("", '9');
    OneMoreDigit("" + ['9'], '2');
    OneMoreDigit("" + ['9'] + ['2'], '2');
    assert "922" == "" + ['9'] + ['2'] + ['2'];
  }

  lemma Blocks()
    ensures Block("3372", 3372) && Block("0368", 368) && Block("5477", 5477) && Block("5808", 5808)
  {
  }

  lemma TooBigNumber()
    ensures CanonicalDecimal(TOO_BIG) && Number(TOO_BIG) == MAX_INT + 1
  {
    hide AllDigits, Amount, Block, CanonicalDecimal, Number;
    FirstDigits();
    Blocks();
    OneMoreBlock("922", "3372", 3372);
    OneMoreBlock("922" + "3372", "0368", 368);
    OneMoreBlock("922" + "3372" + "0368", "5477", 5477);
    OneMoreBlock("922" + "3372" + "0368" + "5477", "5808", 5808);
    TooBigIsNumber();
  }

  lemma TooBigIsNumber()
    requires AllDigits(TOO_BIG)
    ensures CanonicalDecimal(TOO_BIG) && Number(TOO_BIG) == Amount(TOO_BIG)
  {
    assert TOO_BIG[0] == '9';
  }

  /** The failing input: version 9223372036854775808.0.0 is read as
      9223372036854775807.0.0, so two different names parse to one. */
  lemma OverflowSaturates(host: string)
    requires ValidHost(host) && ToLower(host) == host
    ensures var s := Written(TOO_BIG, "0", "0", host).Text();
            && ParseName(s) == Ok(Name(SemVer(MAX_INT, 0, 0), host))
            && NameText(ParseName(s).value) != s
            && ParseName(NameText(ParseName(s).value)) == ParseName(s)
  {
    hide CanonicalDecimal, Number, ValidHost, NameText, ParseName, NewName, VersionText;
    var w := Written(TOO_BIG, "0", "0", host);
    TooBigNumber();
    ZeroNumber();
    FixedHost(w.Read(), host);
    WrittenParses(w);
    NameRoundTrip(w.Read(), host);
    VersionPrints(w);
    PrintIsWritten(Name(w.Read(), host), w);
  }

  lemma FixedHost(v: SemVer, host: string)
    requires ValidHost(host) && ToLower(host) == host
    ensures NewName(v, host) == Ok(Name(v, host))
  {
    hide ValidHost, TrimSpace;
    HostIsClean(host);
  }

  // ---- exactly which hosts are accepted ------------------------------------

  /** A label of RFC 1123: 1 to 63 letters, digits and inner hyphens. */
  ghost predicate HostLabel(l: string) {
    && 1 <= |l| <= 63 && l[0] != '-' && l[|l| - 1] != '-'
    && forall i :: 0 <= i < |l| ==>
         'a' <= l[i] <= 'z' || 'A' <= l[i] <= 'Z' || '0' <= l[i] <= '9' || l[i] == '-'
  }

  /** A number from 0 to 255 without leading zeros. */
  ghost predicate Octet(l: string) {
    exists n: nat :: n <= 255 && l == Itoa(n)
  }

  ghost predicate HostOf(host: string, labels: seq<string>) {
    && host == Join(labels, '.') && |labels| >= 2 && (forall i :: 0 <= i < |labels| ==> HostLabel(labels[i]))
    && !(|labels| == 4 && forall i :: 0 <= i < 4 ==> Octet(labels[i]))
  }

  /** Which hosts a name can have: two labels or more, 253 characters at most, and not
      an IPv4 address, after trimming and lower-casing. */
  lemma HostAcceptedExactly(version: SemVer, agentHost: string)
    ensures var host := ToLower(TrimSpace(agentHost));
            NewName(version, agentHost).Ok? <==> |host| <= 253 && exists labels :: HostOf(host, labels)
  {
    hide TrimSpace, ToLower, Split, Join;
    var host := ToLower(TrimSpace(agentHost));
    var parts := Split(host, '.');
    JoinOfSplit(host, '.');
    QuadExactly(parts);
    if ValidHost(host) {
      forall i | 0 <= i < |parts| ensures HostLabel(parts[i]) { assert parts[i] in parts; }
      assert HostOf(host, parts);
    }
    if labels :| HostOf(host, labels) {
      SplitOfJoin(labels, '.');
      forall l | l in labels ensures ValidLabel(l) { var i :| 0 <= i < |labels| && labels[i] == l; }
      HostLongEnough(labels);
    }
  }

  lemma HostLongEnough(labels: seq<string>)
    requires |labels| >= 1 && HostLabel(labels[0])
    ensures Join(labels, '.') != ""
  {
  }

  lemma QuadExactly(parts: seq<string>)
    ensures (|parts| == 4 && forall p :: p in parts ==>
               CanonicalDecimal(p) && |p| <= 3 && ParseNat(p).value <= 255) <==>
              (|parts| == 4 && forall i :: 0 <= i < 4 ==> Octet(parts[i]))
  {
    forall l ensures CanonicalDecimal(l) && |l| <= 3 && ParseNat(l).value <= 255 <==> Octet(l) { OctetExactly(l); }
    hide CanonicalDecimal, Octet, ParseNat;
    if |parts| == 4 {
      assert forall i :: 0 <= i < 4 ==> parts[i] in parts;
    }
  }

  lemma OctetExactly(l: string)
    ensures CanonicalDecimal(l) && |l| <= 3 && ParseNat(l).value <= 255 <==> Octet(l)
  {
    if CanonicalDecimal(l) {
      ItoaOfParse(l);
    }
    if n: nat :| n <= 255 && l == Itoa(n) {
      ParseOfItoa(n);
      ShortDecimal(n);
    }
  }

  lemma ShortDecimal(n: nat)
    requires n <= 255
    ensures |Itoa(n)| <= 3
  {
    if n > 0 {
      Radix.DigitCount(n, 10, 3);
      assert Radix.Power(10, 3) == 1000;
    }
  }
}
