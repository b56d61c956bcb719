/** C2SP signed notes (golang.org/x/mod/sumdb/note framing) and the
    tlog-checkpoint body: the printer the format defines, and the parser and
    verifier of internal/lognote. */
module LogNote {
  import opened Prelude
  import opened Text
  import opened Sequences
  import P1363
  import Radix

  const TWO_TO_64: nat := 0x1_0000_0000_0000_0000

  /** Standard base64. */
  datatype Base64 = Base64(encode: seq<byte> -> string, decode: string -> Option<seq<byte>>)

  ghost predicate Lawful(c: Base64) {
    && (forall b :: c.decode(c.encode(b)) == Some(b))
    && (forall b :: SpaceFree(c.encode(b)))
    && (forall b :: c.encode(b) == "" <==> b == [])
  }

  datatype Signature = Signature(name: string, raw: string, blob: seq<byte>)

  datatype Checkpoint = Checkpoint(origin: string, size: nat, rootHash: seq<byte>)

  // ---- the format ----------------------------------------------------------

  /** Lines, each ended by a newline. */
  function Block(lines: seq<string>): string {
    if lines == [] then "" else lines[0] + "\n" + Block(lines[1..])
  }

  const DASH: string := "\U{2014} "

  function PrintLine(c: Base64, name: string, blob: seq<byte>): string {
    DASH + name + " " + c.encode(blob)
  }

  /** Body, blank line, signature lines. */
  function PrintNote(body: string, lines: seq<string>): string {
    body + "\n" + Block(lines)
  }

  /** What the framing signs: any text that ends in a newline. */
  ghost predicate IsBody(body: string) {
    body != "" && body[|body| - 1] == '\n'
  }

  predicate BreakAt(s: string, i: nat)
    requires i + 1 < |s|
  {
    s[i] == '\n' && s[i + 1] == '\n'
  }

  /** No blank line inside. */
  predicate Unbroken(s: string) {
    forall i :: 0 <= i < |s| - 1 ==> !BreakAt(s, i)
  }

  function CheckpointLines(c: Base64, cp: Checkpoint, extensions: seq<string>): seq<string> {
    [cp.origin, Itoa(cp.size), c.encode(cp.rootHash)] + extensions
  }

  ghost predicate NonBlankLines(lines: seq<string>) {
    forall i :: 0 <= i < |lines| ==> lines[i] != "" && Free(lines[i], '\n')
  }

  // ---- the parser ----------------------------------------------------------

  /** bytes.Index(raw, "\n\n"). */
  function SepIndex(raw: string): Option<nat> {
    if |raw| < 2 then None
    else if raw[0] == '\n' && raw[1] == '\n' then Some(0)
    else match SepIndex(raw[1..])
      case None => None
      case Some(k) => Some(k + 1)
  }

  function LastIndexOf(s: string, c: char): (r: Option<nat>)
    ensures r.Some? ==> r.value < |s| && s[r.value] == c
  {
    if s == "" then None
    else if s[|s| - 1] == c then Some(|s| - 1)
    else LastIndexOf(s[..|s| - 1], c)
  }

  function ParseSignatureLine(c: Base64, line: string): Option<Signature> {
    var t := TrimSpace(line);
    if !(DASH <= t) then None else ParseNameAndBlob(c, t[|DASH|..])
  }

  function ParseNameAndBlob(c: Base64, rest: string): Option<Signature> {
    match LastIndexOf(rest, ' ')
    case None => None
    case Some(space) =>
      var b64 := rest[space + 1..];
      match c.decode(b64)
      case None => None
      case Some(blob) => Some(Signature(rest[..space], b64, blob))
  }

  function LineParser(c: Base64): string -> Option<Signature> {
    line => ParseSignatureLine(c, line)
  }

  /** The signatures among the lines; lines that are not signature lines are skipped. */
  function ParseLines(c: Base64, lines: seq<string>): seq<Signature> {
    FilterMap(LineParser(c), lines)
  }

  /** None when the input has no separator. */
  function SplitNote(c: Base64, raw: string): (r: Option<(string, seq<Signature>)>)
  {
    match SepIndex(raw)
    case None => None
    case Some(sep) =>
      SepInRange(raw);
      Some((raw[..sep + 1], ParseLines(c, Split(TrimNewlines(raw[sep + 2..]), '\n'))))
  }

  lemma {:induction false} SepInRange(raw: string)
    ensures SepIndex(raw).Some? ==> SepIndex(raw).value + 2 <= |raw|
  {
    if |raw| >= 2 && !(raw[0] == '\n' && raw[1] == '\n') { SepInRange(raw[1..]); }
  }

  method SplitNoteScan(c: Base64, raw: string) returns (body: string, sigs: seq<Signature>, found: bool)
    ensures found <==> SplitNote(c, raw).Some?
    ensures if found then SplitNote(c, raw) == Some((body, sigs)) else body == raw && sigs == []
  {
    hide ParseSignatureLine, Split, TrimNewlines, FilterMap, SepIndex;
    var sep := SepIndex(raw);
    SepInRange(raw);
    if sep.None? {
      return raw, [], false;
    }
    body := raw[..sep.value + 1];
    sigs := KeepAccepted(LineParser(c), Split(TrimNewlines(raw[sep.value + 2..]), '\n'));
    found := true;
  }

  function ParseCheckpointBody(c: Base64, body: string): Result<Checkpoint> {
    var lines := Split(TrimNewlines(body), '\n');
    if |lines| < 3 then Err("body lines") else
      match ParseNat(lines[1])
      case None => Err("size")
      case Some(size) =>
        if size >= TWO_TO_64 then Err("size") else
          match c.decode(lines[2])
          case None => Err("rootHash")
          case Some(root) => Ok(Checkpoint(lines[0], size, root))
  }

  // ---- printing then splitting ---------------------------------------------

  /** A printed signature line is read back, exactly when its blob is non-empty. */
  lemma SignatureLineRoundTrip(c: Base64, name: string, blob: seq<byte>)
    requires Lawful(c)
    ensures ParseSignatureLine(c, PrintLine(c, name, blob)) == Some(Signature(name, c.encode(blob), blob))
            <==> blob != []
  {
    if blob != [] {
      PrintedLineParses(c, name, blob);
    } else {
      assert c.encode(blob) == "";
      ParsedBlobText(c, PrintLine(c, name, blob));
    }
  }

  lemma PrintedLineParses(c: Base64, name: string, blob: seq<byte>)
    requires Lawful(c) && blob != []
    ensures ParseSignatureLine(c, PrintLine(c, name, blob)) == Some(Signature(name, c.encode(blob), blob))
  {
    var rest := name + " " + c.encode(blob);
    var line := PrintLine(c, name, blob);
    assert line == DASH + rest && line[|DASH|..] == rest;
    PrintedLineTrimmed(c, name, blob);
    NameAndBlobParse(c, name, blob);
  }

  lemma PrintedLineTrimmed(c: Base64, name: string, blob: seq<byte>)
    requires Lawful(c) && blob != []
    ensures Trimmed(PrintLine(c, name, blob))
  {
    var b64 := c.encode(blob);
    var line := PrintLine(c, name, blob);
    assert b64 != "" && SpaceFree(b64);
    assert line[0] == '\U{2014}' && line[|line| - 1] == b64[|b64| - 1];
  }

  lemma NameAndBlobParse(c: Base64, name: string, blob: seq<byte>)
    requires Lawful(c)
    ensures ParseNameAndBlob(c, name + " " + c.encode(blob)) == Some(Signature(name, c.encode(blob), blob))
  {
    var b64 := c.encode(blob);
    var rest := name + " " + b64;
    LastSpace(name, b64);
    assert rest[|name| + 1..] == b64 && rest[..|name|] == name;
    assert c.decode(b64) == Some(blob);
  }

  /** The base64 token of a parsed line is never empty: trimming ended it. */
  lemma ParsedBlobText(c: Base64, line: string)
    ensures ParseSignatureLine(c, line).Some? ==> ParseSignatureLine(c, line).value.raw != ""
  {
    hide TrimSpace, LastIndexOf;
    var t := TrimSpace(line);
    if DASH <= t && |t| > |DASH| {
      var rest := t[|DASH|..];
      assert rest[|rest| - 1] == t[|t| - 1] && !IsSpace(rest[|rest| - 1]);
    }
  }

  lemma {:induction false} LastSpace(name: string, word: string)
    requires Free(word, ' ')
    ensures LastIndexOf(name + " " + word, ' ') == Some(|name|)
  {
    var s := name + " " + word;
    if word != "" {
      var front := word[..|word| - 1];
      LastSpace(name, front);
      assert s[..|s| - 1] == name + " " + front;
    }
  }

  /** The separator of a printed note is the blank line after its body. */
  lemma {:induction false} SepOfBody(body: string, rest: string)
    requires IsBody(body) && Unbroken(body)
    ensures SepIndex(body + "\n" + rest) == Some(|body| - 1)
  {
    var s := body + "\n" + rest;
    if |body| > 1 {
      assert !BreakAt(body, 0);
      assert forall i :: 0 <= i < |body| - 2 ==> BreakAt(body[1..], i) == BreakAt(body, i + 1);
      SepOfBody(body[1..], rest);
      assert s[1..] == body[1..] + "\n" + rest;
    }
  }

  /** Trimming final newlines loses only blank lines. */
  lemma {:induction false} TrimKeepsAccepted<T>(f: string -> Option<T>, s: string)
    requires f("").None?
    ensures FilterMap(f, Split(TrimNewlines(s), '\n')) == FilterMap(f, Split(s, '\n'))
  {
    if s != "" && s[|s| - 1] == '\n' {
      var front := s[..|s| - 1];
      TrimKeepsAccepted(f, front);
      assert s == front + "\n";
      SplitFinalNewline(front);
      FilterMapSnoc(f, Split(front, '\n'), "");
    }
  }

  lemma SplitFinalNewline(s: string)
    ensures Split(s + "\n", '\n') == Split(s, '\n') + [""]
  {
    assert s + "\n" == s + ['\n'] + "";
    SplitAt(s, '\n', "");
    SplitFree("", '\n');
  }

  lemma FrontOfLines(lines: seq<string>)
    requires lines != []
    ensures [lines[0]] + (lines[1..] + [""]) == lines + [""]
  {
  }

  lemma {:induction false} SplitBlock(lines: seq<string>)
    requires forall i :: 0 <= i < |lines| ==> Free(lines[i], '\n')
    ensures Split(Block(lines), '\n') == lines + [""]
  {
    if lines == [] {
      SplitFree("", '\n');
    } else {
      assert Block(lines) == lines[0] + ['\n'] + Block(lines[1..]);
      hide Block, Split;
      SplitBlock(lines[1..]);
      SplitStep(lines[0], '\n', Block(lines[1..]));
      FrontOfLines(lines);
    }
  }

  /** The first blank line is at or before any blank line. */
  lemma {:induction false} SepAtMost(raw: string, i: nat)
    requires i + 1 < |raw| && BreakAt(raw, i)
    ensures SepIndex(raw).Some? && SepIndex(raw).value <= i
  {
    if !(raw[0] == '\n' && raw[1] == '\n') {
      assert BreakAt(raw[1..], i - 1);
      SepAtMost(raw[1..], i - 1);
    }
  }

  /** A blank line inside the body ends it for SplitNote: what comes back is a
      proper prefix. */
  lemma BrokenBodyIsCut(c: Base64, body: string, lines: seq<string>)
    requires IsBody(body) && !Unbroken(body)
    ensures SplitNote(c, PrintNote(body, lines)).Some?
    ensures SplitNote(c, PrintNote(body, lines)).value.0 < body
  {
    hide ParseLines, Split, TrimNewlines, Block, SepIndex;
    var raw := PrintNote(body, lines);
    var i :| 0 <= i < |body| - 1 && BreakAt(body, i);
    assert BreakAt(raw, i);
    SepAtMost(raw, i);
    SepInRange(raw);
    assert forall k :: 0 <= k < |body| ==> raw[k] == body[k];
  }

  /** Splitting a note, with any mix of lines after its body, gives back the body and
      the signatures of the well-formed lines in order, exactly when the body has no
      blank line inside. */
  lemma SplitOfPrint(c: Base64, body: string, lines: seq<string>)
    requires IsBody(body)
    requires forall i :: 0 <= i < |lines| ==> Free(lines[i], '\n')
    ensures SplitNote(c, PrintNote(body, lines)) == Some((body, ParseLines(c, lines))) <==> Unbroken(body)
  {
    if Unbroken(body) {
      SplitOfUnbroken(c, body, lines);
    } else {
      BrokenBodyIsCut(c, body, lines);
    }
  }

  lemma SplitOfUnbroken(c: Base64, body: string, lines: seq<string>)
    requires IsBody(body) && Unbroken(body)
    requires forall i :: 0 <= i < |lines| ==> Free(lines[i], '\n')
    ensures SplitNote(c, PrintNote(body, lines)) == Some((body, ParseLines(c, lines)))
  {
    hide ParseLines, Split, TrimNewlines, Block, SepIndex, Unbroken;
    var raw := PrintNote(body, lines);
    SepOfBody(body, Block(lines));
    assert raw[..|body|] == body && raw[|body| + 1..] == Block(lines);
    BlockSignatures(c, lines);
  }

  lemma BlockSignatures(c: Base64, lines: seq<string>)
    requires forall i :: 0 <= i < |lines| ==> Free(lines[i], '\n')
    ensures ParseLines(c, Split(TrimNewlines(Block(lines)), '\n')) == ParseLines(c, lines)
  {
    assert TrimSpace("") == "";
    TrimKeepsAccepted(LineParser(c), Block(lines));
    SplitBlock(lines);
    FilterMapSnoc(LineParser(c), lines, "");
  }

  function PrintLines(c: Base64, sigs: seq<Signature>): seq<string> {
    seq(|sigs|, i requires 0 <= i < |sigs| => PrintLine(c, sigs[i].name, sigs[i].blob))
  }

  /** Signatures as the printer writes them: a name on one line, the blob's own text. */
  ghost predicate Printable(c: Base64, sigs: seq<Signature>) {
    forall i :: 0 <= i < |sigs| ==> Free(sigs[i].name, '\n') && sigs[i].raw == c.encode(sigs[i].blob)
  }

  ghost predicate NoEmptyBlob(sigs: seq<Signature>) {
    forall i :: 0 <= i < |sigs| ==> sigs[i].blob != []
  }

  /** The printed lines are read back exactly when no blob is empty. */
  lemma ParseOfPrintLines(c: Base64, sigs: seq<Signature>)
    requires Lawful(c) && Printable(c, sigs)
    ensures ParseLines(c, PrintLines(c, sigs)) == sigs <==> NoEmptyBlob(sigs)
  {
    hide ParseSignatureLine, PrintLine, FilterMap;
    var lines := PrintLines(c, sigs);
    if NoEmptyBlob(sigs) {
      forall i | 0 <= i < |sigs| ensures LineParser(c)(lines[i]) == Some(sigs[i]) {
        PrintedLineParses(c, sigs[i].name, sigs[i].blob);
      }
      FilterMapAll(LineParser(c), lines, sigs);
    } else if ParseLines(c, lines) == sigs {
      var i :| 0 <= i < |sigs| && sigs[i].blob == [];
      FilterMapMember(LineParser(c), lines, sigs[i]);
      var k :| 0 <= k < |lines| && LineParser(c)(lines[k]) == Some(sigs[i]);
      ParsedBlobText(c, lines[k]);
    }
  }

  /** SplitNote undoes the note printer, same body and same signatures in order,
      exactly when the body has no blank line inside and no signature is empty. The
      framing signs bodies with blank lines too and cuts at the last one; SplitNote
      cuts at the first. */
  lemma NoteRoundTrip(c: Base64, body: string, sigs: seq<Signature>)
    requires Lawful(c) && IsBody(body) && Printable(c, sigs)
    ensures SplitNote(c, PrintNote(body, PrintLines(c, sigs))) == Some((body, sigs)) <==>
              Unbroken(body) && NoEmptyBlob(sigs)
  {
    var lines := PrintLines(c, sigs);
    forall i | 0 <= i < |lines| ensures Free(lines[i], '\n') {
      assert SpaceFree(c.encode(sigs[i].blob));
      assert lines[i] == PrintLine(c, sigs[i].name, sigs[i].blob);
    }
    hide SplitNote, ParseLines, Unbroken, NoEmptyBlob, PrintLines;
    if Unbroken(body) {
      SplitOfUnbroken(c, body, lines);
    } else {
      BrokenBodyIsCut(c, body, lines);
    }
    ParseOfPrintLines(c, sigs);
  }

  /** A body that is cut: everything behind its first paragraph is lost. */
  lemma BlankLineLosesText(c: Base64, lines: seq<string>)
    ensures IsBody("a\n\nb\n")
    ensures SplitNote(c, PrintNote("a\n\nb\n", lines)).Some?
    ensures SplitNote(c, PrintNote("a\n\nb\n", lines)).value.0 == "a\n"
  {
    hide ParseLines, Split, TrimNewlines, Block;
    var raw := PrintNote("a\n\nb\n", lines);
    assert raw[0] == 'a' && raw[1] == '\n' && raw[2] == '\n';
    assert raw[1..][0] == '\n' && raw[1..][1] == '\n' && SepIndex(raw[1..]) == Some(0);
    assert raw[..2] == "a\n";
  }

  // ---- checkpoint bodies ---------------------------------------------------

  lemma {:induction false} BlockIsJoin(lines: seq<string>)
    requires lines != []
    ensures Block(lines) == Join(lines, '\n') + "\n"
  {
    if |lines| > 1 {
      BlockIsJoin(lines[1..]);
    } else {
      assert lines[1..] == [];
    }
  }

  lemma {:induction false} JoinEnds(lines: seq<string>)
    requires lines != [] && NonBlankLines(lines)
    ensures Join(lines, '\n') != "" && Join(lines, '\n')[0] != '\n'
    ensures Join(lines, '\n')[|Join(lines, '\n')| - 1] != '\n'
    ensures IsBody(Join(lines, '\n') + "\n") && Unbroken(Join(lines, '\n') + "\n")
  {
    if |lines| == 1 {
      var l := lines[0];
      assert l[0] != '\n' && l[|l| - 1] != '\n';
    } else {
      JoinEnds(lines[1..]);
      BodyPrepend(lines[0], Join(lines[1..], '\n'));
    }
  }

  lemma BodyPrepend(line: string, rest: string)
    requires line != "" && Free(line, '\n') && rest != "" && rest[0] != '\n'
    requires Unbroken(rest + "\n")
    ensures Unbroken(line + "\n" + rest + "\n")
  {
    var s, t := line + "\n" + rest + "\n", rest + "\n";
    forall i | 0 <= i < |s| - 1 ensures !BreakAt(s, i) {
      if i >= |line| + 1 {
        assert BreakAt(s, i) == BreakAt(t, i - |line| - 1);
      }
    }
  }

  /** The body parser undoes the checkpoint printer: origin, size and root come
      from the printed lines, extension lines are ignored. */
  lemma CheckpointRoundTrip(c: Base64, cp: Checkpoint, extensions: seq<string>)
    requires Lawful(c) && cp.size < TWO_TO_64 && cp.rootHash != []
    requires cp.origin != "" && Free(cp.origin, '\n') && NonBlankLines(extensions)
    ensures var body := Block(CheckpointLines(c, cp, extensions)); IsBody(body) && Unbroken(body)
    ensures ParseCheckpointBody(c, Block(CheckpointLines(c, cp, extensions))) == Ok(cp)
  {
    var lines := CheckpointLines(c, cp, extensions);
    assert SpaceFree(c.encode(cp.rootHash)) && NonBlankLines(lines);
    BlockIsJoin(lines);
    JoinEnds(lines);
    var joined := Join(lines, '\n');
    assert (joined + "\n")[..|joined|] == joined;
    assert TrimNewlines(joined + "\n") == TrimNewlines(joined) == joined;
    SplitOfJoin(lines, '\n');
    ParseOfItoa(cp.size);
  }

  // ---- verification --------------------------------------------------------

  datatype Key = Key(id: nat, coordBytes: nat)

  /** SHA-256 of the body and the two ECDSA verification entry points. */
  datatype Ecdsa = Ecdsa(
    digest: string -> seq<byte>,
    verifyAsn1: (Key, seq<byte>, seq<byte>) -> bool,
    verifyScalars: (Key, seq<byte>, P1363.Scalars) -> bool)

  /** DER first; a fixed-width r || s of the key's size as the legacy fallback. */
  predicate VerifyC2sp(e: Ecdsa, key: Key, body: string, sig: seq<byte>) {
    sig != [] &&
    (e.verifyAsn1(key, e.digest(body), sig) ||
     (|sig| == 2 * key.coordBytes && P1363.P1363ToScalars(sig).Ok? &&
      e.verifyScalars(key, e.digest(body), P1363.P1363ToScalars(sig).value)))
  }

  function HexDigit(d: nat): char
    requires d < 16
  {
    if d < 10 then ('0' as int + d) as char else ('a' as int + d - 10) as char
  }

  /** The %08x rendering of the big-endian keyhash; "" for a short blob. */
  function KeyHashHex(sig: Signature): string {
    if |sig.blob| < 4 then "" else
      seq(8, i requires 0 <= i < 8 =>
        var b: nat := sig.blob[i / 2];
        HexDigit(if i % 2 == 0 then b / 16 else b % 16))
  }

  /** Key lookup by the hex text is lookup by the four keyhash bytes. */
  lemma KeyHashHexFaithful(a: Signature, b: Signature)
    requires |a.blob| >= 4 && |b.blob| >= 4
    ensures KeyHashHex(a) == KeyHashHex(b) <==> a.blob[..4] == b.blob[..4]
  {
    if KeyHashHex(a) == KeyHashHex(b) {
      forall k | 0 <= k < 4 ensures a.blob[k] == b.blob[k] {
        assert KeyHashHex(a)[2 * k] == KeyHashHex(b)[2 * k];
        assert KeyHashHex(a)[2 * k + 1] == KeyHashHex(b)[2 * k + 1];
        assert a.blob[k] / 16 == b.blob[k] / 16 && a.blob[k] % 16 == b.blob[k] % 16;
      }
    }
  }

  /** The gate every signature line faces: a known keyhash and a signature that
      verifies over the body under that key. */
  predicate ClearsGate(e: Ecdsa, keys: map<string, Key>, body: string, sig: Signature) {
    |sig.blob| >= 4 && KeyHashHex(sig) in keys && VerifyC2sp(e, keys[KeyHashHex(sig)], body, sig.blob[4..])
  }

  /** What a line must be to count: its blob starts with the hash of a known key, and
      the rest is a DER signature of the body under that key, or as long as two of its
      coordinates with two non-zero numbers that verify. */
  lemma GateExactly(e: Ecdsa, keys: map<string, Key>, body: string, sig: Signature)
    ensures ClearsGate(e, keys, body, sig) <==>
              && |sig.blob| > 4 && KeyHashHex(sig) in keys
              && var key, g, d := keys[KeyHashHex(sig)], sig.blob[4..], e.digest(body);
                 || e.verifyAsn1(key, d, g)
                 || (|g| == 2 * key.coordBytes &&
                     var r, s := Radix.Value(g[..|g| / 2], 256), Radix.Value(g[|g| / 2..], 256);
                     r != 0 && s != 0 && e.verifyScalars(key, d, P1363.Scalars(r, s)))
  {
    hide KeyHashHex, Radix.Value;
  }

  /** Two hex digits per byte. */
  function Nibbles(b: seq<byte>): seq<nat> {
    if b == [] then [] else Nibbles(b[..|b| - 1]) + [b[|b| - 1] / 16, b[|b| - 1] % 16]
  }

  lemma {:induction false} NibblesValue(b: seq<byte>)
    ensures Radix.Value(Nibbles(b), 16) == Radix.Value(b, 256)
  {
    if b != [] {
      var front, last, ns := b[..|b| - 1], b[|b| - 1], Nibbles(b);
      NibblesValue(front);
      assert ns[..|ns| - 1] == Nibbles(front) + [last / 16];
      assert (Nibbles(front) + [last / 16])[..|ns| - 2] == Nibbles(front);
      assert Radix.Value(ns[..|ns| - 1], 16) == Radix.Value(Nibbles(front), 16) * 16 + last / 16;
    }
  }

  /** The key-hash text is the hash bytes as eight lower-case hex digits, most
      significant first, which denote the big-endian number of the four bytes. */
  lemma KeyHashHexDenotes(sig: Signature)
    requires |sig.blob| >= 4
    ensures var h, ns := KeyHashHex(sig), Nibbles(sig.blob[..4]);
            && |h| == |ns| == 8 && Radix.Value(ns, 16) == Radix.Value(sig.blob[..4], 256)
            && forall i :: 0 <= i < 8 ==> ns[i] < 16 && h[i] == "0123456789abcdef"[ns[i]]
  {
    hide Radix.Value, KeyHashHex, Nibbles;
    NibblesValue(sig.blob[..4]);
    HexAt(sig, 0);
    forall i | 0 <= i < 8 ensures Nibbles(sig.blob[..4])[i] < 16 {
      HexAt(sig, i);
    }
    forall i | 0 <= i < 8 ensures KeyHashHex(sig)[i] == "0123456789abcdef"[Nibbles(sig.blob[..4])[i]] {
      HexAt(sig, i);
    }
  }

  lemma HexAt(sig: Signature, i: nat)
    requires |sig.blob| >= 4 && i < 8
    ensures |KeyHashHex(sig)| == |Nibbles(sig.blob[..4])| == 8 && Nibbles(sig.blob[..4])[i] < 16
    ensures KeyHashHex(sig)[i] == "0123456789abcdef"[Nibbles(sig.blob[..4])[i]]
  {
    var ns := Nibbles(sig.blob[..4]);
    NibblesAt(sig.blob[..4], i / 2);
    assert KeyHashHex(sig)[i] == HexDigit(ns[i]);
    HexDigitText(ns[i]);
    hide KeyHashHex, Nibbles, HexDigit;
  }

  lemma HexDigitText(d: nat)
    requires d < 16
    ensures HexDigit(d) == "0123456789abcdef"[d]
  {
  }

  lemma {:induction false} NibblesAt(b: seq<byte>, i: nat)
    requires i < |b|
    ensures |Nibbles(b)| == 2 * |b| && Nibbles(b)[2 * i] == b[i] / 16 && Nibbles(b)[2 * i + 1] == b[i] % 16
  {
    if |b| > 1 {
      NibblesAt(b[..|b| - 1], if i < |b| - 1 then i else 0);
    }
  }

  /** Acceptance as the format defines it. */
  ghost predicate Authentic(c: Base64, e: Ecdsa, keys: map<string, Key>, raw: string) {
    && SplitNote(c, raw).Some?
    && var (body, sigs) := SplitNote(c, raw).value;
       && ParseCheckpointBody(c, body).Ok?
       && exists i :: 0 <= i < |sigs| && ClearsGate(e, keys, body, sigs[i])
  }

  /** The gate loop: unknown keys are skipped, failures remembered, the first
      line that clears the gate ends it. */
  method AnyClears(e: Ecdsa, keys: map<string, Key>, body: string, sigs: seq<Signature>)
    returns (cleared: bool, lastSigErr: string)
    ensures cleared <==> exists i :: 0 <= i < |sigs| && ClearsGate(e, keys, body, sigs[i])
  {
    lastSigErr := "";
    for i := 0 to |sigs|
      invariant forall j :: 0 <= j < i ==> !ClearsGate(e, keys, body, sigs[j])
    {
      var hash := KeyHashHex(sigs[i]);
      if hash == "" {
        lastSigErr := "blob shorter than keyhash";
        continue;
      }
      if hash !in keys {
        continue;
      }
      if !VerifyC2sp(e, keys[hash], body, sigs[i].blob[4..]) {
        lastSigErr := "did not verify";
        continue;
      }
      return true, "";
    }
    return false, if lastSigErr == "" then "no known key" else lastSigErr;
  }

  /** Verification accepts exactly the authentic notes, and the checkpoint it
      returns is parsed from the very bytes the signature covers. */
  method VerifyCheckpointNote(c: Base64, e: Ecdsa, keys: map<string, Key>, raw: string) returns (r: Result<Checkpoint>)
    ensures r.Ok? <==> Authentic(c, e, keys, raw)
    ensures r.Ok? ==> r == ParseCheckpointBody(c, SplitNote(c, raw).value.0)
  {
    if |keys| == 0 {
      return Err("no verification keys");
    }
    var body, sigs, found := SplitNoteScan(c, raw);
    if !found {
      return Err("missing separator");
    }
    r := ParseCheckpointBody(c, body);
    if r.Ok? {
      var cleared, lastSigErr := AnyClears(e, keys, body, sigs);
      if !cleared {
        r := Err(lastSigErr);
      }
    }
  }

  ghost predicate GoodLine(c: Base64, e: Ecdsa, keys: map<string, Key>, body: string, line: string) {
    ParseSignatureLine(c, line).Some? && ClearsGate(e, keys, body, ParseSignatureLine(c, line).value)
  }

  /** One good line suffices and no other line matters: a printed checkpoint with
      any newline-free lines after it is authentic exactly when one of them clears
      the gate, and then yields the printed origin, size and root. */
  lemma AnyGoodLineSuffices(c: Base64, e: Ecdsa, keys: map<string, Key>, cp: Checkpoint,
                            extensions: seq<string>, lines: seq<string>)
    requires Lawful(c) && cp.size < TWO_TO_64 && cp.rootHash != []
    requires cp.origin != "" && Free(cp.origin, '\n') && NonBlankLines(extensions)
    requires forall i :: 0 <= i < |lines| ==> Free(lines[i], '\n')
    ensures var body := Block(CheckpointLines(c, cp, extensions));
            var raw := PrintNote(body, lines);
            && (Authentic(c, e, keys, raw) <==>
                  exists i :: 0 <= i < |lines| && GoodLine(c, e, keys, body, lines[i]))
            && SplitNote(c, raw).Some? && ParseCheckpointBody(c, SplitNote(c, raw).value.0) == Ok(cp)
  {
    var body := Block(CheckpointLines(c, cp, extensions));
    CheckpointRoundTrip(c, cp, extensions);
    SplitOfPrint(c, body, lines);
    var sigs := ParseLines(c, lines);
    if i :| 0 <= i < |sigs| && ClearsGate(e, keys, body, sigs[i]) {
      FilterMapMember(LineParser(c), lines, sigs[i]);
      assert sigs[i] in sigs;
    }
    if i :| 0 <= i < |lines| && GoodLine(c, e, keys, body, lines[i]) {
      FilterMapMember(LineParser(c), lines, ParseSignatureLine(c, lines[i]).value);
    }
  }

  // ---- exactly what is parsed ----------------------------------------------

  lemma {:induction false} LastIndexIsLast(s: string, c: char)
    ensures LastIndexOf(s, c).Some? ==> Free(s[LastIndexOf(s, c).value + 1..], c)
  {
    if s != "" && s[|s| - 1] != c {
      LastIndexIsLast(s[..|s| - 1], c);
      if LastIndexOf(s, c).Some? {
        var k := LastIndexOf(s, c).value;
        assert s[k + 1..] == s[..|s| - 1][k + 1..] + [s[|s| - 1]];
      }
    }
  }

  /** What a signature line is: but for white space around it, the dash, a name, a
      space and base64 without a space in it. */
  lemma SignatureLineExactly(c: Base64, line: string, sig: Signature)
    ensures ParseSignatureLine(c, line) == Some(sig) <==>
              && TrimSpace(line) == DASH + (sig.name + " " + sig.raw)
              && Free(sig.raw, ' ') && c.decode(sig.raw) == Some(sig.blob)
  {
    hide TrimSpace, LastIndexOf;
    var t := TrimSpace(line);
    if ParseSignatureLine(c, line) == Some(sig) {
      var rest := t[|DASH|..];
      var k := LastIndexOf(rest, ' ').value;
      LastIndexIsLast(rest, ' ');
      Around(rest, k);
      assert t == DASH + rest && rest == sig.name + " " + sig.raw;
    }
    if t == DASH + (sig.name + " " + sig.raw) && Free(sig.raw, ' ') {
      var rest := sig.name + " " + sig.raw;
      assert t[|DASH|..] == rest;
      LastSpace(sig.name, sig.raw);
      assert rest[..|sig.name|] == sig.name && rest[|sig.name| + 1..] == sig.raw;
    }
  }

  lemma {:induction false} SepIsFirst(raw: string)
    requires SepIndex(raw).Some?
    ensures var k := SepIndex(raw).value;
            k + 1 < |raw| && BreakAt(raw, k) && forall i :: 0 <= i < k ==> !BreakAt(raw, i)
  {
    if !(raw[0] == '\n' && raw[1] == '\n') {
      SepIsFirst(raw[1..]);
      assert forall i :: 0 < i < |raw| - 1 ==> BreakAt(raw, i) == BreakAt(raw[1..], i - 1);
    }
  }

  /** What SplitNote makes of any input: the body is the text up to and with the
      newline before the first blank line, the signatures are those of the
      well-formed lines after it. */
  lemma SplitNoteExactly(c: Base64, raw: string, body: string, sigs: seq<Signature>)
    ensures SplitNote(c, raw) == Some((body, sigs)) <==>
              && IsBody(body) && Unbroken(body)
              && exists rest :: raw == body + "\n" + rest && sigs == ParseLines(c, Split(rest, '\n'))
  {
    hide ParseLines, Split, TrimNewlines, SepIndex;
    if SplitNote(c, raw) == Some((body, sigs)) {
      SepIsFirst(raw);
      SepInRange(raw);
      var k := SepIndex(raw).value;
      var rest := raw[k + 2..];
      assert body == raw[..k + 1] && raw == body + "\n" + rest;
      assert forall i :: 0 <= i < k ==> BreakAt(body, i) == BreakAt(raw, i);
      LinesTrimmed(c, rest);
    }
    if IsBody(body) && Unbroken(body) {
      forall rest | raw == body + "\n" + rest
        ensures SplitNote(c, raw) == Some((body, ParseLines(c, Split(rest, '\n'))))
      {
        SepOfBody(body, rest);
        assert raw[..|body|] == body && raw[|body| + 1..] == rest;
        LinesTrimmed(c, rest);
      }
    }
  }

  lemma LinesTrimmed(c: Base64, rest: string)
    ensures ParseLines(c, Split(TrimNewlines(rest), '\n')) == ParseLines(c, Split(rest, '\n'))
  {
    hide Split, TrimNewlines;
    assert TrimSpace("") == "";
    TrimKeepsAccepted(LineParser(c), rest);
  }

  /** What a checkpoint body is: three lines or more, the first the origin, the second
      a decimal size below 2^64, the third the base64 of the root; the rest is free. */
  lemma CheckpointExactly(c: Base64, body: string, cp: Checkpoint)
    ensures ParseCheckpointBody(c, body) == Ok(cp) <==>
              exists size, root, extensions: seq<string> ::
                && Split(TrimNewlines(body), '\n') == [cp.origin, size, root] + extensions
                && ParseNat(size) == Some(cp.size) && cp.size < 0x1_0000_0000_0000_0000
                && c.decode(root) == Some(cp.rootHash)
  {
    hide Split, TrimNewlines, ParseNat;
    var lines := Split(TrimNewlines(body), '\n');
    if ParseCheckpointBody(c, body) == Ok(cp) {
      assert lines == [cp.origin, lines[1], lines[2]] + lines[3..];
    }
  }
}
