/** Compact JWS serialization (section 7.1 of RFC 7515, detached form of its
    Appendix F), signing and verification over abstract primitives. */
module Jws {
  import opened Prelude
  import opened Text
  import opened Sequences
  import P1363
  import Radix

  // ---- segment splitting ---------------------------------------------------

  function SplitDetached(jws: string): Result<(string, string)> {
    var parts := Split(jws, '.');
    if |parts| > 3 then Err("too many segments")
    else if |parts| < 3 then Err("not a compact JWS")
    else if parts[1] != "" then Err("payload segment must be empty")
    else if parts[0] == "" || parts[2] == "" then Err("empty segment")
    else Ok((parts[0], parts[2]))
  }

  function SplitStandard(jws: string): Result<(string, string, string)> {
    var parts := Split(jws, '.');
    if |parts| > 3 then Err("too many segments")
    else if |parts| < 3 then Err("not a compact JWS")
    else if parts[1] == "" then Err("payload segment must not be empty")
    else if parts[0] == "" || parts[2] == "" then Err("empty segment")
    else Ok((parts[0], parts[1], parts[2]))
  }

  /** A text with at least three dots has more than three segments. */
  lemma ManySegments(a: string, b: string, c: string, d: string)
    ensures |Split(a + "." + b + "." + c + "." + d, '.')| > 3
  {
    SplitAt(a + "." + b + "." + c, '.', d);
    SplitAt(a + "." + b, '.', c);
    SplitAt(a, '.', b);
  }

  /** first and second are the dots among the first n characters; -1 is none. */
  ghost predicate DotsAre(jws: string, n: nat, first: int, second: int) {
    && n <= |jws|
    && (if first == -1 then second == -1 else 0 <= first < n && jws[first] == '.')
    && (second == -1 || (first < second < n && jws[second] == '.'))
    && (forall k :: 0 <= k < n && jws[k] == '.' ==> k == first || k == second)
  }

  lemma TwoDots(s: string, i: nat, j: nat)
    requires i < j < |s| && s[i] == '.' && s[j] == '.'
    ensures s == s[..i] + "." + s[i + 1..j] + "." + s[j + 1..]
  {
    Around(s, j);
    Around(s[..j], i);
    assert s[..j][..i] == s[..i] && s[..j][i + 1..] == s[i + 1..j];
  }

  lemma SegmentsFromDots(jws: string, first: int, second: int)
    requires DotsAre(jws, |jws|, first, second)
    ensures second == -1 ==> |Split(jws, '.')| < 3
    ensures second != -1 ==> Split(jws, '.') == [jws[..first], jws[first + 1..second], jws[second + 1..]]
  {
    hide Split;
    if second != -1 {
      TwoDots(jws, first, second);
      ThreeSegments(jws[..first], jws[first + 1..second], jws[second + 1..]);
    } else if first != -1 {
      Around(jws, first);
      SplitAt(jws[..first], '.', jws[first + 1..]);
      SplitFree(jws[..first], '.');
      SplitFree(jws[first + 1..], '.');
    } else {
      SplitFree(jws, '.');
    }
  }

  lemma ThirdDot(jws: string, first: int, second: int, i: nat)
    requires 0 <= first < second < i < |jws| && jws[first] == jws[second] == jws[i] == '.'
    ensures |Split(jws, '.')| > 3
  {
    Around(jws, i);
    TwoDots(jws[..i], first, second);
    var front := jws[..i];
    assert front[..first] == jws[..first] && front[first + 1..second] == jws[first + 1..second];
    assert front[second + 1..] == jws[second + 1..i];
    hide Split;
    ManySegments(jws[..first], jws[first + 1..second], jws[second + 1..i], jws[i + 1..]);
  }

  /** The scanning loop both splitters share: the first two dots, and whether
      there is a third. */
  method FindDots(jws: string) returns (first: int, second: int, tooMany: bool)
    ensures tooMany <==> |Split(jws, '.')| > 3
    ensures !tooMany ==> DotsAre(jws, |jws|, first, second)
  {
    first, second, tooMany := -1, -1, false;
    for i := 0 to |jws|
      invariant DotsAre(jws, i, first, second)
    {
      if jws[i] == '.' {
        if first == -1 {
          first := i;
        } else if second == -1 {
          second := i;
        } else {
          ThirdDot(jws, first, second, i);
          tooMany := true;
          return;
        }
      }
    }
    SegmentsFromDots(jws, first, second);
  }

  method SplitDetachedScan(jws: string) returns (r: Result<(string, string)>)
    ensures r == SplitDetached(jws)
  {
    var first, second, tooMany := FindDots(jws);
    if tooMany {
      return Err("too many segments");
    }
    SegmentsFromDots(jws, first, second);
    if first == -1 || second == -1 {
      return Err("not a compact JWS");
    }
    if second != first + 1 {
      return Err("payload segment must be empty");
    }
    var header, sig := jws[..first], jws[second + 1..];
    if header == "" || sig == "" {
      return Err("empty segment");
    }
    return Ok((header, sig));
  }

  method SplitStandardScan(jws: string) returns (r: Result<(string, string, string)>)
    ensures r == SplitStandard(jws)
  {
    var first, second, tooMany := FindDots(jws);
    if tooMany {
      return Err("too many segments");
    }
    SegmentsFromDots(jws, first, second);
    if first == -1 || second == -1 {
      return Err("not a compact JWS");
    }
    if second == first + 1 {
      return Err("payload segment must not be empty");
    }
    var header, payload, sig := jws[..first], jws[first + 1..second], jws[second + 1..];
    if header == "" || sig == "" {
      return Err("empty segment");
    }
    return Ok((header, payload, sig));
  }

  /** The detached splitter accepts exactly `header..signature` with two
      non-empty dot-free segments. */
  lemma DetachedExactly(jws: string, h: string, g: string)
    ensures SplitDetached(jws) == Ok((h, g)) <==>
              jws == h + ".." + g && h != "" && g != "" && Free(h, '.') && Free(g, '.')
  {
    hide Split, Join;
    if SplitDetached(jws) == Ok((h, g)) {
      JoinOfSplit(jws, '.');
      SplitParts(jws, '.');
      var parts := Split(jws, '.');
      assert parts == [h, "", g];
      JoinThree(h, "", g);
      assert h + "." + "" + "." + g == h + ".." + g;
    }
    if jws == h + ".." + g && Free(h, '.') && Free(g, '.') {
      ThreeSegments(h, "", g);
      assert h + "." + "" + "." + g == h + ".." + g;
    }
  }

  lemma StandardExactly(jws: string, h: string, p: string, g: string)
    ensures SplitStandard(jws) == Ok((h, p, g)) <==>
              && jws == h + "." + p + "." + g && h != "" && p != "" && g != ""
              && Free(h, '.') && Free(p, '.') && Free(g, '.')
  {
    hide Split, Join;
    if SplitStandard(jws) == Ok((h, p, g)) {
      JoinOfSplit(jws, '.');
      SplitParts(jws, '.');
      assert Split(jws, '.') == [h, p, g];
      JoinThree(h, p, g);
    }
    if jws == h + "." + p + "." + g && Free(h, '.') && Free(p, '.') && Free(g, '.') {
      ThreeSegments(h, p, g);
    }
  }

  /** No string is a detached and a standard JWS at once, and together the two
      forms are the three-segment strings with non-empty ends. */
  lemma FormsAreDisjoint(jws: string)
    ensures !(SplitDetached(jws).Ok? && SplitStandard(jws).Ok?)
    ensures SplitDetached(jws).Ok? || SplitStandard(jws).Ok? <==>
              var parts := Split(jws, '.');
              |parts| == 3 && parts[0] != "" && parts[2] != ""
  {
  }

  // ---- keys, headers, primitives -------------------------------------------

  datatype PublicKey = Ecdsa(id: nat, coordBytes: nat) | Rsa(id: nat) | Ed25519(id: nat) | Unsupported

  datatype Header = Header(
    alg: string, kid: string, typ: string, timestamp: int, raid: string, jwk: string, crit: seq<string>)

  /** base64url without padding, JCS, encoding/json, SHA-256 and the signature
      schemes. `rewrite` is what marshalling does to the raw JSON of a jwk member. */
  datatype Suite = Suite(
    base64: seq<byte> -> string,
    unbase64: string -> Option<seq<byte>>,
    canonicalize: seq<byte> -> Option<seq<byte>>,
    marshal: Header -> Option<seq<byte>>,
    unmarshal: seq<byte> -> Option<Header>,
    rewrite: string -> string,
    digest: string -> seq<byte>,
    asn1: P1363.Asn1,
    ecdsaVerify: (PublicKey, seq<byte>, P1363.Scalars) -> bool,
    rsaVerify: (PublicKey, seq<byte>, seq<byte>) -> bool,
    ed25519Verify: (PublicKey, string, seq<byte>) -> bool)

  datatype KeyManager = KeyManager(
    publicKey: string -> Option<PublicKey>,
    sign: (string, seq<byte>) -> Option<seq<byte>>)

  /** Encoding round trips; '.' is not in the base64url alphabet; no JSON text, and
      so no canonical one, is empty. */
  ghost predicate Lawful(u: Suite) {
    && (forall b :: u.unbase64(u.base64(b)) == Some(b))
    && (forall b :: Free(u.base64(b), '.'))
    && (forall b :: u.base64(b) == "" <==> b == [])
    && (forall b :: u.canonicalize(b) != Some([]))
    && (forall h :: u.marshal(h).Some? ==>
          u.marshal(h).value != [] && u.unmarshal(u.marshal(h).value) == Some(AsSent(u, h)))
  }

  function AsSent(u: Suite, h: Header): Header {
    h.(jwk := u.rewrite(h.jwk))
  }

  /** What the key manager signs verifies under its own public key. */
  ghost predicate CorrectSigner(u: Suite, km: KeyManager, keyId: string) {
    forall d :: km.publicKey(keyId).Some? && km.sign(keyId, d).Some? ==>
      var pub, sig := km.publicKey(keyId).value, km.sign(keyId, d).value;
      && (pub.Ecdsa? && u.asn1.parse(sig).Some? ==> u.ecdsaVerify(pub, d, u.asn1.parse(sig).value.0))
      && (pub.Rsa? ==> sig != [] && u.rsaVerify(pub, d, sig))
  }

  function AlgForPublicKey(pub: PublicKey): Result<string> {
    match pub
    case Ecdsa(_, _) => Ok("ES256")
    case Rsa(_) => Ok("RS256")
    case Ed25519(_) => Ok("EdDSA")
    case Unsupported => Err("unsupported key")
  }

  predicate AlgMatchesKey(alg: string, pub: PublicKey) {
    (alg == "ES256" && pub.Ecdsa?) || (alg == "RS256" && pub.Rsa?) || (alg == "EdDSA" && pub.Ed25519?)
  }

  function ToWireFormat(u: Suite, alg: string, pub: PublicKey, rawSig: seq<byte>): Result<seq<byte>> {
    if alg == "ES256" && pub.Ecdsa? then P1363.DerToP1363(u.asn1, rawSig, pub.coordBytes)
    else if alg == "RS256" && pub.Rsa? then Ok(rawSig)
    else Err("unsupported algorithm")
  }

  /** The header that gets signed: algorithm resolved, key id stamped. */
  function SigningHeader(header: Header, pub: PublicKey, keyId: string): Result<Header> {
    match (if header.alg == "" then AlgForPublicKey(pub) else Ok(header.alg))
    case Err(e) => Err(e)
    case Ok(alg) => if AlgMatchesKey(alg, pub) then Ok(header.(alg := alg, kid := keyId)) else Err("alg mismatch")
  }

  function SigningInput(u: Suite, encodedHeader: string, canonical: seq<byte>): string {
    encodedHeader + "." + u.base64(canonical)
  }

  function SignDetached(u: Suite, km: KeyManager, keyId: string, header: Header, payload: seq<byte>): Result<string> {
    match km.publicKey(keyId)
    case None => Err("no key")
    case Some(pub) =>
      match SigningHeader(header, pub, keyId)
      case Err(e) => Err(e)
      case Ok(h) =>
        match u.canonicalize(payload)
        case None => Err("canonicalize")
        case Some(canonical) =>
          match u.marshal(h)
          case None => Err("marshal header")
          case Some(json) =>
            match km.sign(keyId, u.digest(SigningInput(u, u.base64(json), canonical)))
            case None => Err("sign")
            case Some(rawSig) =>
              match ToWireFormat(u, h.alg, pub, rawSig)
              case Err(e) => Err(e)
              case Ok(wire) => Ok(u.base64(json) + ".." + u.base64(wire))
  }

  /** Section 4.1.11 of RFC 7515: a critical extension this code does not know,
      which is any, rejects the token. */
  function DecodeHeader(u: Suite, encodedHeader: string): Result<Header> {
    match u.unbase64(encodedHeader)
    case None => Err("decode header")
    case Some(json) =>
      match u.unmarshal(json)
      case None => Err("parse header")
      case Some(h) => if h.crit != [] then Err("critical header") else Ok(h)
  }

  predicate SignatureVerifies(u: Suite, pub: PublicKey, input: string, sig: seq<byte>) {
    match pub
    case Ecdsa(_, _) =>
      var sc := P1363.P1363ToScalars(sig);
      sc.Ok? && u.ecdsaVerify(pub, u.digest(input), sc.value)
    case Rsa(_) => u.rsaVerify(pub, u.digest(input), sig)
    case Ed25519(_) => u.ed25519Verify(pub, input, sig)
    case Unsupported => false
  }

  function VerifyWithPublicKey(u: Suite, pub: PublicKey, jws: string, payload: seq<byte>): Result<Header> {
    match SplitDetached(jws)
    case Err(e) => Err(e)
    case Ok((encodedHeader, encodedSig)) =>
      match DecodeHeader(u, encodedHeader)
      case Err(e) => Err(e)
      case Ok(h) =>
        match u.canonicalize(payload)
        case None => Err("canonicalize")
        case Some(canonical) =>
          match u.unbase64(encodedSig)
          case None => Err("decode signature")
          case Some(sig) =>
            if !AlgMatchesKey(h.alg, pub) then Err("alg mismatch")
            else if !SignatureVerifies(u, pub, SigningInput(u, encodedHeader, canonical), sig) then Err("mismatch")
            else Ok(h)
  }

  // ---- signing and verifying agree -----------------------------------------

  /** The wire signature of a correct signer is non-empty and verifies. */
  lemma WireSignatureVerifies(u: Suite, km: KeyManager, keyId: string, alg: string, input: string)
    requires CorrectSigner(u, km, keyId)
    requires km.publicKey(keyId).Some? && km.sign(keyId, u.digest(input)).Some?
    requires ToWireFormat(u, alg, km.publicKey(keyId).value, km.sign(keyId, u.digest(input)).value).Ok?
    ensures var pub, raw := km.publicKey(keyId).value, km.sign(keyId, u.digest(input)).value;
            var wire := ToWireFormat(u, alg, pub, raw).value;
            wire != [] && SignatureVerifies(u, pub, input, wire)
  {
    var pub, raw := km.publicKey(keyId).value, km.sign(keyId, u.digest(input)).value;
    if pub.Ecdsa? {
      P1363.DerScalarsSurvive(u.asn1, raw, pub.coordBytes);
    }
  }

  /** Everything SignDetached returns splits into the two encoded segments, uses
      ES256 or RS256, and is accepted by VerifyWithPublicKey under the signing key
      for every payload with the same canonical form, unless the caller's header
      carried a critical extension, in which case it is always rejected. */
  lemma SignedIsAccepted(u: Suite, km: KeyManager, keyId: string, header: Header,
                         payload: seq<byte>, payload': seq<byte>)
    requires Lawful(u) && CorrectSigner(u, km, keyId)
    requires SignDetached(u, km, keyId, header, payload).Ok?
    requires u.canonicalize(payload) == u.canonicalize(payload')
    ensures var jws := SignDetached(u, km, keyId, header, payload).value;
            var pub := km.publicKey(keyId).value;
            var h := SigningHeader(header, pub, keyId).value;
            && SplitDetached(jws).Ok? && SplitDetached(jws).value.0 == u.base64(u.marshal(h).value)
            && (h.alg == "ES256" || h.alg == "RS256") && h.kid == keyId
            && VerifyWithPublicKey(u, pub, jws, payload') ==
                 (if header.crit == [] then Ok(AsSent(u, h)) else Err("critical header"))
  {
    var pub := km.publicKey(keyId).value;
    var h := SigningHeader(header, pub, keyId).value;
    var json := u.marshal(h).value;
    var input := SigningInput(u, u.base64(json), u.canonicalize(payload).value);
    WireSignatureVerifies(u, km, keyId, h.alg, input);
    var wire := ToWireFormat(u, h.alg, pub, km.sign(keyId, u.digest(input)).value).value;
    var jws := u.base64(json) + ".." + u.base64(wire);
    DetachedExactly(jws, u.base64(json), u.base64(wire));
    assert u.unbase64(u.base64(json)) == Some(json) && u.unbase64(u.base64(wire)) == Some(wire);
  }

  // ---- the standard form ---------------------------------------------------

  /** The standard form keeps a key id the caller set. */
  function StandardHeader(header: Header, pub: PublicKey, keyId: string): Result<Header> {
    match SigningHeader(header, pub, keyId)
    case Err(e) => Err(e)
    case Ok(h) => Ok(if header.kid == "" then h else h.(kid := header.kid))
  }

  /** `payload` is the marshalled value. */
  function SignStandard(u: Suite, km: KeyManager, keyId: string, header: Header, payload: seq<byte>): Result<string> {
    match km.publicKey(keyId)
    case None => Err("no key")
    case Some(pub) =>
      match StandardHeader(header, pub, keyId)
      case Err(e) => Err(e)
      case Ok(h) =>
        match u.canonicalize(payload)
        case None => Err("canonicalize")
        case Some(canonical) =>
          match u.marshal(h)
          case None => Err("marshal header")
          case Some(json) =>
            var input := SigningInput(u, u.base64(json), canonical);
            match km.sign(keyId, u.digest(input))
            case None => Err("sign")
            case Some(rawSig) =>
              match ToWireFormat(u, h.alg, pub, rawSig)
              case Err(e) => Err(e)
              case Ok(wire) => Ok(input + "." + u.base64(wire))
  }

  /** The embedded payload is taken as signed: it is not canonicalized again. */
  function VerifyStandard(u: Suite, pub: PublicKey, jws: string): Result<Header> {
    match SplitStandard(jws)
    case Err(e) => Err(e)
    case Ok((encodedHeader, encodedPayload, encodedSig)) =>
      match DecodeHeader(u, encodedHeader)
      case Err(e) => Err(e)
      case Ok(h) =>
        if !AlgMatchesKey(h.alg, pub) then Err("alg mismatch") else
          match u.unbase64(encodedSig)
          case None => Err("decode signature")
          case Some(sig) =>
            if SignatureVerifies(u, pub, encodedHeader + "." + encodedPayload, sig) then Ok(h) else Err("mismatch")
  }

  /** The header and the payload segment, unverified. */
  function DecodeStandard(u: Suite, jws: string): Result<(Header, string)> {
    match SplitStandard(jws)
    case Err(e) => Err(e)
    case Ok((encodedHeader, encodedPayload, _)) =>
      match DecodeHeader(u, encodedHeader)
      case Err(e) => Err(e)
      case Ok(h) => Ok((h, encodedPayload))
  }

  /** Everything SignStandard returns is accepted under the signing key, with the
      caller's key id if one was set and the canonical payload in its own segment,
      unless the header carried a critical extension; then it is rejected. */
  lemma StandardIsAccepted(u: Suite, km: KeyManager, keyId: string, header: Header, payload: seq<byte>)
    requires Lawful(u) && CorrectSigner(u, km, keyId)
    requires SignStandard(u, km, keyId, header, payload).Ok?
    ensures var jws := SignStandard(u, km, keyId, header, payload).value;
            var pub := km.publicKey(keyId).value;
            var h := AsSent(u, StandardHeader(header, pub, keyId).value);
            && h.kid == (if header.kid == "" then keyId else header.kid)
            && (h.alg == "ES256" || h.alg == "RS256")
            && VerifyStandard(u, pub, jws) == (if header.crit == [] then Ok(h) else Err("critical header"))
            && (header.crit == [] ==>
                  DecodeStandard(u, jws) == Ok((h, u.base64(u.canonicalize(payload).value))))
            && SplitDetached(jws).Err?
  {
    var pub := km.publicKey(keyId).value;
    var h := StandardHeader(header, pub, keyId).value;
    var json, canonical := u.marshal(h).value, u.canonicalize(payload).value;
    var input := SigningInput(u, u.base64(json), canonical);
    WireSignatureVerifies(u, km, keyId, h.alg, input);
    var wire := ToWireFormat(u, h.alg, pub, km.sign(keyId, u.digest(input)).value).value;
    assert u.canonicalize(payload) != Some([]) && u.base64(canonical) != "";
    assert u.unbase64(u.base64(json)) == Some(json) && u.unbase64(u.base64(wire)) == Some(wire);
    hide SplitStandard, SplitDetached, SignatureVerifies, ToWireFormat;
    StandardExactly(input + "." + u.base64(wire), u.base64(json), u.base64(canonical), u.base64(wire));
    FormsAreDisjoint(input + "." + u.base64(wire));
  }

  // ---- exactly what is accepted --------------------------------------------

  /** The key's own scheme accepts the signature bytes over the signing input: ECDSA
      on the numbers in the two halves, RSA on the digest, Ed25519 on the input. */
  ghost predicate SchemeAccepts(u: Suite, pub: PublicKey, input: string, g: seq<byte>) {
    || (pub.Ecdsa? && g != [] && |g| % 2 == 0 &&
        var r, s := Radix.Value(g[..|g| / 2], 256), Radix.Value(g[|g| / 2..], 256);
        r != 0 && s != 0 && u.ecdsaVerify(pub, u.digest(input), P1363.Scalars(r, s)))
    || (pub.Rsa? && u.rsaVerify(pub, u.digest(input), g))
    || (pub.Ed25519? && u.ed25519Verify(pub, input, g))
  }

  /** The algorithm a key must be used with. */
  ghost predicate AlgOf(pub: PublicKey, alg: string) {
    && (pub.Ecdsa? ==> alg == "ES256") && (pub.Rsa? ==> alg == "RS256") && (pub.Ed25519? ==> alg == "EdDSA")
    && !pub.Unsupported?
  }

  /** eh is the encoding of a header without critical extensions. */
  ghost predicate EncodesHeader(u: Suite, eh: string, h: Header) {
    u.unbase64(eh).Some? && u.unmarshal(u.unbase64(eh).value) == Some(h) && h.crit == []
  }

  lemma HeaderExactly(u: Suite, eh: string, h: Header)
    ensures DecodeHeader(u, eh) == Ok(h) <==> EncodesHeader(u, eh, h)
  {
  }

  lemma SignatureExactly(u: Suite, pub: PublicKey, alg: string, input: string, g: seq<byte>)
    ensures AlgMatchesKey(alg, pub) && SignatureVerifies(u, pub, input, g) <==>
              AlgOf(pub, alg) && SchemeAccepts(u, pub, input, g)
  {
    hide Radix.Value;
  }

  /** A detached JWS is accepted with header h exactly when it is two dot-free
      non-empty segments around an empty one, the first encodes h without critical
      extensions, h names the key's algorithm, the payload canonicalizes, and the
      second decodes to bytes the key's scheme accepts over the first segment, a dot
      and the encoded canonical payload. */
  lemma DetachedAcceptedExactly(u: Suite, pub: PublicKey, jws: string, payload: seq<byte>, h: Header)
    ensures VerifyWithPublicKey(u, pub, jws, payload) == Ok(h) <==>
              exists eh, eg ::
                && jws == eh + ".." + eg && eh != "" && eg != "" && Free(eh, '.') && Free(eg, '.')
                && EncodesHeader(u, eh, h) && AlgOf(pub, h.alg)
                && u.canonicalize(payload).Some? && u.unbase64(eg).Some?
                && SchemeAccepts(u, pub, eh + "." + u.base64(u.canonicalize(payload).value), u.unbase64(eg).value)
  {
    hide SplitDetached, DecodeHeader, SignatureVerifies, AlgMatchesKey, SchemeAccepts, AlgOf, EncodesHeader;
    if VerifyWithPublicKey(u, pub, jws, payload) == Ok(h) {
      var (eh, eg) := SplitDetached(jws).value;
      DetachedExactly(jws, eh, eg);
      HeaderExactly(u, eh, h);
      SignatureExactly(u, pub, h.alg, eh + "." + u.base64(u.canonicalize(payload).value), u.unbase64(eg).value);
    }
    if eh, eg :| && jws == eh + ".." + eg && eh != "" && eg != "" && Free(eh, '.') && Free(eg, '.')
                 && EncodesHeader(u, eh, h) && AlgOf(pub, h.alg)
                 && u.canonicalize(payload).Some? && u.unbase64(eg).Some?
                 && SchemeAccepts(u, pub, eh + "." + u.base64(u.canonicalize(payload).value), u.unbase64(eg).value) {
      DetachedExactly(jws, eh, eg);
      HeaderExactly(u, eh, h);
      SignatureExactly(u, pub, h.alg, eh + "." + u.base64(u.canonicalize(payload).value), u.unbase64(eg).value);
    }
  }

  /** The same for the standard form, over its own payload segment. */
  lemma StandardAcceptedExactly(u: Suite, pub: PublicKey, jws: string, h: Header)
    ensures VerifyStandard(u, pub, jws) == Ok(h) <==>
              exists eh, ep, eg ::
                && jws == eh + "." + ep + "." + eg && eh != "" && ep != "" && eg != ""
                && Free(eh, '.') && Free(ep, '.') && Free(eg, '.')
                && EncodesHeader(u, eh, h) && AlgOf(pub, h.alg) && u.unbase64(eg).Some?
                && SchemeAccepts(u, pub, eh + "." + ep, u.unbase64(eg).value)
  {
    hide SplitStandard, DecodeHeader, SignatureVerifies, AlgMatchesKey, SchemeAccepts, AlgOf, EncodesHeader;
    if VerifyStandard(u, pub, jws) == Ok(h) {
      var (eh, ep, eg) := SplitStandard(jws).value;
      StandardExactly(jws, eh, ep, eg);
      HeaderExactly(u, eh, h);
      SignatureExactly(u, pub, h.alg, eh + "." + ep, u.unbase64(eg).value);
    }
    if eh, ep, eg :| && jws == eh + "." + ep + "." + eg && eh != "" && ep != "" && eg != ""
                     && Free(eh, '.') && Free(ep, '.') && Free(eg, '.')
                     && EncodesHeader(u, eh, h) && AlgOf(pub, h.alg) && u.unbase64(eg).Some?
                     && SchemeAccepts(u, pub, eh + "." + ep, u.unbase64(eg).value) {
      StandardExactly(jws, eh, ep, eg);
      HeaderExactly(u, eh, h);
      SignatureExactly(u, pub, h.alg, eh + "." + ep, u.unbase64(eg).value);
    }
  }

  // ---- exactly what is signed ----------------------------------------------

  function AlgName(pub: PublicKey): string {
    match pub
    case Ecdsa(_, _) => "ES256"
    case Rsa(_) => "RS256"
    case Ed25519(_) => "EdDSA"
    case Unsupported => ""
  }

  /** The key manager can sign the input with the key in a form that goes on the wire:
      RSA bytes as they are, ECDSA as two scalars that fit the curve. */
  ghost predicate Signable(u: Suite, km: KeyManager, keyId: string, pub: PublicKey, input: string) {
    km.sign(keyId, u.digest(input)).Some? &&
    var raw := km.sign(keyId, u.digest(input)).value;
    pub.Rsa? || (pub.Ecdsa? && P1363.DerToP1363(u.asn1, raw, pub.coordBytes).Ok?)
  }

  /** The request can be signed: a known key of a supported kind, no algorithm named or
      the key's own, a payload that canonicalizes and a header that marshals. */
  ghost predicate CanSign(u: Suite, km: KeyManager, keyId: string, header: Header, kid: string, payload: seq<byte>) {
    && km.publicKey(keyId).Some?
    && var pub := km.publicKey(keyId).value;
       && !pub.Unsupported? && (header.alg == "" || header.alg == AlgName(pub)) && u.canonicalize(payload).Some?
       && var json := u.marshal(header.(alg := AlgName(pub), kid := kid));
          && json.Some?
          && Signable(u, km, keyId, pub, u.base64(json.value) + "." + u.base64(u.canonicalize(payload).value))
  }

  /** When signing succeeds, in either form. */
  lemma SignsExactly(u: Suite, km: KeyManager, keyId: string, header: Header, payload: seq<byte>)
    ensures SignDetached(u, km, keyId, header, payload).Ok? <==> CanSign(u, km, keyId, header, keyId, payload)
    ensures SignStandard(u, km, keyId, header, payload).Ok? <==>
              CanSign(u, km, keyId, header, if header.kid == "" then keyId else header.kid, payload)
  {
    hide P1363.DerToP1363;
  }
}
