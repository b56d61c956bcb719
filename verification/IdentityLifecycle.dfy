/** The verified-identity aggregate: control proofs, staged rotations, revocation. */
module IdentityLifecycle {
  import opened Prelude
  import opened Identifier
  import opened Text

  datatype Status = PendingControl | Verified | Revoked

  datatype Challenge = Challenge(nonce: string, expiresAt: int, consumed: bool)

  datatype Aggregate = Aggregate(
    kind: Kind, value: string, status: Status, proofMethod: string, pendingValue: string,
    subjectAid: string, pendingSubjectAid: string, challenge: Option<Challenge>)

  datatype Op =
    | IssueChallenge(nonce: string, ttl: int, now: int)
    | StageRotation(raw: string)
    | StageSubjectAid(aid: string)
    | CompleteVerification
    | Revoke

  function ProofMethodForKind(kind: Kind): string {
    match kind
    case DidWeb => "did-web-sig"
    case DidKey => "did-key-sig"
    case Lei => "lei-vlei-acdc"
  }

  function NewIdentity(identityId: string, providerId: string, raw: string): Result<Aggregate> {
    if identityId == "" then Err("INVALID_IDENTITY_ID")
    else if providerId == "" then Err("INVALID_PROVIDER_ID")
    else match Infer(raw)
      case Err(e) => Err(e)
      case Ok(r) => Ok(Aggregate(r.kind, r.canonical, PendingControl, "", "", "", "", None))
  }

  function ErrorOf(v: Aggregate, op: Op): Option<string> {
    match op
    case IssueChallenge(nonce, ttl, _) =>
      if v.status.Revoked? then Some("IDENTITY_REVOKED")
      else if nonce == "" || ttl <= 0 then Some("INVALID_CHALLENGE") else None
    case StageRotation(raw) =>
      if !v.status.Verified? then Some("IDENTITY_NOT_VERIFIED")
      else (match Infer(raw)
            case Err(e) => Some(e)
            case Ok(r) => if r.kind != v.kind then Some("IDENTIFIER_KIND_MISMATCH") else None)
    case StageSubjectAid(aid) => if aid == "" then Some("LEI_PRESENTATION_INVALID") else None
    case CompleteVerification => if v.status.Revoked? then Some("IDENTITY_REVOKED") else None
    case Revoke => if v.status.Verified? then None else Some("IDENTITY_NOT_VERIFIED")
  }

  function Next(v: Aggregate, op: Op): Aggregate {
    if ErrorOf(v, op).Some? then v else
      match op
      case IssueChallenge(nonce, ttl, now) => v.(challenge := Some(Challenge(nonce, now + ttl, false)))
      case StageRotation(raw) => v.(pendingValue := Infer(raw).value.canonical)
      case StageSubjectAid(aid) => v.(pendingSubjectAid := aid)
      case CompleteVerification =>
        v.(status := Verified,
           value := if v.status.Verified? && v.pendingValue != "" then v.pendingValue else v.value,
           subjectAid := if v.pendingSubjectAid != "" then v.pendingSubjectAid else v.subjectAid,
           pendingValue := "", pendingSubjectAid := "", proofMethod := ProofMethodForKind(v.kind))
      case Revoke =>
        v.(status := Revoked, pendingValue := "", pendingSubjectAid := "", challenge := None)
  }

  class VerifiedIdentity {
    const kind: Kind
    var value: string
    var status: Status
    var proofMethod: string
    var pendingValue: string
    var subjectAid: string
    var pendingSubjectAid: string
    var challenge: Option<Challenge>

    ghost function State(): Aggregate
      reads this
    {
      Aggregate(kind, value, status, proofMethod, pendingValue, subjectAid, pendingSubjectAid, challenge)
    }

    constructor (r: Inferred)
      ensures State() == Aggregate(r.kind, r.canonical, PendingControl, "", "", "", "", None)
    {
      kind, value, status := r.kind, r.canonical, PendingControl;
      proofMethod, pendingValue, subjectAid, pendingSubjectAid, challenge := "", "", "", "", None;
    }

    method IssueChallenge(nonce: string, ttl: int, now: int) returns (err: Option<string>)
      modifies this
      ensures err == ErrorOf(old(State()), Op.IssueChallenge(nonce, ttl, now))
      ensures State() == Next(old(State()), Op.IssueChallenge(nonce, ttl, now))
    {
      if status.Revoked? {
        return Some("IDENTITY_REVOKED");
      }
      if nonce == "" || ttl <= 0 {
        return Some("INVALID_CHALLENGE");
      }
      challenge := Some(Challenge(nonce, now + ttl, false));
      return None;
    }

    /** Present, unconsumed and unexpired. */
    method CheckChallenge(now: int) returns (err: Option<string>)
      ensures err.None? <==> challenge.Some? && !challenge.value.consumed && now < challenge.value.expiresAt
    {
      match challenge
      case None => return Some("IDENTIFIER_CHALLENGE_EXPIRED");
      case Some(c) =>
        if c.consumed {
          return Some("PRICC_TOKEN_ALREADY_USED");
        }
        if now >= c.expiresAt {
          return Some("PRICC_TOKEN_EXPIRED");
        }
        return None;
    }

    method StageRotation(raw: string) returns (err: Option<string>)
      modifies this
      ensures err == ErrorOf(old(State()), Op.StageRotation(raw))
      ensures State() == Next(old(State()), Op.StageRotation(raw))
    {
      if !status.Verified? {
        return Some("IDENTITY_NOT_VERIFIED");
      }
      var r := Infer(raw);
      if r.Err? {
        return Some(r.error);
      }
      if r.value.kind != kind {
        return Some("IDENTIFIER_KIND_MISMATCH");
      }
      pendingValue := r.value.canonical;
      return None;
    }

    method StageSubjectAid(aid: string) returns (err: Option<string>)
      modifies this
      ensures err == ErrorOf(old(State()), Op.StageSubjectAid(aid))
      ensures State() == Next(old(State()), Op.StageSubjectAid(aid))
    {
      if aid == "" {
        return Some("LEI_PRESENTATION_INVALID");
      }
      pendingSubjectAid := aid;
      return None;
    }

    /** Returns the replaced value when the proof completes a rotation. */
    method CompleteVerification() returns (previous: string, err: Option<string>)
      modifies this
      ensures err == ErrorOf(old(State()), Op.CompleteVerification)
      ensures State() == Next(old(State()), Op.CompleteVerification)
      ensures previous == if value != old(value) then old(value) else ""
    {
      previous := "";
      match status {
        case PendingControl =>
          status := Verified;
        case Verified =>
          if pendingValue != "" && pendingValue != value {
            previous := value;
            value := pendingValue;
          }
        case Revoked =>
          return "", Some("IDENTITY_REVOKED");
      }
      if pendingSubjectAid != "" {
        subjectAid := pendingSubjectAid;
      }
      pendingValue, pendingSubjectAid := "", "";
      proofMethod := ProofMethodForKind(kind);
      return previous, None;
    }

    method Revoke() returns (err: Option<string>)
      modifies this
      ensures err == ErrorOf(old(State()), Op.Revoke)
      ensures State() == Next(old(State()), Op.Revoke)
    {
      if !status.Verified? {
        return Some("IDENTITY_NOT_VERIFIED");
      }
      status := Revoked;
      pendingValue, pendingSubjectAid, challenge := "", "", None;
      return None;
    }
  }

  // ---- whole runs ----------------------------------------------------------

  ghost function Run(v: Aggregate, ops: seq<Op>): Aggregate
    decreases |ops|
  {
    if ops == [] then v else Run(Next(v, ops[0]), ops[1..])
  }

  /** The text is a canonical identifier of the kind. */
  ghost predicate Canonical(kind: Kind, text: string) {
    Infer(text) == Ok(Inferred(kind, text))
  }

  ghost predicate Sound(v: Aggregate) {
    && Canonical(v.kind, v.value)
    && (v.pendingValue != "" ==> v.status.Verified? && Canonical(v.kind, v.pendingValue))
    && v.proofMethod == (if v.status.PendingControl? then ""
                         else if v.kind.DidWeb? then "did-web-sig"
                         else if v.kind.DidKey? then "did-key-sig" else "lei-vlei-acdc")
    && (v.status.Revoked? ==> v.challenge.None?)
  }

  lemma SoundStep(v: Aggregate, op: Op)
    requires Sound(v)
    ensures Sound(Next(v, op)) && Next(v, op).kind == v.kind
    ensures v.status.Revoked? ==> Next(v, op) == v.(pendingSubjectAid := Next(v, op).pendingSubjectAid)
    ensures Next(v, op).value != v.value ==>
              op.CompleteVerification? && v.status.Verified? && Next(v, op).value == v.pendingValue
  {
    hide Infer;
    if op.StageRotation? && ErrorOf(v, op).None? {
      CanonicalIsFixed(op.raw);
    }
  }

  /** Over every run of the aggregate's methods: the kind never changes; value and
      staged value are fixed points of inference for that kind; a value is staged
      only while VERIFIED; the proof method is empty exactly while PENDING_CONTROL;
      REVOKED keeps status, value and proven signer, and has no challenge. */
  lemma {:induction false} SoundRun(v: Aggregate, ops: seq<Op>)
    requires Sound(v)
    ensures Sound(Run(v, ops)) && Run(v, ops).kind == v.kind
    ensures v.status.Revoked? ==> Run(v, ops) == v.(pendingSubjectAid := Run(v, ops).pendingSubjectAid)
    decreases |ops|
  {
    if ops != [] {
      SoundStep(v, ops[0]);
      SoundRun(Next(v, ops[0]), ops[1..]);
    }
  }

  /** What is made of a request: nothing without ids or for a text that names no
      identifier, else the unproven identity of the canonical text. */
  lemma NewIdentityExactly(identityId: string, providerId: string, raw: string, v: Aggregate)
    ensures NewIdentity(identityId, providerId, raw) == Ok(v) <==>
              && identityId != "" && providerId != "" && Infer(raw) == Ok(Inferred(v.kind, v.value))
              && v == Aggregate(v.kind, v.value, PendingControl, "", "", "", "", None)
    ensures identityId == "" ==> NewIdentity(identityId, providerId, raw) == Err("INVALID_IDENTITY_ID")
    ensures identityId != "" && providerId == "" ==>
              NewIdentity(identityId, providerId, raw) == Err("INVALID_PROVIDER_ID")
  {
    hide Infer;
    if NewIdentity(identityId, providerId, raw) == Ok(v) {
      assert Infer(raw).value == Inferred(v.kind, v.value);
    }
  }

  lemma NewIdentityIsSound(identityId: string, providerId: string, raw: string)
    ensures NewIdentity(identityId, providerId, raw).Ok? ==> Sound(NewIdentity(identityId, providerId, raw).value)
  {
    hide Infer;
    if NewIdentity(identityId, providerId, raw).Ok? {
      CanonicalIsFixed(raw);
    }
  }

  /** A rotation that is abandoned leaves no trace: from VERIFIED, any calls other
      than a completed proof or a revocation keep the proven value, signer, proof
      method and status. */
  lemma {:induction false} NothingChangesUntilProven(v: Aggregate, ops: seq<Op>)
    requires v.status.Verified?
    requires forall i :: 0 <= i < |ops| ==> !ops[i].CompleteVerification? && !ops[i].Revoke?
    ensures var e := Run(v, ops);
            e.status == v.status && e.value == v.value && e.subjectAid == v.subjectAid && e.proofMethod == v.proofMethod
    decreases |ops|
  {
    hide Infer;
    if ops != [] {
      NothingChangesUntilProven(Next(v, ops[0]), ops[1..]);
    }
  }

  // ---- what a completed proof does -----------------------------------------

  /** When a call succeeds. */
  lemma CallsSucceedExactly(v: Aggregate, op: Op)
    ensures ErrorOf(v, op).None? <==>
              match op
              case IssueChallenge(nonce, ttl, _) => v.status in {PendingControl, Verified} && nonce != "" && ttl > 0
              case StageRotation(raw) => v.status == Verified && Infer(raw).Ok? && Infer(raw).value.kind == v.kind
              case StageSubjectAid(aid) => aid != ""
              case CompleteVerification => v.status in {PendingControl, Verified}
              case Revoke => v.status == Verified
  {
    hide Infer;
  }

  /** The code a refused call returns; a text that names no identifier is refused with
      inference's own error. */
  lemma RefusalsNameTheirCause(v: Aggregate, op: Op)
    requires ErrorOf(v, op).Some?
    ensures ErrorOf(v, op).value ==
              match op
              case IssueChallenge(_, _, _) => if v.status == Revoked then "IDENTITY_REVOKED" else "INVALID_CHALLENGE"
              case StageRotation(raw) =>
                if v.status != Verified then "IDENTITY_NOT_VERIFIED"
                else if Infer(raw).Err? then Infer(raw).error else "IDENTIFIER_KIND_MISMATCH"
              case StageSubjectAid(_) => "LEI_PRESENTATION_INVALID"
              case CompleteVerification => "IDENTITY_REVOKED"
              case Revoke => "IDENTITY_NOT_VERIFIED"
  {
    hide Infer;
  }

  lemma {:induction false} RunThen(v: Aggregate, ops: seq<Op>, op: Op)
    ensures Run(v, ops + [op]) == Next(Run(v, ops), op)
    decreases |ops|
  {
    if ops == [] {
      assert ([] + [op])[1..] == [];
      assert Run(Next(v, op), []) == Next(v, op);
    } else {
      assert (ops + [op])[0] == ops[0] && (ops + [op])[1..] == ops[1..] + [op];
      RunThen(Next(v, ops[0]), ops[1..], op);
    }
  }

  lemma {:induction false} StagedValueStays(v: Aggregate, ops: seq<Op>)
    requires forall i :: 0 <= i < |ops| ==>
               !ops[i].CompleteVerification? && !ops[i].Revoke? && !ops[i].StageRotation?
    ensures Run(v, ops).pendingValue == v.pendingValue && Run(v, ops).status == v.status
    decreases |ops|
  {
    hide Infer;
    if ops != [] { StagedValueStays(Next(v, ops[0]), ops[1..]); }
  }

  lemma {:induction false} StagedSubjectStays(v: Aggregate, ops: seq<Op>)
    requires forall i :: 0 <= i < |ops| ==>
               !ops[i].CompleteVerification? && !ops[i].Revoke? && !ops[i].StageSubjectAid?
    ensures Run(v, ops).pendingSubjectAid == v.pendingSubjectAid && Run(v, ops).status == v.status
    decreases |ops|
  {
    hide Infer;
    if ops != [] { StagedSubjectStays(Next(v, ops[0]), ops[1..]); }
  }

  /** A staged rotation takes effect with the next completed proof, whatever
      challenges and staged signers come between, and only its canonical form is
      kept. */
  lemma RotationIsPromoted(v: Aggregate, raw: string, ops: seq<Op>)
    requires Sound(v) && ErrorOf(v, StageRotation(raw)).None?
    requires forall i :: 0 <= i < |ops| ==>
               !ops[i].CompleteVerification? && !ops[i].Revoke? && !ops[i].StageRotation?
    ensures var e := Run(v, [StageRotation(raw)] + ops + [CompleteVerification]);
            && e.status == Verified && e.value == Infer(raw).value.canonical
            && e.pendingValue == "" && e.pendingSubjectAid == ""
  {
    hide Infer;
    SoundStep(v, StageRotation(raw));
    var staged := Next(v, StageRotation(raw));
    assert ([StageRotation(raw)] + ops)[1..] == ops;
    StagedValueStays(staged, ops);
    RunThen(v, [StageRotation(raw)] + ops, CompleteVerification);
    NotEmpty(raw);
  }

  lemma NotEmpty(raw: string)
    requires Infer(raw).Ok?
    ensures Infer(raw).value.canonical != ""
  {
    hide IsLei, CanonicalizeDidWeb;
    CanonicalIsFixed(raw);
    EmptyIsUnsupported();
  }

  lemma EmptyIsUnsupported()
    ensures Infer("").Err?
  {
    assert Trimmed("");
    hide CanonicalizeDidWeb, ToUpper, Trimmed;
  }

  /** So does a staged signer. */
  lemma SubjectIsPromoted(v: Aggregate, aid: string, ops: seq<Op>)
    requires !v.status.Revoked? && aid != ""
    requires forall i :: 0 <= i < |ops| ==>
               !ops[i].CompleteVerification? && !ops[i].Revoke? && !ops[i].StageSubjectAid?
    ensures var e := Run(v, [StageSubjectAid(aid)] + ops + [CompleteVerification]);
            e.status == Verified && e.subjectAid == aid
  {
    hide Infer;
    var staged := Next(v, StageSubjectAid(aid));
    assert ([StageSubjectAid(aid)] + ops)[1..] == ops;
    StagedSubjectStays(staged, ops);
    RunThen(v, [StageSubjectAid(aid)] + ops, CompleteVerification);
  }

  /** A challenge stands, with its own nonce and expiry, until it is replaced or the
      identity revoked. */
  lemma {:induction false} ChallengeStands(v: Aggregate, ops: seq<Op>)
    requires forall i :: 0 <= i < |ops| ==> !ops[i].IssueChallenge? && !ops[i].Revoke?
    ensures Run(v, ops).challenge == v.challenge
    decreases |ops|
  {
    hide Infer;
    if ops != [] { ChallengeStands(Next(v, ops[0]), ops[1..]); }
  }

  lemma ChallengeIsIssued(v: Aggregate, nonce: string, ttl: int, now: int, ops: seq<Op>)
    requires !v.status.Revoked? && nonce != "" && ttl > 0
    requires forall i :: 0 <= i < |ops| ==> !ops[i].IssueChallenge? && !ops[i].Revoke?
    ensures var e := Run(v, [IssueChallenge(nonce, ttl, now)] + ops);
            e.challenge == Some(Challenge(nonce, now + ttl, false))
  {
    hide Infer;
    assert ([IssueChallenge(nonce, ttl, now)] + ops)[1..] == ops;
    ChallengeStands(Next(v, IssueChallenge(nonce, ttl, now)), ops);
  }
}
