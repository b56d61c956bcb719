/** The agent registration aggregate: lifecycle status, certificate order state
    and the domain events it raises. */
module Registration {
  import opened Prelude

  datatype Status = PendingValidation | PendingDns | Active | Deprecated | Revoked | Failed | Expired
  {
    predicate IsPending() {
      PendingValidation? || PendingDns?
    }

    predicate IsTerminal() {
      Revoked? || Failed? || Expired?
    }

    predicate CanTransitionTo(target: Status) {
      target in ValidTransitions(this)
    }
  }

  /** The transition table. */
  function ValidTransitions(s: Status): set<Status> {
    match s
    case PendingValidation => {PendingDns, Failed, Revoked, Expired}
    case PendingDns => {Active, Failed, Revoked, Expired}
    case Active => {Deprecated, Revoked}
    case Deprecated => {Revoked}
    case _ => {}
  }

  /** The certificate order's own lifecycle; NoOrder is the zero value of
      registrations that predate order persistence. */
  datatype OrderState = NoOrder | OrderPending | OrderIssuing | OrderCompleted | OrderFailed

  datatype Event =
    | AgentRegistered(agentId: string, ansName: string, ownerId: string, at: int)
    | AgentActivated(agentId: string, ansName: string, at: int)
    | AgentDeprecated(agentId: string, ansName: string, supersededBy: string, at: int)
    | AgentRevoked(agentId: string, ansName: string, reason: string, at: int)

  datatype Csr = Csr(id: string, pem: string, at: int)

  datatype Aggregate = Aggregate(
    agentId: string, ansName: string, status: Status, order: OrderState,
    pending: seq<Event>, identityCsr: Option<Csr>, serverCsr: Option<Csr>)

  /** Every state-changing method of the aggregate and of its order. */
  datatype Op =
    | Activate(now: int) | AdvanceToPendingDns | Deprecate(successor: string, now: int)
    | Revoke(reason: string, now: int) | Cancel(now: int) | CancelForHostConflict | Fail | Expire
    | SubmitIdentityCsr(csr: Csr) | SubmitServerCsr(csr: Csr)
    | MarkIssuing | MarkCompleted | MarkFailed
    | ClearEvents

  predicate ValidReason(reason: string) {
    reason in {"KEY_COMPROMISE", "CESSATION_OF_OPERATION", "AFFILIATION_CHANGED", "SUPERSEDED",
               "CERTIFICATE_HOLD", "PRIVILEGE_WITHDRAWN", "AA_COMPROMISE"}
  }

  /** The error a method returns, if any. */
  function ErrorOf(r: Aggregate, op: Op): Option<string> {
    match op
    case Activate(_) => if r.status.IsPending() then None else Some("CANNOT_ACTIVATE")
    case AdvanceToPendingDns => Unless(r.status.CanTransitionTo(PendingDns), "INVALID_STATUS_TRANSITION")
    case Deprecate(_, _) => Unless(r.status.CanTransitionTo(Deprecated), "INVALID_STATUS_TRANSITION")
    case Revoke(reason, _) =>
      if !ValidReason(reason) then Some("INVALID_REVOCATION_REASON")
      else if r.status.IsPending() then Some("CANNOT_REVOKE_PENDING")
      else Unless(r.status.CanTransitionTo(Revoked), "INVALID_STATUS_TRANSITION")
    case Cancel(_) =>
      Unless(r.status.IsPending() && !(r.status.PendingValidation? && r.order.OrderPending?), "CANNOT_CANCEL")
    case CancelForHostConflict => Unless(r.status.IsPending(), "CANNOT_CANCEL")
    case Fail => Unless(r.status.IsPending(), "CANNOT_FAIL")
    case Expire => Unless(r.status.IsPending(), "CANNOT_EXPIRE")
    case SubmitIdentityCsr(_) => Unless(r.status.Active?, "AGENT_NOT_ACTIVE")
    case SubmitServerCsr(_) => None
    case MarkIssuing => Unless(r.order.OrderIssuing? || r.order.OrderPending?, "INVALID_ORDER_TRANSITION")
    case MarkCompleted => Unless(r.order.OrderPending? || r.order.OrderIssuing?, "INVALID_ORDER_TRANSITION")
    case MarkFailed => Unless(r.order.OrderPending? || r.order.OrderIssuing?, "INVALID_ORDER_TRANSITION")
    case ClearEvents => None
  }

  function Unless(ok: bool, code: string): Option<string> {
    if ok then None else Some(code)
  }

  /** The aggregate after a call; a failed call changes nothing. */
  function Next(r: Aggregate, op: Op): Aggregate {
    if ErrorOf(r, op).Some? then r else
      match op
      case Activate(now) =>
        r.(status := Active, pending := r.pending + [AgentActivated(r.agentId, r.ansName, now)])
      case AdvanceToPendingDns => r.(status := PendingDns)
      case Deprecate(successor, now) =>
        r.(status := Deprecated, pending := r.pending + [AgentDeprecated(r.agentId, r.ansName, successor, now)])
      case Revoke(reason, now) =>
        r.(status := Revoked, pending := r.pending + [AgentRevoked(r.agentId, r.ansName, reason, now)])
      case Cancel(now) =>
        r.(status := Revoked,
           pending := r.pending + [AgentRevoked(r.agentId, r.ansName, "CESSATION_OF_OPERATION", now)])
      case CancelForHostConflict => r.(status := Revoked)
      case Fail => r.(status := Failed)
      case Expire => r.(status := Expired)
      case SubmitIdentityCsr(csr) => r.(identityCsr := Some(csr))
      case SubmitServerCsr(csr) => r.(serverCsr := Some(csr))
      case MarkIssuing => r.(order := OrderIssuing)
      case MarkCompleted => r.(order := OrderCompleted)
      case MarkFailed => r.(order := OrderFailed)
      case ClearEvents => r.(pending := [])
  }

  /** The registration request, with the checks of other packages as outcomes, and
      the certificate order the service attaches to the new registration. */
  datatype Request = Request(
    agentId: string, ownerId: string, ansName: string, displayName: string, description: string,
    endpoints: nat, endpointsValid: bool, certMatches: bool, identityCsr: Option<Csr>, order: OrderState, now: int)

  function RequestError(q: Request): Option<string> {
    if q.agentId == "" then Some("MISSING_AGENT_ID")
    else if q.ownerId == "" then Some("MISSING_OWNER_ID")
    else if q.displayName == "" then Some("MISSING_DISPLAY_NAME")
    else if q.ansName == "" then Some("MISSING_ANS_NAME")
    else if |q.displayName| > 64 then Some("DISPLAY_NAME_TOO_LONG")
    else if |q.description| > 150 then Some("DESCRIPTION_TOO_LONG")
    else if q.endpoints == 0 then Some("MISSING_ENDPOINTS")
    else if !q.endpointsValid then Some("ENDPOINTS")
    else if !q.certMatches then Some("SERVER_CERT_FQDN_MISMATCH")
    else None
  }

  function New(q: Request): Aggregate {
    Aggregate(q.agentId, q.ansName, PendingValidation, q.order,
              [AgentRegistered(q.agentId, q.ansName, q.ownerId, q.now)], q.identityCsr, None)
  }

  class AgentRegistration {
    const agentId: string
    const ansName: string
    var status: Status
    var order: OrderState
    var pendingEvents: seq<Event>
    var identityCsr: Option<Csr>
    var serverCsr: Option<Csr>

    ghost function State(): Aggregate
      reads this
    {
      Aggregate(agentId, ansName, status, order, pendingEvents, identityCsr, serverCsr)
    }

    constructor (q: Request)
      requires RequestError(q).None?
      ensures State() == New(q)
    {
      agentId, ansName, status, order := q.agentId, q.ansName, PendingValidation, q.order;
      pendingEvents := [AgentRegistered(q.agentId, q.ansName, q.ownerId, q.now)];
      identityCsr, serverCsr := q.identityCsr, None;
    }

    method AddEvent(e: Event)
      modifies this`pendingEvents
      ensures pendingEvents == old(pendingEvents) + [e]
    {
      pendingEvents := pendingEvents + [e];
    }

    method TransitionTo(target: Status) returns (err: Option<string>)
      modifies this`status
      ensures err == Unless(old(status).CanTransitionTo(target), "INVALID_STATUS_TRANSITION")
      ensures status == if err.None? then target else old(status)
    {
      if !status.CanTransitionTo(target) {
        return Some("INVALID_STATUS_TRANSITION");
      }
      status := target;
      return None;
    }

    method Activate(now: int) returns (err: Option<string>)
      modifies this
      ensures err == ErrorOf(old(State()), Op.Activate(now))
      ensures State() == Next(old(State()), Op.Activate(now))
    {
      if !status.IsPending() {
        return Some("CANNOT_ACTIVATE");
      }
      status := Active;
      AddEvent(AgentActivated(agentId, ansName, now));
      return None;
    }

    method AdvanceToPendingDns() returns (err: Option<string>)
      modifies this
      ensures err == ErrorOf(old(State()), Op.AdvanceToPendingDns)
      ensures State() == Next(old(State()), Op.AdvanceToPendingDns)
    {
      err := TransitionTo(PendingDns);
    }

    method Deprecate(successor: string, now: int) returns (err: Option<string>)
      modifies this
      ensures err == ErrorOf(old(State()), Op.Deprecate(successor, now))
      ensures State() == Next(old(State()), Op.Deprecate(successor, now))
    {
      err := TransitionTo(Deprecated);
      if err.None? {
        AddEvent(AgentDeprecated(agentId, ansName, successor, now));
      }
    }

    method Revoke(reason: string, now: int) returns (err: Option<string>)
      modifies this
      ensures err == ErrorOf(old(State()), Op.Revoke(reason, now))
      ensures State() == Next(old(State()), Op.Revoke(reason, now))
    {
      if !ValidReason(reason) {
        return Some("INVALID_REVOCATION_REASON");
      }
      if status.IsPending() {
        return Some("CANNOT_REVOKE_PENDING");
      }
      err := TransitionTo(Revoked);
      if err.None? {
        AddEvent(AgentRevoked(agentId, ansName, reason, now));
      }
    }

    method Cancel(now: int) returns (err: Option<string>)
      modifies this
      ensures err == ErrorOf(old(State()), Op.Cancel(now))
      ensures State() == Next(old(State()), Op.Cancel(now))
    {
      if !status.IsPending() {
        return Some("CANNOT_CANCEL");
      }
      if status.PendingValidation? && order.OrderPending? {
        return Some("CANNOT_CANCEL");
      }
      status := Revoked;
      AddEvent(AgentRevoked(agentId, ansName, "CESSATION_OF_OPERATION", now));
      return None;
    }

    method CancelForHostConflict() returns (err: Option<string>)
      modifies this
      ensures err == ErrorOf(old(State()), Op.CancelForHostConflict)
      ensures State() == Next(old(State()), Op.CancelForHostConflict)
    {
      if !status.IsPending() {
        return Some("CANNOT_CANCEL");
      }
      status := Revoked;
      return None;
    }

    method Fail() returns (err: Option<string>)
      modifies this
      ensures err == ErrorOf(old(State()), Op.Fail)
      ensures State() == Next(old(State()), Op.Fail)
    {
      if !status.IsPending() {
        return Some("CANNOT_FAIL");
      }
      status := Failed;
      return None;
    }

    method Expire() returns (err: Option<string>)
      modifies this
      ensures err == ErrorOf(old(State()), Op.Expire)
      ensures State() == Next(old(State()), Op.Expire)
    {
      if !status.IsPending() {
        return Some("CANNOT_EXPIRE");
      }
      status := Expired;
      return None;
    }

    method SubmitIdentityCsr(csr: Csr) returns (err: Option<string>)
      modifies this
      ensures err == ErrorOf(old(State()), Op.SubmitIdentityCsr(csr))
      ensures State() == Next(old(State()), Op.SubmitIdentityCsr(csr))
    {
      if !status.Active? {
        return Some("AGENT_NOT_ACTIVE");
      }
      identityCsr := Some(csr);
      return None;
    }

    method SubmitServerCsr(csr: Csr) returns (err: Option<string>)
      modifies this
      ensures err == ErrorOf(old(State()), Op.SubmitServerCsr(csr))
      ensures State() == Next(old(State()), Op.SubmitServerCsr(csr))
    {
      serverCsr := Some(csr);
      return None;
    }

    method MarkIssuing() returns (err: Option<string>)
      modifies this
      ensures err == ErrorOf(old(State()), Op.MarkIssuing)
      ensures State() == Next(old(State()), Op.MarkIssuing)
    {
      if order.OrderIssuing? {
        return None;
      }
      if !order.OrderPending? {
        return Some("INVALID_ORDER_TRANSITION");
      }
      order := OrderIssuing;
      return None;
    }

    method MarkCompleted() returns (err: Option<string>)
      modifies this
      ensures err == ErrorOf(old(State()), Op.MarkCompleted)
      ensures State() == Next(old(State()), Op.MarkCompleted)
    {
      if !order.OrderPending? && !order.OrderIssuing? {
        return Some("INVALID_ORDER_TRANSITION");
      }
      order := OrderCompleted;
      return None;
    }

    method MarkFailed() returns (err: Option<string>)
      modifies this
      ensures err == ErrorOf(old(State()), Op.MarkFailed)
      ensures State() == Next(old(State()), Op.MarkFailed)
    {
      if !order.OrderPending? && !order.OrderIssuing? {
        return Some("INVALID_ORDER_TRANSITION");
      }
      order := OrderFailed;
      return None;
    }

    method ClearEvents() returns (events: seq<Event>)
      modifies this
      ensures events == old(pendingEvents) && State() == Next(old(State()), Op.ClearEvents)
    {
      events := pendingEvents;
      pendingEvents := [];
    }
  }

  method NewRegistration(q: Request) returns (reg: AgentRegistration?, err: Option<string>)
    ensures err == RequestError(q)
    ensures if err.None? then reg != null && fresh(reg) && reg.State() == New(q) else reg == null
  {
    err := RequestError(q);
    reg := null;
    if err.None? {
      reg := new AgentRegistration(q);
    }
  }

  // ---- whole runs ----------------------------------------------------------

  /** A registration together with the events already handed out. */
  datatype History = History(reg: Aggregate, cleared: seq<Event>)
  {
    function Trail(): seq<Event> {
      cleared + reg.pending
    }
  }

  ghost function Step(h: History, op: Op): History {
    History(Next(h.reg, op), if op.ClearEvents? then h.cleared + h.reg.pending else h.cleared)
  }

  ghost function Run(h: History, ops: seq<Op>): History
    decreases |ops|
  {
    if ops == [] then h else Run(Step(h, ops[0]), ops[1..])
  }

  function Rank(s: Status): nat {
    match s
    case PendingValidation => 4
    case PendingDns => 3
    case Active => 2
    case Deprecated => 1
    case _ => 0
  }

  /** A status change follows the table or is Activate's fast track, and always
      goes down in rank; nothing leaves a terminal status. */
  lemma StatusChangesDescend(r: Aggregate, op: Op)
    ensures var r' := Next(r, op);
            r'.status != r.status ==>
              && (|| r'.status in ValidTransitions(r.status)
                  || (op.Activate? && r.status.PendingValidation? && r'.status.Active?))
              && Rank(r'.status) < Rank(r.status)
              && !r.status.IsTerminal()
              && ErrorOf(r, op).None?
  {
  }

  ghost function StatusChanges(h: History, ops: seq<Op>): nat
    decreases |ops|
  {
    if ops == [] then 0 else
      (if Step(h, ops[0]).reg.status != h.reg.status then 1 else 0) + StatusChanges(Step(h, ops[0]), ops[1..])
  }

  /** Any run makes at most four status changes, fewer the further along it
      starts; from a terminal status it makes none. */
  lemma {:induction false} FewStatusChanges(h: History, ops: seq<Op>)
    ensures StatusChanges(h, ops) + Rank(Run(h, ops).reg.status) <= Rank(h.reg.status)
    ensures h.reg.status.IsTerminal() ==> Run(h, ops).reg.status == h.reg.status
    decreases |ops|
  {
    if ops != [] {
      StatusChangesDescend(h.reg, ops[0]);
      FewStatusChanges(Step(h, ops[0]), ops[1..]);
    }
  }

  // ---- when calls succeed, and what they lead to ---------------------------

  /** When a call succeeds, in terms of the two states alone. */
  lemma CallsSucceedExactly(r: Aggregate, op: Op)
    ensures var s, o := r.status, r.order;
            ErrorOf(r, op).None? <==>
              match op
              case Activate(_) => s in {PendingValidation, PendingDns}
              case AdvanceToPendingDns => s == PendingValidation
              case Deprecate(_, _) => s == Active
              case Revoke(reason, _) => KnownReason(reason) && s in {Active, Deprecated}
              case Cancel(_) => s == PendingDns || (s == PendingValidation && o != OrderPending)
              case CancelForHostConflict => s in {PendingValidation, PendingDns}
              case Fail => s in {PendingValidation, PendingDns}
              case Expire => s in {PendingValidation, PendingDns}
              case SubmitIdentityCsr(_) => s == Active
              case SubmitServerCsr(_) => true
              case MarkIssuing => o in {OrderPending, OrderIssuing}
              case MarkCompleted => o in {OrderPending, OrderIssuing}
              case MarkFailed => o in {OrderPending, OrderIssuing}
              case ClearEvents => true
  {
  }

  /** The reasons of RFC 5280 a revocation may give. */
  ghost predicate KnownReason(reason: string) {
    || reason == "KEY_COMPROMISE" || reason == "CESSATION_OF_OPERATION" || reason == "AFFILIATION_CHANGED"
    || reason == "SUPERSEDED" || reason == "CERTIFICATE_HOLD" || reason == "PRIVILEGE_WITHDRAWN"
    || reason == "AA_COMPROMISE"
  }

  /** The code a refused call returns. */
  lemma RefusalsNameTheirCause(r: Aggregate, op: Op)
    requires ErrorOf(r, op).Some?
    ensures ErrorOf(r, op).value ==
              match op
              case Activate(_) => "CANNOT_ACTIVATE"
              case Revoke(reason, _) =>
                if !KnownReason(reason) then "INVALID_REVOCATION_REASON"
                else if r.status in {PendingValidation, PendingDns} then "CANNOT_REVOKE_PENDING"
                else "INVALID_STATUS_TRANSITION"
              case Cancel(_) => "CANNOT_CANCEL"
              case CancelForHostConflict => "CANNOT_CANCEL"
              case Fail => "CANNOT_FAIL"
              case Expire => "CANNOT_EXPIRE"
              case SubmitIdentityCsr(_) => "AGENT_NOT_ACTIVE"
              case MarkIssuing => "INVALID_ORDER_TRANSITION"
              case MarkCompleted => "INVALID_ORDER_TRANSITION"
              case MarkFailed => "INVALID_ORDER_TRANSITION"
              case _ => "INVALID_STATUS_TRANSITION"
  {
  }

  /** The checks on a request, in order, each with the code it fails with. */
  ghost function Checks(q: Request): seq<(bool, string)> {
    [(q.agentId != "", "MISSING_AGENT_ID"), (q.ownerId != "", "MISSING_OWNER_ID"),
     (q.displayName != "", "MISSING_DISPLAY_NAME"), (q.ansName != "", "MISSING_ANS_NAME"),
     (|q.displayName| <= 64, "DISPLAY_NAME_TOO_LONG"), (|q.description| <= 150, "DESCRIPTION_TOO_LONG"),
     (q.endpoints >= 1, "MISSING_ENDPOINTS"), (q.endpointsValid, "ENDPOINTS"),
     (q.certMatches, "SERVER_CERT_FQDN_MISMATCH")]
  }

  /** A request is refused with the code of the first check that fails, and accepted
      exactly when none does. */
  lemma FirstFailedCheckRefuses(q: Request)
    ensures RequestError(q).None? <==> forall i :: 0 <= i < |Checks(q)| ==> Checks(q)[i].0
    ensures RequestError(q).Some? ==>
              exists i :: 0 <= i < |Checks(q)| && !Checks(q)[i].0 && RequestError(q) == Some(Checks(q)[i].1) &&
                forall j :: 0 <= j < i ==> Checks(q)[j].0
  {
    var cs := Checks(q);
    assert cs[0].0 && cs[1].0 && cs[2].0 && cs[3].0 && cs[4].0 && cs[5].0 && cs[6].0 && cs[7].0 && cs[8].0 <==>
           RequestError(q).None?;
  }

  /** The calls a status is reached by. */
  ghost predicate Reaches(op: Op, s: Status) {
    match s
    case PendingValidation => false
    case PendingDns => op.AdvanceToPendingDns?
    case Active => op.Activate?
    case Deprecated => op.Deprecate?
    case Revoked => op.Revoke? || op.Cancel? || op.CancelForHostConflict?
    case Failed => op.Fail?
    case Expired => op.Expire?
  }

  ghost predicate ReachesOrder(op: Op, o: OrderState) {
    match o
    case OrderIssuing => op.MarkIssuing?
    case OrderCompleted => op.MarkCompleted?
    case OrderFailed => op.MarkFailed?
    case _ => false
  }

  /** Some call of the run succeeded that reaches the status, or the order state. */
  ghost predicate Ever(h: History, ops: seq<Op>, s: Status)
    decreases |ops|
  {
    ops != [] && ((ErrorOf(h.reg, ops[0]).None? && Reaches(ops[0], s)) || Ever(Step(h, ops[0]), ops[1..], s))
  }

  ghost predicate EverOrder(h: History, ops: seq<Op>, o: OrderState)
    decreases |ops|
  {
    ops != [] && ((ErrorOf(h.reg, ops[0]).None? && ReachesOrder(ops[0], o)) || EverOrder(Step(h, ops[0]), ops[1..], o))
  }

  lemma StatusStep(r: Aggregate, op: Op, s: Status)
    ensures ErrorOf(r, op).None? && Reaches(op, s) ==> Next(r, op).status == s
    ensures Next(r, op).status != r.status ==> ErrorOf(r, op).None? && Reaches(op, Next(r, op).status)
    ensures s.IsTerminal() && r.status == s ==> Next(r, op).status == s
  {
  }

  lemma OrderStep(r: Aggregate, op: Op, o: OrderState)
    ensures ErrorOf(r, op).None? && ReachesOrder(op, o) ==> Next(r, op).order == o
    ensures Next(r, op).order != r.order ==> ErrorOf(r, op).None? && ReachesOrder(op, Next(r, op).order)
    ensures (o.OrderCompleted? || o.OrderFailed?) && r.order == o ==> Next(r, op).order == o
  {
  }

  /** The status tells what happened: a status the run did not start in was reached by
      a successful call for it, and a registration is FAILED, EXPIRED or REVOKED
      exactly when some such call succeeded. */
  lemma {:induction false} StatusTellsHistory(h: History, ops: seq<Op>, s: Status)
    ensures Run(h, ops).reg.status == s ==> h.reg.status == s || Ever(h, ops, s)
    ensures s in {Failed, Expired, Revoked} ==>
              (Run(h, ops).reg.status == s <==> h.reg.status == s || Ever(h, ops, s))
    decreases |ops|
  {
    if ops != [] {
      StatusStep(h.reg, ops[0], s);
      hide Next, ErrorOf, Reaches;
      StatusTellsHistory(Step(h, ops[0]), ops[1..], s);
    }
  }

  /** So does the order: it is COMPLETED or FAILED exactly when it was, or when the
      call for it succeeded. */
  lemma {:induction false} OrderTellsHistory(h: History, ops: seq<Op>, o: OrderState)
    ensures Run(h, ops).reg.order == o ==> h.reg.order == o || EverOrder(h, ops, o)
    ensures o in {OrderCompleted, OrderFailed} ==>
              (Run(h, ops).reg.order == o <==> h.reg.order == o || EverOrder(h, ops, o))
    decreases |ops|
  {
    if ops != [] {
      OrderStep(h.reg, ops[0], o);
      hide Next, ErrorOf, ReachesOrder;
      OrderTellsHistory(Step(h, ops[0]), ops[1..], o);
    }
  }

  /** The CSRs last submitted with success, read off the calls. */
  ghost function LastCsrs(h: History, ops: seq<Op>, identity: Option<Csr>, server: Option<Csr>)
    : (Option<Csr>, Option<Csr>)
    decreases |ops|
  {
    if ops == [] then (identity, server)
    else LastCsrs(Step(h, ops[0]), ops[1..],
                  if ops[0].SubmitIdentityCsr? && h.reg.status.Active? then Some(ops[0].csr) else identity,
                  if ops[0].SubmitServerCsr? then Some(ops[0].csr) else server)
  }

  lemma {:induction false} CsrsAreTheLatest(h: History, ops: seq<Op>)
    ensures (Run(h, ops).reg.identityCsr, Run(h, ops).reg.serverCsr) ==
              LastCsrs(h, ops, h.reg.identityCsr, h.reg.serverCsr)
    decreases |ops|
  {
    if ops != [] {
      CsrsAreTheLatest(Step(h, ops[0]), ops[1..]);
    }
  }

  datatype Kind = R | A | D | V

  function KindOf(e: Event): Kind {
    match e
    case AgentRegistered(_, _, _, _) => R
    case AgentActivated(_, _, _) => A
    case AgentDeprecated(_, _, _, _) => D
    case AgentRevoked(_, _, _, _) => V
  }

  function Kinds(es: seq<Event>): (ks: seq<Kind>)
    ensures |ks| == |es|
  {
    seq(|es|, i requires 0 <= i < |es| => KindOf(es[i]))
  }

  /** The trails a status allows. */
  function AllowedTrails(s: Status): set<seq<Kind>> {
    match s
    case Active => {[R, A]}
    case Deprecated => {[R, A, D]}
    case Revoked => {[R], [R, V], [R, A, V], [R, A, D, V]}
    case _ => {[R]}
  }

  ghost predicate TrailFits(h: History) {
    && Kinds(h.Trail()) in AllowedTrails(h.reg.status)
    && forall i :: 0 <= i < |h.Trail()| ==>
         h.Trail()[i].agentId == h.reg.agentId && h.Trail()[i].ansName == h.reg.ansName
  }

  /** The event a call raises, if any. */
  function Raised(r: Aggregate, op: Op): (es: seq<Event>)
    ensures |es| <= 1
    ensures es != [] ==> es[0].agentId == r.agentId && es[0].ansName == r.ansName
  {
    if ErrorOf(r, op).Some? then [] else
      match op
      case Activate(now) => [AgentActivated(r.agentId, r.ansName, now)]
      case Deprecate(successor, now) => [AgentDeprecated(r.agentId, r.ansName, successor, now)]
      case Revoke(reason, now) => [AgentRevoked(r.agentId, r.ansName, reason, now)]
      case Cancel(now) => [AgentRevoked(r.agentId, r.ansName, "CESSATION_OF_OPERATION", now)]
      case _ => []
  }

  /** Handing events out moves them without changing the trail; every other call
      extends it by what it raises. */
  lemma TrailStep(h: History, op: Op)
    ensures Step(h, op).Trail() == h.Trail() + Raised(h.reg, op)
  {
  }

  /** What a call raises is what its status change calls for. */
  lemma KindsStep(r: Aggregate, op: Op, ks: seq<Kind>)
    requires ks in AllowedTrails(r.status)
    ensures ks + Kinds(Raised(r, op)) in AllowedTrails(Next(r, op).status)
  {
    var raised := Raised(r, op);
    if raised == [] {
      assert ks + Kinds(raised) == ks;
    } else {
      assert Kinds(raised) == [KindOf(raised[0])];
      assert [R] + [A] == [R, A] && [R, A] + [D] == [R, A, D] && [R] + [V] == [R, V];
      assert [R, A] + [V] == [R, A, V] && [R, A, D] + [V] == [R, A, D, V];
    }
  }

  lemma TrailFitsStep(h: History, op: Op)
    requires TrailFits(h)
    ensures TrailFits(Step(h, op))
  {
    hide AllowedTrails, Raised, KindOf;
    TrailStep(h, op);
    KindsStep(h.reg, op, Kinds(h.Trail()));
    assert Kinds(h.Trail() + Raised(h.reg, op)) == Kinds(h.Trail()) + Kinds(Raised(h.reg, op));
  }

  lemma {:induction false} TrailFitsRun(h: History, ops: seq<Op>)
    requires TrailFits(h)
    ensures TrailFits(Run(h, ops))
    decreases |ops|
  {
    if ops != [] {
      TrailFitsStep(h, ops[0]);
      TrailFitsRun(Step(h, ops[0]), ops[1..]);
    }
  }

  /** Over every run of methods, interleaved in any way with handing events out,
      the events raised so far are fixed by the status (for REVOKED, by how it was
      reached) and all name this registration. */
  lemma TrailFollowsStatus(q: Request, ops: seq<Op>)
    requires RequestError(q).None?
    ensures var h := Run(History(New(q), []), ops);
            TrailFits(h) && h.reg.agentId == q.agentId && h.reg.ansName == q.ansName
  {
    var h := History(New(q), []);
    assert Kinds(h.Trail()) == [R];
    TrailFitsRun(h, ops);
    NamesStay(h, ops);
  }

  lemma {:induction false} NamesStay(h: History, ops: seq<Op>)
    ensures Run(h, ops).reg.agentId == h.reg.agentId && Run(h, ops).reg.ansName == h.reg.ansName
    decreases |ops|
  {
    if ops != [] { NamesStay(Step(h, ops[0]), ops[1..]); }
  }

  /** COMPLETED and FAILED orders never change, and a registration that has
      become cancellable stays cancellable until it stops being pending. */
  lemma {:induction false} OrderAndCancelAreStable(h: History, ops: seq<Op>, now: int, now': int)
    ensures h.reg.order.OrderCompleted? || h.reg.order.OrderFailed? ==> Run(h, ops).reg.order == h.reg.order
    ensures ErrorOf(h.reg, Cancel(now)).None? && Run(h, ops).reg.status.IsPending() ==>
              ErrorOf(Run(h, ops).reg, Cancel(now')).None?
    decreases |ops|
  {
    if ops != [] {
      var h' := Step(h, ops[0]);
      CancelStaysOpen(h.reg, ops[0], now);
      hide Next, ErrorOf;
      OrderAndCancelAreStable(h', ops[1..], now, now');
      if !h'.reg.status.IsPending() {
        NeverPendingAgain(h', ops[1..]);
      }
    }
  }

  /** One call: the order of a finished registration stays, and cancelling stays
      possible unless the registration left the pending states for good. */
  lemma CancelStaysOpen(r: Aggregate, op: Op, now: int)
    ensures r.order.OrderCompleted? || r.order.OrderFailed? ==> Next(r, op).order == r.order
    ensures ErrorOf(r, Cancel(now)).None? ==>
              ErrorOf(Next(r, op), Cancel(now)).None? || !Next(r, op).status.IsPending()
    ensures !r.status.IsPending() ==> !Next(r, op).status.IsPending()
  {
  }

  lemma {:induction false} NeverPendingAgain(h: History, ops: seq<Op>)
    requires !h.reg.status.IsPending()
    ensures !Run(h, ops).reg.status.IsPending()
    decreases |ops|
  {
    if ops != [] {
      CancelStaysOpen(h.reg, ops[0], 0);
      NeverPendingAgain(Step(h, ops[0]), ops[1..]);
    }
  }
}
