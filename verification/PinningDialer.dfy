/** The did:web resolver's dialer: one address per host for the whole resolve,
    whatever DNS answers and however dials interleave. */
module PinningDialer {
  import opened Prelude

  type Host = string
  type Address = nat

  /** allowPrivate, and the address classes isPublicUnicast accepts. */
  datatype Policy = Policy(allowPrivate: bool, isPublicUnicast: Address -> bool)
  {
    predicate Permits(ip: Address) {
      allowPrivate || isPublicUnicast(ip)
    }
  }

  /** The first candidate the policy permits. */
  function FirstPermitted(p: Policy, ips: seq<Address>): (r: Option<Address>)
    ensures r.Some? ==> p.Permits(r.value) && (p.allowPrivate || p.isPublicUnicast(r.value)) && r.value in ips
    ensures r.None? ==> forall ip :: ip in ips ==> !p.Permits(ip)
    ensures r.None? && ips != [] ==> !p.allowPrivate && forall ip :: ip in ips ==> !p.isPublicUnicast(ip)
    ensures r.Some? ==> exists i :: 0 <= i < |ips| && ips[i] == r.value && forall j :: 0 <= j < i ==> !p.Permits(ips[j])
  {
    if ips == [] then None else if p.Permits(ips[0]) then Some(ips[0]) else FirstPermitted(p, ips[1..])
  }

  method ChooseAddress(p: Policy, ips: seq<Address>) returns (r: Option<Address>)
    ensures r == FirstPermitted(p, ips)
  {
    for i := 0 to |ips|
      invariant FirstPermitted(p, ips) == FirstPermitted(p, ips[i..])
    {
      if p.Permits(ips[i]) {
        return Some(ips[i]);
      }
      assert ips[i..][1..] == ips[i + 1..];
    }
    return None;
  }

  /** First writer wins. */
  function PinIfAbsent(pin: map<Host, Address>, host: Host, chosen: Address): map<Host, Address> {
    if host in pin then pin else pin[host := chosen]
  }

  /** The pin table; each method is one critical section of the mutex. */
  class PinTable {
    var pin: map<Host, Address>

    constructor ()
      ensures pin == map[]
    {
      pin := map[];
    }

    method Pin(host: Host, chosen: Address) returns (ip: Address)
      modifies this
      ensures pin == PinIfAbsent(old(pin), host, chosen)
      ensures ip == pin[host]
    {
      if host in pin {
        return pin[host];
      }
      pin := pin[host := chosen];
      return chosen;
    }

    /** One call from start to end, when no other call comes between: `ips` is the
        resolver's answer, empty when it fails. Beside any earlier dials it is a run
        of the step system below, and the address returned is the one connected to. */
    method DialContext(p: Policy, host: Host, port: string, ips: seq<Address>, ghost dials: seq<Dial>)
      returns (r: Option<Address>, ghost es: seq<Event>)
      modifies this
      ensures IsRun(p, State(old(pin), dials), es)
      ensures After(p, State(old(pin), dials), es) ==
                State(pin, dials + [if r.Some? then Connected(host, port, r.value) else Refused])
    {
      ghost var s0, d := State(pin, dials), |dials|;
      es := OneMore(p, s0, [], Call(host, port));
      es := OneMore(p, s0, es, Check(d));
      if port != "443" {
        return None, es;
      }
      if host in pin {
        return Some(pin[host]), es;
      }
      es := OneMore(p, s0, es, Answer(d, ips));
      var chosen := ChooseAddress(p, ips);
      if chosen.None? {
        return None, es;
      }
      es := OneMore(p, s0, es, SetPin(d));
      var ip := Pin(host, chosen.value);
      return Some(ip), es;
    }
  }

  // ---- concurrent dials ----------------------------------------------------

  /** One DialContext call between two of its steps. */
  datatype Dial =
    | Start(host: Host, port: string)
    | Resolving(host: Host, port: string)
    | Chosen(host: Host, port: string, ip: Address)
    | Connected(host: Host, port: string, ip: Address)
    | Refused

  datatype State = State(pin: map<Host, Address>, dials: seq<Dial>)

  /** Lookup, the resolver's answer (any list, at any time), the pin, a new call. */
  datatype Event = Call(host: Host, port: string) | Check(d: nat) | Answer(d: nat, ips: seq<Address>) | SetPin(d: nat)

  predicate Enabled(s: State, e: Event) {
    match e
    case Call(_, _) => true
    case Check(d) => d < |s.dials| && s.dials[d].Start?
    case Answer(d, _) => d < |s.dials| && s.dials[d].Resolving?
    case SetPin(d) => d < |s.dials| && s.dials[d].Chosen?
  }

  function Step(p: Policy, s: State, e: Event): State
    requires Enabled(s, e)
  {
    match e
    case Call(host, port) => s.(dials := s.dials + [Start(host, port)])
    case Check(d) =>
      var host := s.dials[d].host;
      s.(dials := s.dials[d :=
        if s.dials[d].port != "443" then Refused
        else if host in s.pin then Connected(host, s.dials[d].port, s.pin[host])
        else Resolving(host, s.dials[d].port)])
    case Answer(d, ips) =>
      var chosen := FirstPermitted(p, ips);
      var dial := s.dials[d];
      s.(dials := s.dials[d := if chosen.None? then Refused else Chosen(dial.host, dial.port, chosen.value)])
    case SetPin(d) =>
      var host := s.dials[d].host;
      var pin := PinIfAbsent(s.pin, host, s.dials[d].ip);
      State(pin, s.dials[d := Connected(host, s.dials[d].port, pin[host])])
  }

  ghost predicate IsRun(p: Policy, s: State, es: seq<Event>)
    decreases |es|
  {
    es == [] || (Enabled(s, es[0]) && IsRun(p, Step(p, s, es[0]), es[1..]))
  }

  ghost function After(p: Policy, s: State, es: seq<Event>): State
    requires IsRun(p, s, es)
    decreases |es|
  {
    if es == [] then s else After(p, Step(p, s, es[0]), es[1..])
  }

  lemma {:induction false} OneMore(p: Policy, s: State, es: seq<Event>, e: Event) returns (es': seq<Event>)
    requires IsRun(p, s, es) && Enabled(After(p, s, es), e)
    ensures es' == es + [e] && IsRun(p, s, es') && After(p, s, es') == Step(p, After(p, s, es), e)
    decreases |es|
  {
    es' := es + [e];
    if es == [] {
      var s' := Step(p, s, e);
      assert IsRun(p, s', []) && After(p, s', []) == s' && es'[1..] == [];
    } else {
      var _ := OneMore(p, Step(p, s, es[0]), es[1..], e);
      assert es'[0] == es[0] && es'[1..] == es[1..] + [e];
    }
  }

  ghost predicate Pinned(p: Policy, s: State) {
    && (forall h :: h in s.pin ==> p.Permits(s.pin[h]))
    && (forall d :: 0 <= d < |s.dials| && s.dials[d].Chosen? ==> p.Permits(s.dials[d].ip))
    && (forall d :: 0 <= d < |s.dials| && s.dials[d].Connected? ==>
          s.dials[d].host in s.pin && s.dials[d].ip == s.pin[s.dials[d].host])
    && (forall d :: 0 <= d < |s.dials| && !s.dials[d].Start? && !s.dials[d].Refused? ==> s.dials[d].port == "443")
  }

  /** Pins are only ever added. */
  ghost predicate Extends(pin: map<Host, Address>, pin': map<Host, Address>) {
    forall h :: h in pin ==> h in pin' && pin'[h] == pin[h]
  }

  lemma PinnedStep(p: Policy, s: State, e: Event)
    requires Pinned(p, s) && Enabled(s, e)
    ensures Pinned(p, Step(p, s, e)) && Extends(s.pin, Step(p, s, e).pin)
  {
  }

  lemma {:induction false} PinnedAfter(p: Policy, s: State, es: seq<Event>)
    requires Pinned(p, s) && IsRun(p, s, es)
    ensures Pinned(p, After(p, s, es)) && Extends(s.pin, After(p, s, es).pin)
    decreases |es|
  {
    if es != [] {
      PinnedStep(p, s, es[0]);
      PinnedAfter(p, Step(p, s, es[0]), es[1..]);
    }
  }

  lemma {:induction false} RunPrefix(p: Policy, s: State, es: seq<Event>, more: seq<Event>)
    requires IsRun(p, s, es + more)
    ensures IsRun(p, s, es) && IsRun(p, After(p, s, es), more)
    ensures After(p, After(p, s, es), more) == After(p, s, es + more)
    decreases |es|
  {
    if es == [] {
      assert es + more == more;
    } else {
      assert (es + more)[0] == es[0] && (es + more)[1..] == es[1..] + more;
      RunPrefix(p, Step(p, s, es[0]), es[1..], more);
    }
  }

  /** Some dial to the host connected to the address. */
  ghost predicate Used(s: State, host: Host, ip: Address) {
    exists port :: Connected(host, port, ip) in s.dials
  }

  /** Over every interleaving of dials and arbitrarily changing DNS answers: a
      pin once set never changes, every connection to a host uses its one pinned
      address on port 443, and that address passed the egress policy. Hosts are compared as
      text: spellings that differ in case are two hosts, with a pin each. */
  lemma OneAddressPerHost(p: Policy, es: seq<Event>, more: seq<Event>)
    requires IsRun(p, State(map[], []), es + more)
    ensures IsRun(p, State(map[], []), es)
    ensures var s := After(p, State(map[], []), es);
            var s' := After(p, State(map[], []), es + more);
            && Extends(s.pin, s'.pin)
            && (forall h, ip, ip' :: Used(s, h, ip) && Used(s', h, ip') ==> ip == ip')
            && (forall h, ip :: Used(s, h, ip) ==> p.allowPrivate || p.isPublicUnicast(ip))
            && (forall h, port, ip :: Connected(h, port, ip) in s.dials ==> port == "443")
  {
    var s0 := State(map[], []);
    RunPrefix(p, s0, es, more);
    PinnedAfter(p, s0, es);
    PinnedAfter(p, After(p, s0, es), more);
  }
}
