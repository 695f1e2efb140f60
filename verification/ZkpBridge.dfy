/**
 * The bridge to the proving web view: requests are numbered and injected once a web view is
 * registered, queued until then, and settled by the message that carries their number. Each call of
 * `send` is one request, known here by its place in the order of calls. Injecting a request may throw,
 * in `JSON.stringify` on its payload or in the injected function; the latter does not call back
 * into the bridge.
 */
module ZkpBridge {
  import opened Evm

  // ---------------------------------------------------------------------------------------
  // `String(n)`
  // ---------------------------------------------------------------------------------------

  function Decimal(n: nat): (s: string)
    ensures s != []
  {
    if n < 10 then [DigitChar(n)] else Decimal(n / 10) + [DigitChar(n % 10)]
  }

  function DigitChar(d: nat): char
    requires d < 10
  {
    "0123456789"[d]
  }

  lemma DigitCharInjective(d: nat, e: nat)
    requires d < 10 && e < 10 && DigitChar(d) == DigitChar(e)
    ensures d == e
  {
  }

  lemma {:induction false} DecimalInjective(n: nat, m: nat)
    requires Decimal(n) == Decimal(m)
    ensures n == m
    decreases n
  {
    var s, t := Decimal(n), Decimal(m);
    assert s[|s| - 1] == DigitChar(n % 10) && t[|t| - 1] == DigitChar(m % 10);
    DigitCharInjective(n % 10, m % 10);
    assert n >= 10 ==> s[..|s| - 1] == Decimal(n / 10);
    assert m >= 10 ==> t[..|t| - 1] == Decimal(m / 10);
    if n >= 10 && m >= 10 {
      DecimalInjective(n / 10, m / 10);
    }
  }

  /** What the digits of a number say, `'0'` to `'9'` being 0 to 9. */
  function ValueOf(s: string): int {
    if s == [] then 0 else 10 * ValueOf(s[..|s| - 1]) + (s[|s| - 1] as int - '0' as int)
  }

  /** `String(n)` is the decimal text of `n`, without leading zeros. */
  lemma {:induction false} DecimalIsDecimal(n: nat)
    ensures var s := Decimal(n);
            && ValueOf(s) == n
            && (forall i | 0 <= i < |s| :: '0' <= s[i] <= '9')
            && (|s| > 1 ==> s[0] != '0')
    decreases n
  {
    var s := Decimal(n);
    assert s[|s| - 1] == DigitChar(n % 10);
    DigitCharIs(n % 10);
    if n >= 10 {
      DecimalIsDecimal(n / 10);
      assert s[..|s| - 1] == Decimal(n / 10);
      if n / 10 < 10 { DigitCharIs(n / 10); }
    }
  }

  lemma DigitCharIs(d: nat)
    requires d < 10
    ensures DigitChar(d) as int == '0' as int + d
  {
  }

  // ---------------------------------------------------------------------------------------
  // State and calls
  // ---------------------------------------------------------------------------------------

  datatype Outcome = Resolved(id: string) | Rejected(id: string) | NotRegistered | InjectionFailed

  datatype Injection = Injection(id: string, request: nat)

  /**
   * The fields of the bridge, and what they act on: the number of `send` calls so far, the
   * injections made, and the promises settled.
   */
  datatype State = State(
    pending: map<string, nat>,
    hasInjector: bool,
    counter: nat,
    ready: bool,
    queue: seq<nat>,
    sent: nat,
    injected: seq<Injection>,
    settled: map<nat, Outcome>
  )

  const INITIAL := State(map[], false, 0, false, [], 0, [], map[])

  /** What `JSON.parse` makes of a message: nothing, or a type and, if it is a string, an id. */
  datatype Message = Unparseable | Message(id: Option<string>, isError: bool)

  /** A call, with what throws during it: the injection of the request sent, or of some queued ones. */
  datatype Call = Send(throws: bool) | Register(throwing: set<nat>) | Unregister | HandleMessage(msg: Message)

  /** Settling a promise a second time has no effect. */
  function Settle(settled: map<nat, Outcome>, request: nat, outcome: Outcome): map<nat, Outcome> {
    if request in settled then settled else settled[request := outcome]
  }

  /** The request is entered as pending before anything can throw. */
  function Dispatch(s: State, request: nat, throws: bool): State {
    if !s.hasInjector then s.(settled := Settle(s.settled, request, NotRegistered))
    else
      var id := Decimal(s.counter + 1);
      s.(counter := s.counter + 1, pending := s.pending[id := request],
         injected := if throws then s.injected else s.injected + [Injection(id, request)])
  }

  predicate Aborts(requests: seq<nat>, throwing: set<nat>) {
    exists r :: r in requests && r in throwing
  }

  /** Up to and including the first request whose injection throws. */
  function DispatchAll(s: State, requests: seq<nat>, throwing: set<nat>): State {
    if requests == [] then s
    else
      var front, last := requests[..|requests| - 1], requests[|requests| - 1];
      var s' := DispatchAll(s, front, throwing);
      if Aborts(front, throwing) then s' else Dispatch(s', last, last in throwing)
  }

  /** A throw in `send` rejects the promise; one in `register` leaves it by exception, with the queue as it was. */
  function Execute(s: State, call: Call): State {
    match call
    case Send(throws) =>
      var s' := s.(sent := s.sent + 1);
      if !s.ready then s'.(queue := s.queue + [s.sent])
      else
        var s'' := Dispatch(s', s.sent, throws);
        if throws then s''.(settled := Settle(s''.settled, s.sent, InjectionFailed)) else s''
    case Register(throwing) =>
      var s' := DispatchAll(s.(hasInjector := true, ready := true), s.queue, throwing);
      if Aborts(s.queue, throwing) then s' else s'.(queue := [])
    case Unregister => s.(hasInjector := false, ready := false)
    case HandleMessage(Unparseable) => s
    case HandleMessage(Message(id, isError)) =>
      if id.None? || id.value !in s.pending then s
      else s.(pending := s.pending - {id.value},
              settled := Settle(s.settled, s.pending[id.value], if isError then Rejected(id.value) else Resolved(id.value)))
  }

  function Run(s: State, calls: seq<Call>): State {
    if calls == [] then s else Execute(Run(s, calls[..|calls| - 1]), calls[|calls| - 1])
  }

  /** Nothing is dispatched after the request at which it aborts. */
  lemma {:induction false} AbortedPrefix(s: State, requests: seq<nat>, i: nat, throwing: set<nat>)
    requires i < |requests| && requests[i] in throwing
    ensures DispatchAll(s, requests, throwing) == DispatchAll(s, requests[..i + 1], throwing)
  {
    if i + 1 < |requests| {
      var front := requests[..|requests| - 1];
      assert front[i] == requests[i] && front[..i + 1] == requests[..i + 1];
      assert Aborts(front, throwing);
      AbortedPrefix(s, front, i, throwing);
    } else {
      assert requests[..i + 1] == requests;
    }
  }

  lemma DispatchNext(s: State, requests: seq<nat>, i: nat, throwing: set<nat>)
    requires i < |requests| && !Aborts(requests[..i], throwing)
    ensures DispatchAll(s, requests[..i + 1], throwing)
         == Dispatch(DispatchAll(s, requests[..i], throwing), requests[i], requests[i] in throwing)
    ensures Aborts(requests[..i + 1], throwing) <==> requests[i] in throwing
  {
    assert requests[..i + 1] == requests[..i] + [requests[i]];
    assert requests[..i + 1][..i] == requests[..i];
  }

  class Bridge {
    var pending: map<string, nat>
    var hasInjector: bool
    var counter: nat
    var ready: bool
    var queue: seq<nat>
    var sent: nat
    var injected: seq<Injection>
    var settled: map<nat, Outcome>

    ghost function View(): State
      reads this
    {
      State(pending, hasInjector, counter, ready, queue, sent, injected, settled)
    }

    constructor ()
      ensures View() == INITIAL
    {
      pending, hasInjector, counter, ready, queue := map[], false, 0, false, [];
      sent, injected, settled := 0, [], map[];
    }

    method DispatchOne(request: nat, throws: bool) returns (threw: bool)
      modifies this
      ensures View() == Dispatch(old(View()), request, throws)
      ensures threw <==> throws && old(hasInjector)
    {
      if !hasInjector {
        settled := Settle(settled, request, NotRegistered);
        return false;
      }
      counter := counter + 1;
      var id := Decimal(counter);
      pending := pending[id := request];
      if throws {
        return true;
      }
      injected := injected + [Injection(id, request)];
      return false;
    }

    method SendRequest(throws: bool) returns (request: nat)
      modifies this
      ensures request == old(sent) && View() == Execute(old(View()), Send(throws))
    {
      request := sent;
      sent := sent + 1;
      if ready {
        var threw := DispatchOne(request, throws);
        if threw {
          settled := Settle(settled, request, InjectionFailed);
        }
      } else {
        queue := queue + [request];
      }
    }

    method RegisterInjector(throwing: set<nat>) returns (threw: bool)
      modifies this
      ensures View() == Execute(old(View()), Register(throwing))
      ensures threw <==> Aborts(old(queue), throwing)
    {
      hasInjector := true;
      ready := true;
      ghost var s := View();
      var requests := queue;
      for i := 0 to |requests|
        invariant View() == DispatchAll(s, requests[..i], throwing)
        invariant hasInjector && !Aborts(requests[..i], throwing)
      {
        DispatchNext(s, requests, i, throwing);
        threw := DispatchOne(requests[i], requests[i] in throwing);
        if threw {
          AbortedPrefix(s, requests, i, throwing);
          return true;
        }
      }
      assert requests[..|requests|] == requests;
      queue := [];
      return false;
    }

    method UnregisterInjector()
      modifies this
      ensures View() == Execute(old(View()), Unregister)
    {
      hasInjector := false;
      ready := false;
    }

    method Receive(msg: Message)
      modifies this
      ensures View() == Execute(old(View()), HandleMessage(msg))
    {
      if msg.Unparseable? {
        return;
      }
      if msg.id.None? || msg.id.value !in pending {
        return;
      }
      var request := pending[msg.id.value];
      pending := pending - {msg.id.value};
      settled := Settle(settled, request, if msg.isError then Rejected(msg.id.value) else Resolved(msg.id.value));
    }
  }

  // ---------------------------------------------------------------------------------------
  // While nothing throws
  // ---------------------------------------------------------------------------------------

  /** The id under which a request is injected. */
  function IdOf(request: nat): string {
    Decimal(request + 1)
  }

  /**
   * The first `counter` requests have been injected, in the order they were sent, each under the id of its
   * place; the rest are queued, in that order.
   */
  ghost predicate InSendOrder(s: State) {
    && s.counter + |s.queue| == s.sent
    && InjectedInOrder(s)
    && (forall i | 0 <= i < |s.queue| :: s.queue[i] == s.counter + i)
  }

  ghost predicate InjectedInOrder(s: State) {
    |s.injected| == s.counter && forall i | 0 <= i < s.counter :: s.injected[i] == Injection(IdOf(i), i)
  }

  /** Each injected request is either pending, under its own id, or settled by a message with that id; no others are. */
  ghost predicate Accounted(s: State) {
    && (forall id | id in s.pending :: s.pending[id] < s.counter && id == IdOf(s.pending[id]))
    && (forall r | r in s.settled :: r < s.counter && s.settled[r] in {Resolved(IdOf(r)), Rejected(IdOf(r))})
    && (forall r | 0 <= r < s.counter :: IdOf(r) in s.pending <==> r !in s.settled)
  }

  /** Registered and ready are one, and nothing waits while ready. */
  ghost predicate Invariant(s: State) {
    && InSendOrder(s)
    && Accounted(s)
    && s.ready == s.hasInjector
    && (s.ready ==> s.queue == [])
  }

  lemma IdsDistinct(request: nat)
    ensures forall r: nat :: IdOf(r) == IdOf(request) ==> r == request
  {
    forall r: nat | IdOf(r) == IdOf(request) ensures r == request {
      DecimalInjective(r + 1, request + 1);
    }
  }

  /** Injecting the request whose turn it is. */
  lemma DispatchAccounted(s: State, request: nat, throws: bool)
    requires Accounted(s) && s.hasInjector && request == s.counter
    ensures Accounted(Dispatch(s, request, throws))
  {
    IdsDistinct(request);
  }

  lemma DispatchKeepsOrder(s: State, request: nat)
    requires InjectedInOrder(s) && s.hasInjector && request == s.counter
    ensures InjectedInOrder(Dispatch(s, request, false))
  {
  }

  /** Injecting consecutive requests, the first being the one whose turn it is, none of them throwing. */
  lemma {:induction false} DispatchAllResult(s: State, requests: seq<nat>, throwing: set<nat>)
    requires Accounted(s) && InjectedInOrder(s) && s.hasInjector && !Aborts(requests, throwing)
    requires forall i | 0 <= i < |requests| :: requests[i] == s.counter + i
    ensures var s' := DispatchAll(s, requests, throwing);
            && Accounted(s') && InjectedInOrder(s')
            && s' == s.(counter := s.counter + |requests|, pending := s'.pending, injected := s'.injected)
  {
    if requests != [] {
      var front, last := requests[..|requests| - 1], requests[|requests| - 1];
      assert last in requests && forall r | r in front :: r in requests;
      DispatchAllResult(s, front, throwing);
      var s1 := DispatchAll(s, front, throwing);
      assert last == s1.counter;
      DispatchAccounted(s1, last, false);
      DispatchKeepsOrder(s1, last);
    }
  }

  /** With a web view registered, dispatching changes the counter, the pending requests and the injections only. */
  lemma {:induction false} DispatchAllFrame(s: State, requests: seq<nat>, throwing: set<nat>)
    requires s.hasInjector
    ensures var s' := DispatchAll(s, requests, throwing);
            s' == s.(counter := s'.counter, pending := s'.pending, injected := s'.injected)
  {
    if requests != [] { DispatchAllFrame(s, requests[..|requests| - 1], throwing); }
  }

  lemma RegisterKeepsSettled(s: State, throwing: set<nat>)
    ensures var s' := Execute(s, Register(throwing));
            s'.settled == s.settled && s'.hasInjector && s'.ready
  {
    DispatchAllFrame(s.(hasInjector := true, ready := true), s.queue, throwing);
  }

  /** Moving one request from pending to settled, with an outcome under its own id. */
  lemma SettleAccounted(s: State, request: nat, outcome: Outcome)
    requires Accounted(s) && IdOf(request) in s.pending && s.pending[IdOf(request)] == request
    requires outcome in {Resolved(IdOf(request)), Rejected(IdOf(request))}
    ensures Accounted(s.(pending := s.pending - {IdOf(request)}, settled := Settle(s.settled, request, outcome)))
  {
    IdsDistinct(request);
  }

  lemma MessageAccounted(s: State, msg: Message)
    requires Accounted(s)
    ensures Accounted(Execute(s, HandleMessage(msg)))
  {
    if msg.Message? && msg.id.Some? && msg.id.value in s.pending {
      var id := msg.id.value;
      SettleAccounted(s, s.pending[id], if msg.isError then Rejected(id) else Resolved(id));
    }
  }

  // ---------------------------------------------------------------------------------------
  // Throwing
  // ---------------------------------------------------------------------------------------

  /** The call injects a request and that throws. */
  predicate Throws(s: State, call: Call) {
    match call
    case Send(throws) => s.ready && throws
    case Register(throwing) => Aborts(s.queue, throwing)
    case _ => false
  }

  predicate NoneThrows(calls: seq<Call>) {
    calls == [] ||
      var front, last := calls[..|calls| - 1], calls[|calls| - 1];
      NoneThrows(front) && !Throws(Run(INITIAL, front), last)
  }

  lemma SendKeepsInvariant(s: State, throws: bool)
    requires Invariant(s) && !Throws(s, Send(throws))
    ensures Invariant(Execute(s, Send(throws)))
  {
    if s.ready {
      var s1 := s.(sent := s.sent + 1);
      DispatchAccounted(s1, s.sent, false);
      DispatchKeepsOrder(s1, s.sent);
    }
  }

  lemma RegisterKeepsInvariant(s: State, throwing: set<nat>)
    requires Invariant(s) && !Throws(s, Register(throwing))
    ensures Invariant(Execute(s, Register(throwing)))
  {
    DispatchAllResult(s.(hasInjector := true, ready := true), s.queue, throwing);
  }

  lemma ExecuteKeepsInvariant(s: State, call: Call)
    requires Invariant(s) && !Throws(s, call)
    ensures Invariant(Execute(s, call))
  {
    match call {
      case Send(throws) => SendKeepsInvariant(s, throws);
      case Register(throwing) => RegisterKeepsInvariant(s, throwing);
      case Unregister =>
      case HandleMessage(msg) => MessageAccounted(s, msg);
    }
  }

  lemma {:induction false} RunKeepsInvariant(calls: seq<Call>)
    requires NoneThrows(calls)
    ensures Invariant(Run(INITIAL, calls))
  {
    if calls != [] {
      RunKeepsInvariant(calls[..|calls| - 1]);
      ExecuteKeepsInvariant(Run(INITIAL, calls[..|calls| - 1]), calls[|calls| - 1]);
    }
  }

  // ---------------------------------------------------------------------------------------
  // Conservation
  // ---------------------------------------------------------------------------------------

  function PendingRequests(s: State): set<nat> {
    set id | id in s.pending :: s.pending[id]
  }

  /** Each request sent is in exactly one place, queued, pending or settled. */
  ghost predicate Conserved(s: State) {
    forall r: nat ::
      && (r < s.sent <==> r in s.queue || r in PendingRequests(s) || r in s.settled)
      && !(r in s.queue && r in PendingRequests(s))
      && !(r in s.queue && r in s.settled)
      && !(r in PendingRequests(s) && r in s.settled)
  }

  /** The pending requests are the injected ones that are not settled. */
  lemma PendingAreUnsettled(s: State, r: nat)
    requires Accounted(s)
    ensures r in PendingRequests(s) <==> r < s.counter && r !in s.settled
  {
    if r < s.counter && r !in s.settled {
      var id := IdOf(r);
      assert id in s.pending;
      IdsDistinct(s.pending[id]);
      assert s.pending[id] == r;
    }
  }

  lemma QueuedAreTheRest(s: State, r: nat)
    requires InSendOrder(s)
    ensures r in s.queue <==> s.counter <= r < s.sent
  {
    if s.counter <= r < s.sent { assert s.queue[r - s.counter] == r; }
  }

  lemma InvariantConserves(s: State)
    requires Invariant(s)
    ensures Conserved(s)
  {
    forall r: nat
      ensures r < s.sent <==> r in s.queue || r in PendingRequests(s) || r in s.settled
      ensures !(r in s.queue && r in PendingRequests(s))
      ensures !(r in s.queue && r in s.settled)
      ensures !(r in PendingRequests(s) && r in s.settled)
    {
      QueuedAreTheRest(s, r);
      PendingAreUnsettled(s, r);
    }
  }

  /** The request at which a registration aborts is pending, and was not taken from the queue. */
  lemma {:induction false} AbortLeavesPending(s: State, requests: seq<nat>, throwing: set<nat>)
    returns (r: nat)
    requires s.hasInjector && Aborts(requests, throwing)
    ensures var s' := DispatchAll(s, requests, throwing);
            r in requests && r in PendingRequests(s') && s'.hasInjector
  {
    var front, last := requests[..|requests| - 1], requests[|requests| - 1];
    assert requests == front + [last];
    if Aborts(front, throwing) {
      r := AbortLeavesPending(s, front, throwing);
    } else {
      r := last;
      DispatchAllFrame(s, front, throwing);
      var s1 := DispatchAll(s, front, throwing);
      assert Decimal(s1.counter + 1) in Dispatch(s1, last, true).pending;
    }
  }

  /** No request whose injection throws is among the injections made. */
  lemma {:induction false} DispatchAllInjects(s: State, requests: seq<nat>, throwing: set<nat>)
    ensures var s' := DispatchAll(s, requests, throwing);
            && |s.injected| <= |s'.injected| && s'.injected[..|s.injected|] == s.injected
            && forall i | |s.injected| <= i < |s'.injected| :: s'.injected[i].request !in throwing
  {
    if requests != [] { DispatchAllInjects(s, requests[..|requests| - 1], throwing); }
  }

  /** A call that throws has not injected the request it throws on; what was injected before stays. */
  lemma ThrowInjectsNothing(s: State, call: Call)
    requires Throws(s, call)
    ensures var s' := Execute(s, call);
            && (call.Send? ==> s'.injected == s.injected)
            && (call.Register? ==>
                  && |s.injected| <= |s'.injected| && s'.injected[..|s.injected|] == s.injected
                  && forall i | |s.injected| <= i < |s'.injected| :: s'.injected[i].request !in call.throwing)
  {
    if call.Register? {
      DispatchAllInjects(s.(hasInjector := true, ready := true), s.queue, call.throwing);
    }
  }

  /** A throw leaves a request in two places: rejected and pending, or queued and pending. */
  lemma ThrowBreaksConservation(s: State, call: Call)
    requires Invariant(s) && Throws(s, call)
    ensures !Conserved(Execute(s, call))
  {
    var s' := Execute(s, call);
    match call {
      case Send(_) =>
        assert s'.pending[Decimal(s.counter + 1)] == s.sent;
        assert s.sent in PendingRequests(s') && s.sent in s'.settled;
      case Register(throwing) =>
        var r := AbortLeavesPending(s.(hasInjector := true, ready := true), s.queue, throwing);
        DispatchAllFrame(s.(hasInjector := true, ready := true), s.queue, throwing);
        assert r in PendingRequests(s') && r in s'.queue;
    }
  }

  ghost predicate ConservedThroughout(calls: seq<Call>) {
    Conserved(Run(INITIAL, calls)) && (calls == [] || ConservedThroughout(calls[..|calls| - 1]))
  }

  /**
   * Conservation: over every interleaving of calls, each request sent is at every moment in exactly one place,
   * queued, pending or settled, iff no injection throws.
   */
  lemma {:induction false} ConservedIffNoneThrows(calls: seq<Call>)
    ensures ConservedThroughout(calls) <==> NoneThrows(calls)
  {
    if calls == [] {
      InvariantConserves(INITIAL);
    } else {
      var front, last := calls[..|calls| - 1], calls[|calls| - 1];
      ConservedIffNoneThrows(front);
      if NoneThrows(front) {
        var s := Run(INITIAL, front);
        RunKeepsInvariant(front);
        if Throws(s, last) {
          ThrowBreaksConservation(s, last);
        } else {
          ExecuteKeepsInvariant(s, last);
          InvariantConserves(Execute(s, last));
        }
      }
    }
  }

  /** Injection follows the order of sending, under ids never used twice: the first request goes out as "1", and so on. */
  lemma InjectedInSendOrder(calls: seq<Call>, i: nat, j: nat)
    requires NoneThrows(calls)
    ensures var s := Run(INITIAL, calls);
            && (j < |s.injected| ==> s.injected[j] == Injection(Decimal(j + 1), j))
            && (i < j < |s.injected| ==> s.injected[i].id != s.injected[j].id)
  {
    RunKeepsInvariant(calls);
    IdsDistinct(j);
  }

  /** Has a web view been registered and not unregistered since? */
  predicate Registered(calls: seq<Call>) {
    calls != [] &&
    var front, last := calls[..|calls| - 1], calls[|calls| - 1];
    last.Register? || (!last.Unregister? && Registered(front))
  }

  /** How many requests the calls send. */
  function Sends(calls: seq<Call>): nat {
    if calls == [] then 0 else Sends(calls[..|calls| - 1]) + if calls[|calls| - 1].Send? then 1 else 0
  }

  lemma DispatchSent(s: State, request: nat, throws: bool)
    ensures Dispatch(s, request, throws).sent == s.sent && Dispatch(s, request, throws).ready == s.ready
  {
  }

  lemma {:induction false} DispatchAllSent(s: State, requests: seq<nat>, throwing: set<nat>)
    ensures DispatchAll(s, requests, throwing).sent == s.sent && DispatchAll(s, requests, throwing).ready == s.ready
  {
    if requests != [] {
      DispatchAllSent(s, requests[..|requests| - 1], throwing);
    }
  }

  lemma {:induction false} ReadyIffRegistered(calls: seq<Call>)
    ensures var s := Run(INITIAL, calls); s.sent == Sends(calls) && (s.ready <==> Registered(calls))
  {
    if calls != [] {
      var front, last := calls[..|calls| - 1], calls[|calls| - 1];
      ReadyIffRegistered(front);
      var s := Run(INITIAL, front);
      if last.Register? {
        DispatchAllSent(s.(hasInjector := true, ready := true), s.queue, last.throwing);
      }
    }
  }

  /** While a web view is registered and nothing throws, every request sent so far has been injected. */
  lemma RegisteredInjectsAll(calls: seq<Call>)
    requires NoneThrows(calls) && Registered(calls)
    ensures |Run(INITIAL, calls).injected| == Sends(calls) && Run(INITIAL, calls).queue == []
  {
    ReadyIffRegistered(calls);
    RunKeepsInvariant(calls);
  }

  /** From `s` to `s'` the requests from `s.sent` on were put behind those waiting, and none was injected. */
  ghost predicate OnlyQueued(s: State, s': State, requests: nat) {
    && s'.injected == s.injected
    && s'.sent == s.sent + requests
    && |s'.queue| == |s.queue| + requests
    && (forall i | 0 <= i < |s.queue| :: s'.queue[i] == s.queue[i])
    && (forall i | |s.queue| <= i < |s'.queue| :: s'.queue[i] == s.sent + i - |s.queue|)
  }

  lemma QueueStep(s0: State, s: State, requests: nat, call: Call)
    requires OnlyQueued(s0, s, requests) && !s.ready && !call.Register?
    ensures var s' := Execute(s, call); !s'.ready && OnlyQueued(s0, s', requests + if call.Send? then 1 else 0)
  {
  }

  /** From the time a web view is unregistered every request queues behind those waiting, until the next registration. */
  lemma {:induction false} UnregisteredQueues(before: seq<Call>, later: seq<Call>)
    requires forall call | call in later :: !call.Register?
    ensures var s' := Run(INITIAL, before + [Unregister] + later);
            OnlyQueued(Run(INITIAL, before), s', Sends(later)) && !s'.ready
    decreases |later|
  {
    var upTo := before + [Unregister];
    assert upTo[..|upTo| - 1] == before;
    if later == [] {
      assert upTo + later == upTo;
    } else {
      var front, last := later[..|later| - 1], later[|later| - 1];
      assert (upTo + later)[..|upTo + later| - 1] == upTo + front;
      assert last in later && forall call | call in front :: call in later;
      UnregisteredQueues(before, front);
      QueueStep(Run(INITIAL, before), Run(INITIAL, upTo + front), Sends(front), last);
    }
  }

  /** What a call settles a request with: a message, one that is pending under its id; a `send` that throws, its own. */
  function SettledWith(s: State, call: Call, request: nat): Option<Outcome> {
    match call
    case HandleMessage(Message(id, isError)) =>
      if id == Some(IdOf(request)) && request in PendingRequests(s)
      then Some(if isError then Rejected(IdOf(request)) else Resolved(IdOf(request)))
      else None
    case Send(_) => if Throws(s, call) && request == s.sent then Some(InjectionFailed) else None
    case _ => None
  }

  lemma MessageSettles(s: State, msg: Message, request: nat)
    requires Accounted(s)
    ensures var settled' := Execute(s, HandleMessage(msg)).settled;
            match SettledWith(s, HandleMessage(msg), request)
            case Some(outcome) => request !in s.settled && request in settled' && settled'[request] == outcome
            case None =>
              (request in settled' <==> request in s.settled) && (request in s.settled ==> settled'[request] == s.settled[request])
  {
    PendingAreUnsettled(s, request);
    IdsDistinct(request);
  }

  /**
   * A request is settled once and by its own message: a call leaves every outcome as it is, save that of the pending
   * request under whose id a message comes, or of a request whose own sending throws.
   */
  lemma SettledOnceByOwnMessage(calls: seq<Call>, call: Call, request: nat)
    requires NoneThrows(calls)
    ensures var s := Run(INITIAL, calls);
            var settled' := Execute(s, call).settled;
            match SettledWith(s, call, request)
            case Some(outcome) => request !in s.settled && request in settled' && settled'[request] == outcome
            case None =>
              (request in settled' <==> request in s.settled) && (request in s.settled ==> settled'[request] == s.settled[request])
  {
    RunKeepsInvariant(calls);
    match call {
      case HandleMessage(msg) => MessageSettles(Run(INITIAL, calls), msg, request);
      case Register(throwing) => RegisterKeepsSettled(Run(INITIAL, calls), throwing);
      case _ =>
    }
  }

  /** Whatever throws: an outcome is never replaced, and none is ever that no web view was registered. */
  lemma {:induction false} OutcomesAreFinal(calls: seq<Call>, call: Call, request: nat)
    ensures var s, s' := Run(INITIAL, calls), Execute(Run(INITIAL, calls), call);
            request in s.settled ==>
              && s.settled[request] != NotRegistered
              && request in s'.settled && s'.settled[request] == s.settled[request]
  {
    RunNeverUnregistered(calls);
    if call.Register? {
      RegisterKeepsSettled(Run(INITIAL, calls), call.throwing);
    }
  }

  /** Ready means that a web view is registered, so nothing has been refused for want of one. */
  ghost predicate NeverUnregistered(s: State) {
    s.ready == s.hasInjector && forall r | r in s.settled :: s.settled[r] != NotRegistered
  }

  lemma {:induction false} RunNeverUnregistered(calls: seq<Call>)
    ensures NeverUnregistered(Run(INITIAL, calls))
  {
    if calls != [] {
      var front, last := calls[..|calls| - 1], calls[|calls| - 1];
      RunNeverUnregistered(front);
      if last.Register? {
        RegisterKeepsSettled(Run(INITIAL, front), last.throwing);
      }
    }
  }
}
