// The card-management mailbox: clients that take a lock, clear the error register, write a request
// word by word, ring the doorbell and poll, against a device that answers in its own time. Every
// Action is one register or mailbox access, a lock operation, or one move of the device.
module Mailbox {
  import opened Basics

  const MAX_ATTEMPTS: nat := 5
  const MAX_ITER: nat := 20  // 2 seconds of polling at 100 ms

  type Word = nat

  // The two control bits the handshake uses: mailbox_msg_status and reset_error_reg.
  datatype Control = Control(busy: bool, resetError: bool)

  // The flags of the error register: pkt_error and sat_ctrl_err.
  datatype Errors = Errors(pkt: bool, sat: bool)

  const NO_ERRORS := Errors(false, false)

  // A client's program counter; control words read but not yet written back are part of it.
  datatype Pc =
    | Idle
    | WaitReady(polls: nat)
    | ClearRead
    | ClearWrite(snapshot: Control)
    | WaitCleared(polls: nat)
    | WriteWord(k: nat)
    | RingRead
    | RingWrite(snapshot: Control)
    | WaitDone(polls: nat)
    | CheckErrors(timedOut: bool)
    | CopyWord
    | Unlock(ok: bool)

  // want is the number of response words the client copies out under the lock.
  datatype Client = Client(pc: Pc, request: seq<Word>, want: nat, attempt: nat, got: seq<Word>)

  // One request the device has processed: the mailbox as it found it, what it left there, and the
  // error flags it raised.
  datatype Exchange = Exchange(found: seq<Word>, response: seq<Word>, errors: Errors)

  datatype Ring = Ring(client: nat, request: seq<Word>)

  // rings and served record the doorbells rung and the exchanges completed so far.
  datatype State = State(clients: seq<Client>, lock: Option<nat>, control: Control, errors: Errors,
                         mailbox: seq<Word>, rings: seq<Ring>, served: seq<Exchange>)

  datatype Action =
    | Acquire(client: nat, request: seq<Word>, want: nat)
    | Proceed(client: nat)
    | DeviceClearsErrors
    | DeviceAnswers(response: seq<Word>, errors: Errors)

  predicate Enabled(s: State, a: Action) {
    match a
    case Acquire(c, request, want) =>
      c < |s.clients| && s.clients[c].pc == Idle && s.lock == None
      && 1 <= |request| <= |s.mailbox| && want <= |s.mailbox|
    case Proceed(c) => c < |s.clients| && s.clients[c].pc != Idle
    case DeviceClearsErrors => s.control.resetError
    case DeviceAnswers(response, _) => s.control.busy && |response| == |s.mailbox|
  }

  // The next attempt, or failure after the last one.
  function Retry(cl: Client): Client {
    if cl.attempt < MAX_ATTEMPTS then cl.(attempt := cl.attempt + 1, pc := WaitReady(0))
    else cl.(pc := Unlock(false))
  }

  function Put(s: State, c: nat, cl: Client): State
    requires c < |s.clients|
  {
    s.(clients := s.clients[c := cl])
  }

  // One access by the client that holds the lock.
  function ClientStep(s: State, c: nat): State
    requires c < |s.clients| && s.clients[c].pc != Idle
  {
    var cl := s.clients[c];
    match cl.pc
    case Idle => s
    case WaitReady(n) =>
      Put(s, c, cl.(pc := if !s.control.busy then ClearRead
                          else if n + 1 < MAX_ITER then WaitReady(n + 1) else Unlock(false)))
    case ClearRead => Put(s, c, cl.(pc := ClearWrite(s.control)))
    case ClearWrite(snapshot) =>
      Put(s, c, cl.(pc := WaitCleared(0))).(control := snapshot.(resetError := true))
    case WaitCleared(n) =>
      Put(s, c, cl.(pc := if !s.control.resetError then WriteWord(0)
                          else if n + 1 < MAX_ITER then WaitCleared(n + 1) else Unlock(false)))
    case WriteWord(k) =>
      if k < |cl.request| && k < |s.mailbox| then
        Put(s, c, cl.(pc := WriteWord(k + 1))).(mailbox := s.mailbox[k := cl.request[k]])
      else Put(s, c, cl.(pc := RingRead))
    case RingRead => Put(s, c, cl.(pc := RingWrite(s.control)))
    case RingWrite(snapshot) =>
      Put(s, c, cl.(pc := WaitDone(0)))
        .(control := snapshot.(busy := true), rings := s.rings + [Ring(c, cl.request)])
    case WaitDone(n) =>
      Put(s, c, cl.(pc := if !s.control.busy then CheckErrors(false)
                          else if n + 1 < MAX_ITER then WaitDone(n + 1) else CheckErrors(true)))
    case CheckErrors(timedOut) =>
      Put(s, c, if !timedOut && s.errors == NO_ERRORS then cl.(pc := CopyWord) else Retry(cl))
    case CopyWord =>
      Put(s, c, if |cl.got| < cl.want && |cl.got| < |s.mailbox|
                then cl.(got := cl.got + [s.mailbox[|cl.got|]])
                else cl.(pc := Unlock(true)))
    case Unlock(_) => Put(s, c, cl.(pc := Idle)).(lock := None)
  }

  function Step(s: State, a: Action): State
    requires Enabled(s, a)
  {
    match a
    case Acquire(c, request, want) =>
      Put(s, c, Client(WaitReady(0), request, want, 1, [])).(lock := Some(c))
    case Proceed(c) => ClientStep(s, c)
    case DeviceClearsErrors => s.(errors := NO_ERRORS, control := s.control.(resetError := false))
    case DeviceAnswers(response, errors) =>
      s.(mailbox := response, errors := errors, control := s.control.(busy := false),
         served := s.served + [Exchange(s.mailbox, response, errors)])
  }

  // ---- Invariant ----

  // The device was last rung by this client with this request.
  predicate RungLast(s: State, c: nat, request: seq<Word>) {
    |s.rings| > 0 && s.rings[|s.rings| - 1] == Ring(c, request)
  }

  // The last exchange is complete and its results are still in the registers.
  predicate Answered(s: State) {
    !s.control.busy && |s.served| > 0
    && s.mailbox == s.served[|s.served| - 1].response && s.errors == s.served[|s.served| - 1].errors
  }

  // What the holder of the lock knows at each point.
  predicate Knows(s: State, c: nat, cl: Client) {
    match cl.pc
    case Idle => false
    case WaitReady(n) => n < MAX_ITER && cl.got == []
    case ClearRead => !s.control.busy && cl.got == []
    case ClearWrite(snapshot) => !s.control.busy && !snapshot.busy && cl.got == []
    case WaitCleared(n) => n < MAX_ITER && !s.control.busy && cl.got == []
    case WriteWord(k) =>
      s.control == Control(false, false) && k <= |cl.request| && cl.request[..k] <= s.mailbox && cl.got == []
    case RingRead => s.control == Control(false, false) && cl.request <= s.mailbox && cl.got == []
    case RingWrite(snapshot) =>
      s.control == snapshot == Control(false, false) && cl.request <= s.mailbox && cl.got == []
    case WaitDone(n) =>
      n < MAX_ITER && !s.control.resetError && RungLast(s, c, cl.request) && (s.control.busy || Answered(s))
      && cl.got == []
    case CheckErrors(timedOut) =>
      (!timedOut ==> !s.control.resetError && RungLast(s, c, cl.request) && Answered(s)) && cl.got == []
    case CopyWord =>
      !s.control.resetError && RungLast(s, c, cl.request) && Answered(s) && s.errors == NO_ERRORS
      && |cl.got| <= cl.want && cl.got <= s.mailbox
    case Unlock(ok) =>
      ok ==> RungLast(s, c, cl.request) && Answered(s) && s.errors == NO_ERRORS
             && |cl.got| == cl.want && cl.got <= s.mailbox
  }

  predicate Sized(s: State, cl: Client) {
    1 <= |cl.request| <= |s.mailbox| && cl.want <= |s.mailbox| && 1 <= cl.attempt <= MAX_ATTEMPTS
  }

  // Every doorbell is followed by at most one exchange, on exactly the request that was rung.
  ghost predicate Books(s: State) {
    |s.rings| == |s.served| + (if s.control.busy then 1 else 0)
    && (forall i :: 0 <= i < |s.served| ==> s.rings[i].request <= s.served[i].found)
    && (s.control.busy ==> s.rings[|s.rings| - 1].request <= s.mailbox)
  }

  ghost predicate Inv(s: State) {
    && Books(s)
    && (s.lock.Some? ==> s.lock.value < |s.clients|)
    && (forall c :: 0 <= c < |s.clients| ==>
          if s.lock == Some(c) then Knows(s, c, s.clients[c]) && Sized(s, s.clients[c])
          else s.clients[c].pc == Idle)
  }

  predicate Init(s: State) {
    s.lock == None && !s.control.busy && s.rings == [] && s.served == []
    && forall c :: 0 <= c < |s.clients| ==> s.clients[c].pc == Idle
  }

  // The word just written extends the part of the request that is in place.
  lemma OneMoreWord(request: seq<Word>, mailbox: seq<Word>, k: nat)
    requires k < |request| && k < |mailbox| && request[..k] <= mailbox
    ensures request[..k + 1] <= mailbox[k := request[k]]
  {
    assert forall i :: 0 <= i < k ==> request[..k][i] == mailbox[i];
  }

  predicate BeforeRing(pc: Pc) {
    pc.WaitReady? || pc.ClearRead? || pc.ClearWrite? || pc.WaitCleared? || pc.WriteWord? || pc.RingRead?
  }

  ghost predicate HolderOk(t: State, c: nat) {
    t.lock == Some(c) && c < |t.clients| && Sized(t, t.clients[c]) && Knows(t, c, t.clients[c])
  }

  lemma HolderBeforeRing(s: State, c: nat)
    requires HolderOk(s, c) && BeforeRing(s.clients[c].pc)
    ensures HolderOk(ClientStep(s, c), c)
  {
    var cl := s.clients[c];
    if cl.pc.WriteWord? {
      if cl.pc.k < |cl.request| {
        OneMoreWord(cl.request, s.mailbox, cl.pc.k);
      } else {
        assert cl.request[..cl.pc.k] == cl.request;
      }
    }
  }

  lemma HolderCopying(s: State, c: nat)
    requires HolderOk(s, c) && s.clients[c].pc.CopyWord?
    ensures HolderOk(ClientStep(s, c), c)
  {
  }

  lemma HolderAfterRing(s: State, c: nat)
    requires HolderOk(s, c) && !BeforeRing(s.clients[c].pc) && !s.clients[c].pc.Unlock?
    ensures HolderOk(ClientStep(s, c), c)
  {
    if s.clients[c].pc.CopyWord? { HolderCopying(s, c); }
  }

  lemma ClientKeepsBooks(s: State, c: nat)
    requires Inv(s) && s.lock == Some(c)
    ensures Books(ClientStep(s, c))
  {
    var t := ClientStep(s, c);
    if s.clients[c].pc.RingWrite? {
      assert forall i :: 0 <= i < |s.rings| ==> t.rings[i] == s.rings[i];
    }
  }

  lemma ClientKeepsInv(s: State, c: nat)
    requires Inv(s) && Enabled(s, Proceed(c))
    ensures Inv(ClientStep(s, c))
  {
    assert s.lock == Some(c);
    ClientKeepsBooks(s, c);
    var t := ClientStep(s, c);
    if BeforeRing(s.clients[c].pc) {
      HolderBeforeRing(s, c);
    } else if !s.clients[c].pc.Unlock? {
      HolderAfterRing(s, c);
    }
    assert forall d :: 0 <= d < |t.clients| && d != c ==> t.clients[d] == s.clients[d];
  }

  lemma DeviceKeepsInv(s: State, a: Action)
    requires Inv(s) && Enabled(s, a) && (a.DeviceClearsErrors? || a.DeviceAnswers?)
    ensures Inv(Step(s, a))
  {
  }

  lemma StepKeepsInv(s: State, a: Action)
    requires Inv(s) && Enabled(s, a)
    ensures Inv(Step(s, a))
  {
    match a
    case Acquire(_, _, _) =>
    case Proceed(c) => ClientKeepsInv(s, c);
    case _ => DeviceKeepsInv(s, a);
  }

  // ---- Whole runs ----

  ghost predicate IsRun(states: seq<State>, actions: seq<Action>) {
    |states| == |actions| + 1 && Init(states[0])
    && forall i :: 0 <= i < |actions| ==>
         Enabled(states[i], actions[i]) && states[i + 1] == Step(states[i], actions[i])
  }

  lemma {:induction false} RunKeepsInv(states: seq<State>, actions: seq<Action>, n: nat)
    requires IsRun(states, actions) && n < |states|
    ensures Inv(states[n])
  {
    if n > 0 {
      RunKeepsInv(states, actions, n - 1);
      assert states[n - 1 + 1] == Step(states[n - 1], actions[n - 1]);
      StepKeepsInv(states[n - 1], actions[n - 1]);
    }
  }

  // The accesses that put a request in front of the device.
  predicate TouchesRequest(s: State, a: Action) {
    a.Proceed? && a.client < |s.clients|
    && (s.clients[a.client].pc.WriteWord? || s.clients[a.client].pc.RingWrite?)
  }

  // Request words are written and the doorbell is rung only by the holder of the lock, only while
  // the device is idle, and no client ever makes more than five attempts.
  lemma RequestsOnlyWhileIdle(states: seq<State>, actions: seq<Action>, n: nat)
    requires IsRun(states, actions) && n < |actions|
    ensures TouchesRequest(states[n], actions[n]) ==>
      !states[n].control.busy && states[n].lock == Some(actions[n].client)
    ensures forall c :: 0 <= c < |states[n].clients| && states[n].lock == Some(c) ==>
      1 <= states[n].clients[c].attempt <= MAX_ATTEMPTS
  {
    RunKeepsInv(states, actions, n);
  }

  // A client about to return success: its own request was the last one rung, the device found that
  // request complete, finished it without raising an error flag, and every word the client copied is
  // from the answer to it.
  lemma SuccessIsOwnAnswer(states: seq<State>, actions: seq<Action>, n: nat, c: nat)
    requires IsRun(states, actions) && n < |states| && c < |states[n].clients|
    requires states[n].clients[c].pc == Unlock(true)
    ensures var s, cl := states[n], states[n].clients[c];
      && |s.rings| == |s.served| > 0
      && var last := s.served[|s.served| - 1];
      && s.rings[|s.rings| - 1] == Ring(c, cl.request)
      && cl.request <= last.found && last.errors == NO_ERRORS
      && cl.want <= |last.response| && cl.got == last.response[..cl.want]
  {
    RunKeepsInv(states, actions, n);
  }

  // What the device works on: the exchanges are the doorbells, one for one and in order, each on
  // the complete request of that doorbell; at most the latest is still open.
  lemma EveryExchangeIsOneRequest(states: seq<State>, actions: seq<Action>, n: nat)
    requires IsRun(states, actions) && n < |states|
    ensures Books(states[n])
  {
    RunKeepsInv(states, actions, n);
  }

  // ---- Every post ends ----

  // An upper bound for the accesses a client still makes before it gives up the lock, whatever the
  // device does.
  function AttemptCost(cl: Client): nat { 3 * MAX_ITER + |cl.request| + 7 }

  // Within the current attempt, including the final copy and unlock.
  function AccessesHere(cl: Client): int {
    var copying := cl.want - |cl.got| + 2;
    match cl.pc
    case Idle => 0
    case WaitReady(n) => copying + 3 * MAX_ITER + |cl.request| + 6 - n
    case ClearRead => copying + 2 * MAX_ITER + |cl.request| + 6
    case ClearWrite(_) => copying + 2 * MAX_ITER + |cl.request| + 5
    case WaitCleared(n) => copying + 2 * MAX_ITER + |cl.request| + 4 - n
    case WriteWord(k) => copying + MAX_ITER + |cl.request| + 4 - k
    case RingRead => copying + MAX_ITER + 3
    case RingWrite(_) => copying + MAX_ITER + 2
    case WaitDone(n) => copying + MAX_ITER + 1 - n
    case CheckErrors(_) => copying + 1
    case CopyWord => copying
    case Unlock(_) => 1
  }

  function AccessesLeft(cl: Client): int {
    (if cl.attempt <= MAX_ATTEMPTS then MAX_ATTEMPTS - cl.attempt else 0) * AttemptCost(cl) + AccessesHere(cl)
  }

  ghost predicate Closer(s: State, c: nat)
    requires c < |s.clients| && s.clients[c].pc != Idle
  {
    var cl, next := s.clients[c], ClientStep(s, c).clients[c];
    && next.request == cl.request && cl.attempt <= next.attempt <= cl.attempt + 1 <= MAX_ATTEMPTS + 1
    && next.attempt <= MAX_ATTEMPTS && cl.attempt >= 1
    && AccessesHere(next) >= 0
    && AccessesHere(next) < AccessesHere(cl) + (if next.attempt == cl.attempt then 0 else AttemptCost(cl))
  }

  lemma CloserBeforeRing(s: State, c: nat)
    requires HolderOk(s, c) && BeforeRing(s.clients[c].pc)
    ensures Closer(s, c)
  {
  }

  lemma CloserAfterRing(s: State, c: nat)
    requires HolderOk(s, c) && !BeforeRing(s.clients[c].pc)
    ensures Closer(s, c)
  {
    if s.clients[c].pc.CheckErrors? {
      assert AttemptCost(Retry(s.clients[c])) == AttemptCost(s.clients[c]);
    }
  }

  lemma LeftFalls(s: State, c: nat)
    requires c < |s.clients| && s.clients[c].pc != Idle && Closer(s, c)
    ensures AccessesLeft(s.clients[c]) > AccessesLeft(ClientStep(s, c).clients[c]) >= 0
  {
    var cl, next := s.clients[c], ClientStep(s, c).clients[c];
    hide ClientStep, AccessesHere;
    var cost, left := AttemptCost(cl), MAX_ATTEMPTS - cl.attempt;
    if next.attempt == cl.attempt + 1 {
      assert left * cost == (left - 1) * cost + cost;
    }
  }

  // Each access of the holder of the lock brings it closer to giving the lock up, whatever the device
  // does.
  lemma EveryAccessCounts(s: State, c: nat)
    requires Inv(s) && Enabled(s, Proceed(c))
    ensures AccessesLeft(s.clients[c]) > AccessesLeft(ClientStep(s, c).clients[c]) >= 0
  {
    assert s.lock == Some(c);
    hide Closer, ClientStep, AccessesLeft;
    if BeforeRing(s.clients[c].pc) { CloserBeforeRing(s, c); } else { CloserAfterRing(s, c); }
    LeftFalls(s, c);
  }

  // ---- A bound for a whole post ----

  // The accesses of client c among the actions from a up to b.
  function AccessesOf(actions: seq<Action>, c: nat, a: nat, b: nat): nat
    requires a <= b <= |actions|
    decreases b - a
  {
    if a == b then 0 else AccessesOf(actions, c, a, b - 1) + if actions[b - 1] == Proceed(c) then 1 else 0
  }

  // While client c holds the lock, only its own accesses change what it has left to do.
  lemma OthersLeaveHolder(s: State, a: Action, c: nat)
    requires Inv(s) && Enabled(s, a) && s.lock == Some(c) && a != Proceed(c)
    ensures c < |Step(s, a).clients| && Step(s, a).clients[c] == s.clients[c]
  {
  }

  // A post takes the lock at action a and holds it up to action b, the last of them possibly giving
  // it up. With r request words and w copied response words it makes fewer than 5 * (r + 67) + w + 2
  // accesses, whatever the device and the other clients do.
  lemma PostIsBounded(states: seq<State>, actions: seq<Action>, c: nat, request: seq<Word>, want: nat, a: nat, b: nat)
    requires IsRun(states, actions) && a < b <= |actions| && actions[a] == Acquire(c, request, want)
    requires forall i :: a < i < b ==> states[i].lock == Some(c)
    ensures AccessesOf(actions, c, a + 1, b) < MAX_ATTEMPTS * (|request| + 67) + want + 2
  {
    assert states[a + 1] == Step(states[a], actions[a]);
    var cl := states[a + 1].clients[c];
    assert cl == Client(WaitReady(0), request, want, 1, []);
    assert AccessesLeft(cl) < MAX_ATTEMPTS * (|request| + 67) + want + 2;
    SpendsAccesses(states, actions, c, a + 1, b);
  }

  lemma {:induction false} SpendsAccesses(states: seq<State>, actions: seq<Action>, c: nat, a: nat, b: nat)
    requires IsRun(states, actions) && a <= b <= |actions| && states[a].lock == Some(c)
    requires forall i :: a <= i < b ==> states[i].lock == Some(c)
    ensures c < |states[a].clients| && c < |states[b].clients|
    ensures 0 <= AccessesLeft(states[b].clients[c])
    ensures AccessesOf(actions, c, a, b) + AccessesLeft(states[b].clients[c]) <= AccessesLeft(states[a].clients[c])
    decreases b - a
  {
    hide AccessesLeft, Knows, Books, Step;
    RunKeepsInv(states, actions, a);
    LeftIsNatural(states[a], c);
    if a < b {
      SpendsAccesses(states, actions, c, a, b - 1);
      RunKeepsInv(states, actions, b - 1);
      assert states[b - 1 + 1] == Step(states[b - 1], actions[b - 1]);
      OneActionSpends(states[b - 1], actions[b - 1], c);
    }
  }

  lemma OneActionSpends(s: State, a: Action, c: nat)
    requires Inv(s) && Enabled(s, a) && s.lock == Some(c)
    ensures c < |s.clients| && c < |Step(s, a).clients| && AccessesLeft(Step(s, a).clients[c]) >= 0
    ensures AccessesLeft(Step(s, a).clients[c]) + (if a == Proceed(c) then 1 else 0) <= AccessesLeft(s.clients[c])
  {
    LeftIsNatural(s, c);
    if a == Proceed(c) {
      EveryAccessCounts(s, c);
    } else {
      OthersLeaveHolder(s, a, c);
    }
    hide AccessesLeft, Knows, Books;
  }

  lemma LeftIsNatural(s: State, c: nat)
    requires Inv(s) && s.lock == Some(c)
    ensures AccessesLeft(s.clients[c]) >= 0
  {
    EveryAccessCounts(s, c);
  }
}
