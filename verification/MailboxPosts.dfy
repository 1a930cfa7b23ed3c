// How a post on the mailbox ends, told from the accesses the client makes and what it sees in the
// registers, over every run: neither an attempt number nor a poll counter of the client is used.
module MailboxPosts {
  import opened Basics
  import opened Mailbox

  // The client is about to look for a control bit to clear, and the bit is still set.
  predicate SeesWaitedBit(s: State, c: nat) {
    c < |s.clients| &&
    match s.clients[c].pc
    case WaitReady(_) => s.control.busy
    case WaitDone(_) => s.control.busy
    case WaitCleared(_) => s.control.resetError
    case _ => false
  }

  // Client c's latest accesses before action i, since action a, that found a waited-for bit still set.
  function BusyPolls(states: seq<State>, actions: seq<Action>, c: nat, a: nat, i: nat): nat
    requires a <= i <= |actions| < |states|
    decreases i
  {
    if i == a then 0
    else if actions[i - 1] != Proceed(c) then BusyPolls(states, actions, c, a, i - 1)
    else if SeesWaitedBit(states[i - 1], c) then 1 + BusyPolls(states, actions, c, a, i - 1)
    else 0
  }

  predicate TimedOut(states: seq<State>, actions: seq<Action>, c: nat, a: nat, i: nat)
    requires a <= i <= |actions| < |states|
  {
    BusyPolls(states, actions, c, a, i) == MAX_ITER
  }

  // Action i is the client's look at the error register, and its attempt has failed: a flag is
  // raised, or waiting for the answer has timed out.
  predicate AttemptFails(states: seq<State>, actions: seq<Action>, c: nat, a: nat, i: nat)
    requires a <= i < |actions| < |states|
  {
    && actions[i] == Proceed(c) && c < |states[i].clients| && states[i].clients[c].pc.CheckErrors?
    && (states[i].errors != NO_ERRORS || TimedOut(states, actions, c, a, i))
  }

  function FailedAttempts(states: seq<State>, actions: seq<Action>, c: nat, a: nat, i: nat): nat
    requires a <= i <= |actions| < |states|
    decreases i
  {
    if i == a then 0
    else FailedAttempts(states, actions, c, a, i - 1) + if AttemptFails(states, actions, c, a, i - 1) then 1 else 0
  }

  // Client c takes the lock at action a - 1 and holds it up to action b.
  ghost predicate IsPost(states: seq<State>, actions: seq<Action>, c: nat, request: seq<Word>, want: nat,
                         a: nat, b: nat)
  {
    && IsRun(states, actions) && 0 < a <= b <= |actions| && actions[a - 1] == Acquire(c, request, want)
    && forall i :: a <= i <= b ==> states[i].lock == Some(c)
  }

  lemma PostStart(states: seq<State>, actions: seq<Action>, c: nat, request: seq<Word>, want: nat, a: nat, b: nat)
    requires IsPost(states, actions, c, request, want, a, b)
    ensures a <= b <= |actions| < |states|
    ensures c < |states[a].clients| && states[a].clients[c] == Client(WaitReady(0), request, want, 1, [])
  {
    assert states[a - 1 + 1] == Step(states[a - 1], actions[a - 1]);
  }

  // One action while a client holds the lock, and one within a post.
  lemma HolderAction(s: State, act: Action, c: nat)
    requires Inv(s) && Enabled(s, act) && s.lock == Some(c) && Step(s, act).lock == Some(c)
    ensures var t := Step(s, act);
      && c < |s.clients| && c < |t.clients|
      && if act == Proceed(c) then t == ClientStep(s, c) && s.clients[c].pc != Idle && !s.clients[c].pc.Unlock?
         else t.clients[c] == s.clients[c] && t.rings == s.rings
  {
    hide Knows, Books;
    if act != Proceed(c) {
      OthersLeaveHolder(s, act, c);
      OthersLeaveRings(s, act, c);
    }
  }

  lemma PostAction(states: seq<State>, actions: seq<Action>, c: nat, request: seq<Word>, want: nat, a: nat, b: nat)
    requires IsPost(states, actions, c, request, want, a, b) && a < b
    ensures a <= b <= |actions| < |states|
    ensures IsPost(states, actions, c, request, want, a, b - 1)
    ensures var s, act, t := states[b - 1], actions[b - 1], states[b];
      && Inv(s) && s.lock == Some(c) && c < |s.clients| && Enabled(s, act) && t == Step(s, act)
      && c < |t.clients|
      && if act == Proceed(c) then t == ClientStep(s, c) && s.clients[c].pc != Idle && !s.clients[c].pc.Unlock?
         else t.clients[c] == s.clients[c] && t.rings == s.rings
  {
    var s, act := states[b - 1], actions[b - 1];
    RunKeepsInv(states, actions, b - 1);
    assert states[b - 1 + 1] == Step(s, act) && Enabled(s, act) && s.lock == Some(c);
    hide IsRun, Knows, Books;
    HolderAction(s, act, c);
  }

  lemma OthersLeaveRings(s: State, a: Action, c: nat)
    requires Inv(s) && Enabled(s, a) && s.lock == Some(c) && a != Proceed(c)
    ensures Step(s, a).rings == s.rings
  {
  }

  // What a client's place in the program says about its accesses: busy polls in a row, failed
  // attempts, and doorbells rung since the post began.
  predicate Told(cl: Client, polls: nat, fails: nat, rung: int) {
    match cl.pc
    case Idle => false
    case WaitReady(n) => polls == n && fails + 1 == cl.attempt && rung == fails
    case WaitCleared(n) => polls == n && fails + 1 == cl.attempt && rung == fails
    case WaitDone(n) => polls == n && fails + 1 == cl.attempt && rung == fails + 1
    case CheckErrors(timedOut) =>
      (timedOut <==> polls == MAX_ITER) && polls <= MAX_ITER && fails + 1 == cl.attempt && rung == fails + 1
    case CopyWord => polls == 0 && fails + 1 == cl.attempt && rung == fails + 1
    case Unlock(ok) =>
      rung == fails + (if ok then 1 else 0)
      && if ok then polls == 0 && fails + 1 == cl.attempt else polls == MAX_ITER || fails == MAX_ATTEMPTS
    case _ => polls == 0 && fails + 1 == cl.attempt && rung == fails
  }

  lemma ToldNext(s: State, c: nat, polls: nat, fails: nat, rung: int)
    requires Inv(s) && s.lock == Some(c) && Told(s.clients[c], polls, fails, rung) && !s.clients[c].pc.Unlock?
    ensures
      var t := ClientStep(s, c);
      var failed := s.clients[c].pc.CheckErrors? && (s.errors != NO_ERRORS || polls == MAX_ITER);
      Told(t.clients[c], if SeesWaitedBit(s, c) then polls + 1 else 0, fails + (if failed then 1 else 0),
           rung + |t.rings| - |s.rings|)
  {
  }

  ghost predicate ToldAt(states: seq<State>, actions: seq<Action>, c: nat, a: nat, i: nat)
    requires a <= i <= |actions| < |states|
  {
    c < |states[i].clients|
    && Told(states[i].clients[c], BusyPolls(states, actions, c, a, i), FailedAttempts(states, actions, c, a, i),
            |states[i].rings| - |states[a].rings|)
  }

  lemma {:induction false} PostStory(states: seq<State>, actions: seq<Action>, c: nat, request: seq<Word>, want: nat,
                                     a: nat, b: nat)
    requires IsPost(states, actions, c, request, want, a, b)
    ensures a <= b <= |actions| < |states| && ToldAt(states, actions, c, a, b)
    decreases b
  {
    hide IsPost, Inv, Step, ClientStep, SeesWaitedBit;
    PostStart(states, actions, c, request, want, a, b);
    if a < b {
      PostAction(states, actions, c, request, want, a, b);
      PostStory(states, actions, c, request, want, a, b - 1);
      hide Told;
      if actions[b - 1] == Proceed(c) {
        ToldNext(states[b - 1], c, BusyPolls(states, actions, c, a, b - 1),
                 FailedAttempts(states, actions, c, a, b - 1), |states[b - 1].rings| - |states[a].rings|);
      }
    }
  }

  // A post that has come to its end has failed exactly when it ran out of polls waiting for the mailbox
  // or for the error register to clear, or made five attempts that each failed. It rang the doorbell
  // once for every failed attempt, and once more for the answer it returns.
  lemma PostOutcome(states: seq<State>, actions: seq<Action>, c: nat, request: seq<Word>, want: nat, a: nat, b: nat)
    requires IsPost(states, actions, c, request, want, a, b)
    ensures c < |states[b].clients|
    ensures states[b].clients[c].pc.Unlock? ==>
      var ok, fails := states[b].clients[c].pc.ok, FailedAttempts(states, actions, c, a, b);
      && (!ok <==> BusyPolls(states, actions, c, a, b) == 20 || fails == 5)
      && |states[b].rings| == |states[a].rings| + fails + if ok then 1 else 0
  {
    PostStory(states, actions, c, request, want, a, b);
    RunKeepsInv(states, actions, b);
    hide BusyPolls, FailedAttempts, IsRun;
  }

  // ---- A device that keeps up ----

  // Action i does not end a wait without success, and if it answers a doorbell of this post, it does so
  // without an error flag.
  ghost predicate InTime(states: seq<State>, actions: seq<Action>, c: nat, a: nat, i: nat)
    requires a <= i < |actions| < |states|
  {
    BusyPolls(states, actions, c, a, i + 1) < 20
    && (actions[i].DeviceAnswers? && |states[i].rings| > |states[a].rings| ==> actions[i].errors == NO_ERRORS)
  }

  ghost predicate KeepsUp(states: seq<State>, actions: seq<Action>, c: nat, a: nat, b: nat)
    requires a <= b <= |actions| < |states|
  {
    forall i :: a <= i < b ==> InTime(states, actions, c, a, i)
  }

  lemma KeepsUpBefore(states: seq<State>, actions: seq<Action>, c: nat, a: nat, b: nat)
    requires a < b <= |actions| < |states| && KeepsUp(states, actions, c, a, b)
    ensures KeepsUp(states, actions, c, a, b - 1) && BusyPolls(states, actions, c, a, b) < 20
    ensures actions[b - 1].DeviceAnswers? && |states[b - 1].rings| > |states[a].rings| ==>
      actions[b - 1].errors == NO_ERRORS
  {
    assert InTime(states, actions, c, a, b - 1);
  }

  // From the moment the error register has been cleared it stays clear.
  predicate Clean(s: State, cl: Client) {
    match cl.pc
    case WaitCleared(_) => !s.control.resetError ==> s.errors == NO_ERRORS
    case WriteWord(_) => s.errors == NO_ERRORS
    case RingRead => s.errors == NO_ERRORS
    case RingWrite(_) => s.errors == NO_ERRORS
    case WaitDone(_) => s.errors == NO_ERRORS
    case CheckErrors(_) => s.errors == NO_ERRORS
    case CopyWord => s.errors == NO_ERRORS
    case _ => true
  }

  lemma CleanNext(s: State, a: Action, c: nat, polls: nat, rung: int)
    requires Inv(s) && Enabled(s, a) && s.lock == Some(c) && Told(s.clients[c], polls, 0, rung) && polls < 20
    requires Clean(s, s.clients[c]) && (a.DeviceAnswers? && rung > 0 ==> a.errors == NO_ERRORS)
    requires a == Proceed(c) ==> !s.clients[c].pc.Unlock?
    ensures c < |Step(s, a).clients| && Clean(Step(s, a), Step(s, a).clients[c])
  {
    hide Books;
    if a == Proceed(c) {
      hide Inv, Knows;
    } else if a.DeviceAnswers? {
      assert Knows(s, c, s.clients[c]);
    }
  }

  lemma {:induction false} NothingFails(states: seq<State>, actions: seq<Action>, c: nat, request: seq<Word>,
                                        want: nat, a: nat, b: nat)
    requires IsPost(states, actions, c, request, want, a, b) && KeepsUp(states, actions, c, a, b)
    ensures c < |states[b].clients| && Clean(states[b], states[b].clients[c])
    ensures FailedAttempts(states, actions, c, a, b) == 0 && BusyPolls(states, actions, c, a, b) < 20
    decreases b
  {
    hide IsPost, Inv, Step, ClientStep, SeesWaitedBit, Told, BusyPolls, KeepsUp;
    PostStart(states, actions, c, request, want, a, b);
    BusyPollsStart(states, actions, c, a);
    if a < b {
      PostAction(states, actions, c, request, want, a, b);
      PostStory(states, actions, c, request, want, a, b - 1);
      KeepsUpBefore(states, actions, c, a, b);
      NothingFails(states, actions, c, request, want, a, b - 1);
      CleanNext(states[b - 1], actions[b - 1], c, BusyPolls(states, actions, c, a, b - 1),
                |states[b - 1].rings| - |states[a].rings|);
    }
  }

  lemma BusyPollsStart(states: seq<State>, actions: seq<Action>, c: nat, a: nat)
    requires a <= |actions| < |states|
    ensures BusyPolls(states, actions, c, a, a) == 0
  {
  }

  // On a device that keeps up, a post that has come to its end returns success: on its first attempt,
  // with one doorbell, and with the words of the answer to its request.
  lemma GoodPostSucceeds(states: seq<State>, actions: seq<Action>, c: nat, request: seq<Word>, want: nat,
                         a: nat, b: nat)
    requires IsPost(states, actions, c, request, want, a, b) && KeepsUp(states, actions, c, a, b)
    ensures c < |states[b].clients|
    ensures states[b].clients[c].pc.Unlock? ==>
      && states[b].clients[c].pc == Unlock(true) && |states[b].rings| == |states[a].rings| + 1
      && |states[b].served| > 0
      && var last := states[b].served[|states[b].served| - 1];
      request <= last.found && want <= |last.response| && states[b].clients[c].got == last.response[..want]
  {
    hide KeepsUp, Inv, BusyPolls, FailedAttempts;
    NothingFails(states, actions, c, request, want, a, b);
    PostOutcome(states, actions, c, request, want, a, b);
    KeepsWant(states, actions, c, request, want, a, b);
    if states[b].clients[c].pc.Unlock? { SuccessIsOwnAnswer(states, actions, b, c); }
  }

  // And it does come to its end, within r + w + 67 accesses for r request and w response words.
  lemma GoodPostEnds(states: seq<State>, actions: seq<Action>, c: nat, request: seq<Word>, want: nat, a: nat, b: nat)
    requires IsPost(states, actions, c, request, want, a, b) && KeepsUp(states, actions, c, a, b)
    ensures AccessesOf(actions, c, a, b) <= |request| + want + 67 && c < |states[b].clients|
    ensures AccessesOf(actions, c, a, b) == |request| + want + 67 ==> states[b].clients[c].pc == Unlock(true)
  {
    hide KeepsUp;
    RunKeepsInv(states, actions, b);
    GoodPostSpends(states, actions, c, request, want, a, b);
    GoodPostSucceeds(states, actions, c, request, want, a, b);
  }

  lemma {:induction false} KeepsWant(states: seq<State>, actions: seq<Action>, c: nat, request: seq<Word>,
                                     want: nat, a: nat, b: nat)
    requires IsPost(states, actions, c, request, want, a, b)
    ensures a <= b <= |actions| < |states| && c < |states[b].clients|
    ensures states[b].clients[c].request == request && states[b].clients[c].want == want
    decreases b
  {
    hide IsPost, Inv, Step;
    PostStart(states, actions, c, request, want, a, b);
    if a < b {
      PostAction(states, actions, c, request, want, a, b);
      KeepsWant(states, actions, c, request, want, a, b - 1);
    }
  }

  lemma {:induction false} GoodPostSpends(states: seq<State>, actions: seq<Action>, c: nat, request: seq<Word>,
                                          want: nat, a: nat, b: nat)
    requires IsPost(states, actions, c, request, want, a, b) && KeepsUp(states, actions, c, a, b)
    ensures a <= b <= |actions| < |states| && c < |states[b].clients|
    ensures AccessesOf(actions, c, a, b) + AccessesHere(states[b].clients[c]) <= |request| + want + 68
    decreases b
  {
    hide IsPost, Inv, Step, ClientStep, BusyPolls, FailedAttempts, Clean, Knows;
    PostStart(states, actions, c, request, want, a, b);
    if a < b {
      PostAction(states, actions, c, request, want, a, b);
      KeepsUpBefore(states, actions, c, a, b);
      GoodPostSpends(states, actions, c, request, want, a, b - 1);
      if actions[b - 1] == Proceed(c) {
        SameAttempt(states, actions, c, request, want, a, b);
        HolderCloser(states[b - 1], c);
      }
    }
  }

  // Without a failure the attempt is the first one throughout.
  lemma SameAttempt(states: seq<State>, actions: seq<Action>, c: nat, request: seq<Word>, want: nat, a: nat, b: nat)
    requires IsPost(states, actions, c, request, want, a, b) && KeepsUp(states, actions, c, a, b) && a < b
    ensures c < |states[b - 1].clients| && c < |states[b].clients|
    ensures states[b].clients[c].attempt == states[b - 1].clients[c].attempt
  {
    hide IsPost, Inv, Step, ClientStep, KeepsUp, BusyPolls, FailedAttempts, Clean, TimedOut, SeesWaitedBit;
    PostAction(states, actions, c, request, want, a, b);
    KeepsUpBefore(states, actions, c, a, b);
    PostStory(states, actions, c, request, want, a, b - 1);
    PostStory(states, actions, c, request, want, a, b);
    NothingFails(states, actions, c, request, want, a, b - 1);
    NothingFails(states, actions, c, request, want, a, b);
  }

  lemma HolderCloser(s: State, c: nat)
    requires Inv(s) && s.lock == Some(c)
    ensures c < |s.clients| && s.clients[c].pc != Idle && Closer(s, c)
  {
    hide Closer, ClientStep, AccessesHere;
    if BeforeRing(s.clients[c].pc) { CloserBeforeRing(s, c); } else { CloserAfterRing(s, c); }
  }
}
