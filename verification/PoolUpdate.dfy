/**
 The pool update of the blockchain explorer as a transition system. Notifications
 and node callbacks run on any threads and interleave step by step; each load and
 each compare-and-swap of the guard is a step of its own, and a weak
 compare-and-swap may fail for no reason.
 */
module PoolUpdate {

  type Hash = nat
  type Tid = nat
  type Rid = nat

  datatype Guard = NONE | UPDATING | UPDATE_REQUIRED

  /** What a node answers to a request for the difference to a set of hashes. */
  datatype Answer = Answer(ok: bool, added: seq<Hash>, removed: seq<Hash>)

  /** Where a thread is. From `WantLock` on it runs under an armed exit handler. */
  datatype Pc =
    | Entry                                     // poolChanged has been called
    | BeginLoad
    | BeginCas(seen: Guard)
    | WantLock                                  // the update has begun
    | Locked                                    // holds the mutex, about to send the first request
    | Sent                                      // request sent, handler not disarmed yet, holds the mutex
    | Difference(sent: set<Hash>, answer: Answer)   // first callback entered
    | DifferenceLocked(sent: set<Hash>, answer: Answer)
    | Applied                                   // known hashes updated, about to send the second request
    | Details                                   // second callback entered
    | EndLoad                                   // the exit handler runs endUpdate
    | EndCas(seen: Guard)

  datatype Request = DifferenceRequest(sent: set<Hash>) | DetailsRequest

  datatype State = State(
    guard: Guard,
    mutex: set<Tid>,              // the owner, if any
    threads: map<Tid, Pc>,
    requests: map<Rid, Request>,  // in flight
    known: set<Hash>,
    begun: nat,                   // how often beginUpdate has returned true
    ended: nat,                   // how often endUpdate has returned
    reruns: nat)                  // how often endUpdate has returned true

  const Init: State := State(NONE, {}, map[], map[], {}, 0, 0, 0)

  datatype Action =
    | Notify(t: Tid)
    | EntryReturn(t: Tid)               // not synchronized, or no observers
    | EntryGo(t: Tid)
    | LoadForBegin(t: Tid)
    | TryBegin(t: Tid, spurious: bool)
    | Lock(t: Tid)
    | Send(t: Tid, r: Rid)
    | Exit(t: Tid)                      // the scope is left with the handler armed: an error
                                        // code, an exception, or the end of the last callback
    | Disarm(t: Tid)
    | AnswerDifference(r: Rid, t: Tid, answer: Answer)
    | ApplyDifference(t: Tid)
    | AnswerDetails(r: Rid, t: Tid)
    | LoadForEnd(t: Tid)
    | TryEnd(t: Tid, spurious: bool)

  // ----- The known hashes

  function SetOf(s: seq<Hash>): set<Hash> { set h | h in s }

  /** What the first callback does to the known hashes. */
  function Merge(known: set<Hash>, a: Answer): set<Hash> { known + SetOf(a.added) - SetOf(a.removed) }

  // ----- Steps

  predicate At(s: State, t: Tid, pc: Pc) { t in s.threads && s.threads[t] == pc }

  function Go(s: State, t: Tid, pc: Pc): State { s.(threads := s.threads[t := pc]) }

  function Finish(s: State, t: Tid): State { s.(threads := s.threads - {t}, mutex := s.mutex - {t}) }

  /** Threads that run under an armed exit handler and have not reached it. */
  predicate Armed(pc: Pc) { pc in {WantLock, Locked, Applied, Details} || pc.Difference? || pc.DifferenceLocked? }

  predicate Enabled(s: State, a: Action) {
    match a
    case Notify(t) => t !in s.threads
    case EntryReturn(t) => At(s, t, Entry)
    case EntryGo(t) => At(s, t, Entry)
    case LoadForBegin(t) => At(s, t, BeginLoad)
    case TryBegin(t, _) => t in s.threads && s.threads[t].BeginCas?
    case Lock(t) => s.mutex == {} && t in s.threads && (s.threads[t].WantLock? || (s.threads[t].Difference? && s.threads[t].answer.ok))
    case Send(t, r) => r !in s.requests && (At(s, t, Locked) || At(s, t, Applied))
    case Exit(t) => t in s.threads && Armed(s.threads[t])
    case Disarm(t) => At(s, t, Sent)
    case AnswerDifference(r, t, _) => t !in s.threads && r in s.requests && s.requests[r].DifferenceRequest?
    case ApplyDifference(t) => t in s.threads && s.threads[t].DifferenceLocked?
    case AnswerDetails(r, t) => t !in s.threads && r in s.requests && s.requests[r].DetailsRequest?
    case LoadForEnd(t) => At(s, t, EndLoad)
    case TryEnd(t, _) => t in s.threads && s.threads[t].EndCas?
  }

  function Step(s: State, a: Action): State
    requires Enabled(s, a)
  {
    match a
    case Notify(t) => Go(s, t, Entry)
    case EntryReturn(t) => Finish(s, t)
    case EntryGo(t) => Go(s, t, BeginLoad)
    case LoadForBegin(t) => Go(s, t, BeginCas(s.guard))
    case TryBegin(t, spurious) => StepBegin(s, t, s.threads[t].seen, spurious)
    case Lock(t) =>
      var pc := s.threads[t];
      Go(s, t, if pc.WantLock? then Locked else DifferenceLocked(pc.sent, pc.answer)).(mutex := {t})
    case Send(t, r) =>
      var q := if s.threads[t].Locked? then DifferenceRequest(s.known) else DetailsRequest;
      Go(s, t, Sent).(requests := s.requests[r := q])
    case Exit(t) => Go(s, t, EndLoad).(mutex := s.mutex - {t})
    case Disarm(t) => Finish(s, t)
    case AnswerDifference(r, t, answer) =>
      Go(s, t, Difference(s.requests[r].sent, answer)).(requests := s.requests - {r})
    case ApplyDifference(t) => Go(s, t, Applied).(known := Merge(s.known, s.threads[t].answer))
    case AnswerDetails(r, t) => Go(s, t, Details).(requests := s.requests - {r})
    case LoadForEnd(t) => Go(s, t, EndCas(s.guard))
    case TryEnd(t, spurious) => StepEnd(s, t, s.threads[t].seen, spurious)
  }

  /** One turn of the loop of `beginUpdate`. */
  function StepBegin(s: State, t: Tid, seen: Guard, spurious: bool): State {
    if seen == UPDATE_REQUIRED then Finish(s, t)
    else if s.guard != seen || spurious then Go(s, t, BeginCas(s.guard))
    else if seen == NONE then Go(s, t, WantLock).(guard := UPDATING, begun := s.begun + 1)
    else Finish(s, t).(guard := UPDATE_REQUIRED)
  }

  /** One turn of the loop of `endUpdate`; if it returns true, poolChanged is
      called again on the same thread. */
  function StepEnd(s: State, t: Tid, seen: Guard, spurious: bool): State {
    if s.guard != seen || spurious then Go(s, t, EndCas(s.guard))
    else if seen == UPDATE_REQUIRED then
      Go(s, t, Entry).(guard := NONE, ended := s.ended + 1, reruns := s.reruns + 1)
    else Finish(s, t).(guard := NONE, ended := s.ended + 1)
  }

  // ----- The invariant: one holder of the duty to end the update

  /** The thread must still call endUpdate, or hand the duty on. */
  predicate HasDuty(pc: Pc) { Armed(pc) || pc.EndLoad? || pc.EndCas? }

  predicate HoldsMutex(pc: Pc) { pc in {Locked, Sent, Applied} || pc.DifferenceLocked? }

  datatype Holder = Nobody | Thread(t: Tid) | InFlight(r: Rid)

  /** `who` is the only one with the duty to end the update, and somebody has it
      exactly while the guard is not NONE. */
  predicate Held(s: State, who: Holder) {
    && (s.guard == NONE <==> who == Nobody)
    && (forall t :: t in s.threads ==> (HasDuty(s.threads[t]) <==> who == Thread(t)))
    && (forall r :: r in s.requests ==> who == InFlight(r))
    && (who.Thread? ==> who.t in s.threads)
    && (who.InFlight? ==> who.r in s.requests)
  }

  /** The set a difference was asked for is still the known set. */
  predicate UpToDate(s: State) {
    && (forall r :: r in s.requests && s.requests[r].DifferenceRequest? ==> s.requests[r].sent == s.known)
    && (forall t :: t in s.threads && (s.threads[t].Difference? || s.threads[t].DifferenceLocked?) ==> s.threads[t].sent == s.known)
  }

  /** The mutex has the one owner that is inside the locked region. */
  predicate MutexOk(s: State) {
    && s.mutex <= s.threads.Keys
    && (forall t :: t in s.threads ==> (HoldsMutex(s.threads[t]) <==> t in s.mutex))
    && (forall t, u :: t in s.mutex && u in s.mutex ==> t == u)
  }

  /** `endUpdate` never sees NONE. */
  predicate EndSeesUpdate(s: State) {
    forall t :: t in s.threads && s.threads[t].EndCas? ==> s.threads[t].seen != NONE
  }

  /** Every successful begin is matched by one end, but for the update in flight. */
  predicate Matched(s: State) { s.begun == s.ended + (if s.guard == NONE then 0 else 1) }

  ghost predicate Inv(s: State) {
    && (exists who :: Held(s, who))
    && UpToDate(s) && MutexOk(s) && EndSeesUpdate(s) && Matched(s)
  }

  lemma InitInv()
    ensures Inv(Init)
  {
    assert Held(Init, Nobody);
  }

  /** Who has the duty after a step. */
  function NextHolder(s: State, a: Action, who: Holder): Holder
    requires Enabled(s, a)
  {
    match a
    case TryBegin(t, spurious) => if s.threads[t].seen == s.guard == NONE && !spurious then Thread(t) else who
    case Send(t, r) => InFlight(r)
    case AnswerDifference(_, t, _) => Thread(t)
    case AnswerDetails(_, t) => Thread(t)
    case TryEnd(t, spurious) => if s.guard == s.threads[t].seen && !spurious then Nobody else who
    case _ => who
  }

  lemma StepHeld(s: State, a: Action, who: Holder)
    requires Held(s, who) && EndSeesUpdate(s) && Enabled(s, a)
    ensures Held(Step(s, a), NextHolder(s, a, who))
  {
    hide Held, EndSeesUpdate, Enabled, Step, NextHolder;
    if IsGuardStep(a) { GuardStepHeld(s, a, who); } else if PassesDuty(a) { DutyPassed(s, a, who); } else { DutyStays(s, a, who); }
  }

  predicate IsGuardStep(a: Action) { a.TryBegin? || a.TryEnd? }
  predicate PassesDuty(a: Action) { a.Send? || a.AnswerDifference? || a.AnswerDetails? }

  lemma GuardStepHeld(s: State, a: Action, who: Holder)
    requires Held(s, who) && EndSeesUpdate(s) && Enabled(s, a) && IsGuardStep(a)
    ensures Held(Step(s, a), NextHolder(s, a, who))
  {
  }

  lemma DutyPassed(s: State, a: Action, who: Holder)
    requires Held(s, who) && Enabled(s, a) && PassesDuty(a)
    ensures Held(Step(s, a), NextHolder(s, a, who))
  {
  }

  lemma DutyStays(s: State, a: Action, who: Holder)
    requires Held(s, who) && Enabled(s, a) && !PassesDuty(a) && !IsGuardStep(a)
    ensures Held(Step(s, a), NextHolder(s, a, who))
  {
  }

  lemma StepUpToDate(s: State, a: Action, who: Holder)
    requires Held(s, who) && UpToDate(s) && Enabled(s, a)
    ensures UpToDate(Step(s, a))
  {
  }

  lemma StepMutex(s: State, a: Action)
    requires MutexOk(s) && Enabled(s, a)
    ensures MutexOk(Step(s, a))
  {
  }

  lemma StepEndSees(s: State, a: Action, who: Holder)
    requires Held(s, who) && EndSeesUpdate(s) && Enabled(s, a)
    ensures EndSeesUpdate(Step(s, a))
  {
  }

  /** Every step of every thread keeps the invariant. */
  lemma StepInv(s: State, a: Action)
    requires Inv(s) && Enabled(s, a)
    ensures Inv(Step(s, a))
  {
    var who :| Held(s, who);
    StepHeld(s, a, who);
    StepUpToDate(s, a, who);
    StepMutex(s, a);
    StepEndSees(s, a, who);
    StepMatched(s, a, who);
  }

  lemma StepMatched(s: State, a: Action, who: Holder)
    requires Held(s, who) && EndSeesUpdate(s) && Matched(s) && Enabled(s, a)
    ensures Matched(Step(s, a))
  {
  }

  // ----- Runs

  /** ss are the states of a run from the start, as the actions between them. */
  ghost predicate IsRun(ss: seq<State>, acts: seq<Action>) {
    && |ss| == |acts| + 1 && ss[0] == Init
    && forall i :: 0 <= i < |acts| ==> Enabled(ss[i], acts[i]) && ss[i + 1] == Step(ss[i], acts[i])
  }

  lemma {:induction false} RunInv(ss: seq<State>, acts: seq<Action>, i: nat)
    requires IsRun(ss, acts) && i < |ss|
    ensures Inv(ss[i])
  {
    if i == 0 {
      InitInv();
    } else {
      RunInv(ss, acts, i - 1);
      StepInv(ss[i - 1], acts[i - 1]);
    }
  }

  /** In every state of every run: at most one update is in flight, in one place;
      `endUpdate` runs only during an update and without the mutex; a difference is
      applied to the very set it was asked for; begins and ends match. */
  lemma RunIsSafe(ss: seq<State>, acts: seq<Action>, i: nat)
    requires IsRun(ss, acts) && i < |ss|
    ensures var s := ss[i];
            && (forall t, u :: t in s.threads && u in s.threads && HasDuty(s.threads[t]) && HasDuty(s.threads[u]) ==> t == u)
            && (forall t :: t in s.threads && HasDuty(s.threads[t]) ==> s.requests == map[])
            && (forall r, q :: r in s.requests && q in s.requests ==> r == q)
            && (s.guard == NONE ==> s.requests == map[] && forall t :: t in s.threads ==> !HasDuty(s.threads[t]))
            && (forall t :: t in s.threads && (s.threads[t].EndLoad? || s.threads[t].EndCas?) ==> s.guard != NONE && t !in s.mutex)
            && (forall t :: t in s.threads && s.threads[t].Entry? ==> t !in s.mutex)
            && (forall t :: t in s.threads && s.threads[t].DifferenceLocked? ==> s.threads[t].sent == s.known)
            && s.begun == s.ended + (if s.guard == NONE then 0 else 1)
  {
    RunInv(ss, acts, i);
    var s := ss[i];
    var who :| Held(s, who);
    forall t | t in s.threads && HasDuty(s.threads[t])
      ensures s.requests == map[]
    {
      assert who == Thread(t);
    }
  }

  /** `endUpdate` returns true and the thread calls `poolChanged` again. */
  ghost predicate RerunAt(ss: seq<State>, acts: seq<Action>, k: nat)
    requires k < |acts| && |ss| == |acts| + 1
  {
    && acts[k].TryEnd? && ss[k].guard == UPDATE_REQUIRED && ss[k + 1].guard == NONE
    && At(ss[k + 1], acts[k].t, Entry) && ss[k + 1].reruns == ss[k].reruns + 1
  }

  /** The guard leaves UPDATE_REQUIRED only by a rerun. */
  lemma {:induction false} RequiredCausesRerun(ss: seq<State>, acts: seq<Action>, i: nat, j: nat) returns (k: nat)
    requires IsRun(ss, acts) && i < j < |ss|
    requires ss[i].guard == UPDATE_REQUIRED && ss[j].guard != UPDATE_REQUIRED
    ensures i <= k < j && RerunAt(ss, acts, k)
    decreases j - i
  {
    if ss[i + 1].guard == UPDATE_REQUIRED {
      k := RequiredCausesRerun(ss, acts, i + 1, j);
    } else {
      k := i;
      var s, a := ss[i], acts[i];
      assert ss[i + 1] == Step(s, a);
    }
  }

  predicate InBegin(s: State, t: Tid) { t in s.threads && (s.threads[t].BeginLoad? || s.threads[t].BeginCas?) }

  /** A thread that has seen UPDATE_REQUIRED saw it in this very call of `beginUpdate`. */
  lemma {:induction false} SeenRequired(ss: seq<State>, acts: seq<Action>, n: nat, t: Tid) returns (m: nat)
    requires IsRun(ss, acts) && n < |ss| && At(ss[n], t, BeginCas(UPDATE_REQUIRED))
    ensures m < n && ss[m].guard == UPDATE_REQUIRED && forall i :: m <= i <= n ==> InBegin(ss[i], t)
  {
    assert n > 0;
    var s, a := ss[n - 1], acts[n - 1];
    assert Enabled(s, a) && ss[n] == Step(s, a);
    hide Step, Enabled;
    SeesRequired(s, a, t);
    m := n - 1;
    if s.guard != UPDATE_REQUIRED { m := SeenRequired(ss, acts, n - 1, t); }
  }

  /** It saw it in this step, or it had seen it before. */
  lemma SeesRequired(s: State, a: Action, t: Tid)
    requires Enabled(s, a) && At(Step(s, a), t, BeginCas(UPDATE_REQUIRED))
    ensures InBegin(s, t) && (s.guard == UPDATE_REQUIRED || At(s, t, BeginCas(UPDATE_REQUIRED)))
  {
  }

  /** A notification that is turned away because an update is in flight is not
      lost: before the guard is NONE again, `poolChanged` is called once more, and
      not before the notification came in. From m on the thread is in the call of
      `beginUpdate` that turns it away at n. */
  lemma TurnedAwayIsServed(ss: seq<State>, acts: seq<Action>, n: nat, t: Tid, j: nat) returns (m: nat, k: nat)
    requires IsRun(ss, acts) && n < |acts| && n < j < |ss|
    requires acts[n].TryBegin? && acts[n].t == t && t !in ss[n + 1].threads
    requires ss[j].guard == NONE
    ensures m <= n && m <= k < j && RerunAt(ss, acts, k)
    ensures forall i :: m <= i <= n ==> InBegin(ss[i], t)
  {
    assert ss[n + 1] == Step(ss[n], acts[n]);
    if ss[n].threads[t].seen == UPDATE_REQUIRED {
      m := SeenRequired(ss, acts, n, t);
      k := RequiredCausesRerun(ss, acts, m, j);
    } else {
      m := n;
      k := RequiredCausesRerun(ss, acts, n + 1, j);
    }
  }

  // ----- An update can always be completed

  lemma {:induction false} Unused(ids: set<nat>) returns (n: nat)
    ensures forall k :: k in ids ==> k < n
  {
    if ids == {} {
      n := 0;
    } else {
      var k :| k in ids;
      var rest := Unused(ids - {k});
      n := if rest <= k then k + 1 else rest;
      assert forall j :: j in ids ==> j == k || j in ids - {k};
    }
  }

  /** How far the holder of the duty is from ending the update. */
  function Rank(s: State, who: Holder): nat
    requires Held(s, who)
  {
    match who
    case Nobody => 0
    case InFlight(r) => if s.requests[r].DifferenceRequest? then 16 else 8
    case Thread(t) =>
      match s.threads[t]
      case WantLock => if s.mutex == {} then 20 else 21
      case Locked => 18
      case Difference(_, _) => if s.mutex == {} then 14 else 15
      case DifferenceLocked(_, _) => 12
      case Applied => 10
      case Details => 6
      case EndLoad => 4
      case EndCas(seen) => if seen == s.guard then 2 else 3
      case _ => 0
  }

  /** The step is neither an exception nor a failure without a reason. */
  predicate Regular(s: State, a: Action) {
    match a
    case Exit(t) => t in s.threads && (s.threads[t].Details? || (s.threads[t].Difference? && !s.threads[t].answer.ok))
    case TryEnd(_, spurious) => !spurious
    case Notify(_) => false
    case _ => true
  }

  /** The step is one of the holder of the duty, or answers the holder's request, and
      is not a failure without a reason. */
  predicate Effective(a: Action, who: Holder) {
    match a
    case AnswerDifference(r, _, _) => who == InFlight(r)
    case AnswerDetails(r, _) => who == InFlight(r)
    case TryEnd(t, spurious) => who == Thread(t) && !spurious
    case _ => who == Thread(a.t)
  }

  /** While an update is in flight, some regular step brings it closer to its end. It is
      an effective one, unless the mutex is still held by a thread whose only step is to
      leave its scope. A node can answer with the difference to any pool. */
  lemma Advance(s: State, who: Holder, pool: set<Hash>) returns (a: Action)
    requires Held(s, who) && MutexOk(s) && s.guard != NONE
    ensures Enabled(s, a) && Regular(s, a) && (Effective(a, who) || (a.Disarm? && s.mutex == {a.t}))
    ensures Held(Step(s, a), NextHolder(s, a, who)) ==> Rank(Step(s, a), NextHolder(s, a, who)) < Rank(s, who)
    ensures a.AnswerDifference? ==> a.answer.ok && IsDifference(a.answer, s.requests[a.r].sent, pool)
  {
    if who.InFlight? {
      var t := Unused(s.threads.Keys);
      if s.requests[who.r].DifferenceRequest? {
        var sent := s.requests[who.r].sent;
        var added := Listed(pool - sent);
        var removed := Listed(sent - pool);
        a := AnswerDifference(who.r, t, Answer(true, added, removed));
      } else {
        a := AnswerDetails(who.r, t);
      }
    } else {
      var t, pc := who.t, s.threads[who.t];
      if pc.WantLock? || (pc.Difference? && pc.answer.ok) {
        a := Lock(t);
        if s.mutex != {} {
          var u :| u in s.mutex;
          assert s.mutex == {u};
          a := Disarm(u);
        }
      } else if pc.Locked? || pc.Applied? {
        var r := Unused(s.requests.Keys);
        a := Send(t, r);
      } else if pc.DifferenceLocked? {
        a := ApplyDifference(t);
      } else if pc.Difference? || pc.Details? {
        a := Exit(t);
      } else if pc.EndLoad? {
        a := LoadForEnd(t);
      } else {
        a := TryEnd(t, false);
      }
    }
  }

  /** The actions can be taken in turn, each a regular one. */
  ghost predicate Possible(s: State, acts: seq<Action>)
    decreases |acts|
  {
    acts == [] || (Enabled(s, acts[0]) && Regular(s, acts[0]) && Possible(Step(s, acts[0]), acts[1..]))
  }

  ghost function Outcome(s: State, acts: seq<Action>): State
    requires Possible(s, acts)
    decreases |acts|
  {
    if acts == [] then s else Outcome(Step(s, acts[0]), acts[1..])
  }

  lemma Prepend(s: State, a: Action, rest: seq<Action>)
    requires Enabled(s, a) && Regular(s, a) && Possible(Step(s, a), rest)
    ensures Possible(s, [a] + rest) && Outcome(s, [a] + rest) == Outcome(Step(s, a), rest)
  {
    assert ([a] + rest)[1..] == rest;
  }

  /** From every reachable state the update in flight can be completed without an
      exception and without a new notification: nothing is ever stuck. */
  lemma {:induction false} CanComplete(s: State, who: Holder) returns (acts: seq<Action>)
    requires Inv(s) && Held(s, who)
    ensures Possible(s, acts) && Outcome(s, acts).guard == NONE
    decreases Rank(s, who)
  {
    if s.guard == NONE {
      acts := [];
    } else {
      var a := Advance(s, who, {});
      StepHeld(s, a, who);
      StepInv(s, a);
      var rest := CanComplete(Step(s, a), NextHolder(s, a, who));
      acts := [a] + rest;
      Prepend(s, a, rest);
    }
  }

  // ----- An update brings the known set up to date

  lemma {:induction false} Listed(hashes: set<Hash>) returns (s: seq<Hash>)
    ensures SetOf(s) == hashes
  {
    if hashes == {} {
      s := [];
    } else {
      var h :| h in hashes;
      var rest := Listed(hashes - {h});
      s := rest + [h];
      Append(rest, h);
    }
  }

  /** The holder's update makes the known set the pool, or has done so: what was answered
      is the true difference. */
  ghost predicate Headed(s: State, who: Holder, pool: set<Hash>)
    requires Held(s, who)
  {
    match who
    case Nobody => s.known == pool
    case InFlight(r) => s.requests[r].DifferenceRequest? || s.known == pool
    case Thread(t) =>
      match s.threads[t]
      case WantLock => true
      case Locked => true
      case Difference(sent, answer) => answer.ok && IsDifference(answer, sent, pool)
      case DifferenceLocked(sent, answer) => answer.ok && IsDifference(answer, sent, pool)
      case _ => s.known == pool
  }

  /** An update that is headed for a pool can get there. */
  lemma {:induction false} CanReach(s: State, who: Holder, pool: set<Hash>) returns (acts: seq<Action>)
    requires Inv(s) && Held(s, who) && Headed(s, who, pool)
    ensures Possible(s, acts)
    ensures var end := Outcome(s, acts); end.guard == NONE && end.known == pool && end.begun == s.begun
    decreases Rank(s, who)
  {
    if s.guard == NONE {
      acts := [];
    } else {
      var a := Advance(s, who, pool);
      StepHeld(s, a, who);
      StepInv(s, a);
      var rest := CanReach(Step(s, a), NextHolder(s, a, who), pool);
      acts := [a] + rest;
      Prepend(s, a, rest);
    }
  }

  /** Whatever the node's pool is, a notification that finds no update in flight can lead to
      an update that asks for the difference, applies it and ends. */
  lemma PoolIsReached(ss: seq<State>, acts: seq<Action>, i: nat, t: Tid, pool: set<Hash>) returns (more: seq<Action>)
    requires IsRun(ss, acts) && i < |ss| && ss[i].guard == NONE && At(ss[i], t, Entry)
    ensures Possible(ss[i], more)
    ensures var end := Outcome(ss[i], more); end.known == pool && end.begun == ss[i].begun + 1 && end.guard == NONE
  {
    RunInv(ss, acts, i);
    var s0 := ss[i];
    var a0, a1, a2 := EntryGo(t), LoadForBegin(t), TryBegin(t, false);
    var s1 := Step(s0, a0);
    var s2 := Step(s1, a1);
    var s3 := Step(s2, a2);
    StepInv(s0, a0);
    StepInv(s1, a1);
    StepInv(s2, a2);
    var who :| Held(s3, who);
    assert who == Thread(t);
    var rest := CanReach(s3, who, pool);
    Prepend(s2, a2, rest);
    Prepend(s1, a1, [a2] + rest);
    Prepend(s0, a0, [a1] + ([a2] + rest));
    more := [a0] + ([a1] + ([a2] + rest));
  }

  // ----- A fair run completes every update

  /** The rank, with one more as long as another thread can still change the guard. */
  function Distance(s: State, who: Holder): nat
    requires Held(s, who)
  {
    Rank(s, who) + if s.guard == UPDATING then 1 else 0
  }

  /** No step of any thread, exceptions included, takes an update in flight further from
      its end, and every effective step brings it nearer. */
  lemma StepDistance(s: State, a: Action, who: Holder)
    requires Held(s, who) && EndSeesUpdate(s) && MutexOk(s) && s.guard != NONE && Enabled(s, a)
    ensures Held(Step(s, a), NextHolder(s, a, who))
    ensures Distance(Step(s, a), NextHolder(s, a, who)) <= Distance(s, who)
    ensures Effective(a, who) ==> Distance(Step(s, a), NextHolder(s, a, who)) < Distance(s, who)
  {
    StepHeld(s, a, who);
    hide Held;
    if Effective(a, who) { EffectiveStep(s, a, who); } else { OtherStep(s, a, who); }
  }

  lemma EffectiveStep(s: State, a: Action, who: Holder)
    requires Held(s, who) && MutexOk(s) && s.guard != NONE && Enabled(s, a) && Effective(a, who)
    requires Held(Step(s, a), NextHolder(s, a, who))
    ensures Distance(Step(s, a), NextHolder(s, a, who)) < Distance(s, who)
  {
  }

  lemma OtherStep(s: State, a: Action, who: Holder)
    requires Held(s, who) && MutexOk(s) && s.guard != NONE && Enabled(s, a) && !Effective(a, who)
    requires Held(Step(s, a), NextHolder(s, a, who))
    ensures Distance(Step(s, a), NextHolder(s, a, who)) <= Distance(s, who)
  {
    hide Held, MutexOk, Enabled, Step, NextHolder, Effective, Distance;
    if IsGuardStep(a) || PassesDuty(a) { OtherGuardStep(s, a, who); } else { OtherPlainStep(s, a, who); }
  }

  lemma OtherGuardStep(s: State, a: Action, who: Holder)
    requires Held(s, who) && s.guard != NONE && Enabled(s, a) && !Effective(a, who) && (IsGuardStep(a) || PassesDuty(a))
    requires Held(Step(s, a), NextHolder(s, a, who))
    ensures Distance(Step(s, a), NextHolder(s, a, who)) <= Distance(s, who)
  {
  }

  lemma OtherPlainStep(s: State, a: Action, who: Holder)
    requires Held(s, who) && MutexOk(s) && s.guard != NONE && Enabled(s, a) && !Effective(a, who) && !IsGuardStep(a) && !PassesDuty(a)
    requires Held(Step(s, a), NextHolder(s, a, who))
    ensures Distance(Step(s, a), NextHolder(s, a, who)) <= Distance(s, who)
  {
  }

  /** The holder of the duty in state i of a run. */
  ghost function HolderAt(ss: seq<State>, acts: seq<Action>, i: nat): Holder
    requires IsRun(ss, acts) && i < |ss|
  {
    if i == 0 then Nobody else NextHolder(ss[i - 1], acts[i - 1], HolderAt(ss, acts, i - 1))
  }

  lemma {:induction false} HolderAtHolds(ss: seq<State>, acts: seq<Action>, i: nat)
    requires IsRun(ss, acts) && i < |ss|
    ensures Held(ss[i], HolderAt(ss, acts, i))
  {
    if i > 0 {
      HolderAtHolds(ss, acts, i - 1);
      RunInv(ss, acts, i - 1);
      StepHeld(ss[i - 1], acts[i - 1], HolderAt(ss, acts, i - 1));
    }
  }

  /** The number of effective steps from state i to state j. */
  ghost function EffectiveSteps(ss: seq<State>, acts: seq<Action>, i: nat, j: nat): nat
    requires IsRun(ss, acts) && i <= j < |ss|
    decreases j - i
  {
    if i == j then 0
    else (if Effective(acts[i], HolderAt(ss, acts, i)) then 1 else 0) + EffectiveSteps(ss, acts, i + 1, j)
  }

  ghost function DistanceAt(ss: seq<State>, acts: seq<Action>, i: nat): nat
    requires IsRun(ss, acts) && i < |ss|
  {
    HolderAtHolds(ss, acts, i);
    Distance(ss[i], HolderAt(ss, acts, i))
  }

  /** As long as an update is in flight, each effective step uses up some of the distance. */
  lemma {:induction false} StepsUseDistance(ss: seq<State>, acts: seq<Action>, i: nat, j: nat)
    requires IsRun(ss, acts) && i <= j < |ss|
    requires forall x :: i <= x < j ==> ss[x].guard != NONE
    ensures DistanceAt(ss, acts, j) + EffectiveSteps(ss, acts, i, j) <= DistanceAt(ss, acts, i)
    decreases j - i
  {
    if i < j {
      RunInv(ss, acts, i);
      HolderAtHolds(ss, acts, i);
      StepDistance(ss[i], acts[i], HolderAt(ss, acts, i));
      StepsUseDistance(ss, acts, i + 1, j);
    }
  }

  lemma DistanceBound(s: State, who: Holder)
    requires Held(s, who)
    ensures Distance(s, who) <= 22
  {
  }

  /** Whatever the threads do, and however often a compare-and-swap fails without a
      reason: an update has ended before its holder has taken 23 effective steps. */
  lemma UpdateEnds(ss: seq<State>, acts: seq<Action>, i: nat, j: nat)
    requires IsRun(ss, acts) && i <= j < |ss| && EffectiveSteps(ss, acts, i, j) > 22
    ensures exists x :: i <= x < j && ss[x].guard == NONE
  {
    HolderAtHolds(ss, acts, i);
    DistanceBound(ss[i], HolderAt(ss, acts, i));
    if forall x :: i <= x < j ==> ss[x].guard != NONE { StepsUseDistance(ss, acts, i, j); }
  }

  // ----- What an update does

  datatype Milestone = GotDifference | DidApply | GotDetails

  /** The action gets the answer with the difference, applies it, or gets the answer with
      the details. */
  function MilestonesOf(a: Action): seq<Milestone> {
    match a
    case AnswerDifference(_, _, _) => [GotDifference]
    case ApplyDifference(_) => [DidApply]
    case AnswerDetails(_, _) => [GotDetails]
    case _ => []
  }

  /** The milestones of the actions from i to before j. */
  ghost function Milestones(acts: seq<Action>, i: nat, j: nat): seq<Milestone>
    requires i <= j <= |acts|
  {
    if i == j then [] else Milestones(acts, i, j - 1) + MilestonesOf(acts[j - 1])
  }

  /** The milestones that the holder's update has passed, if nothing went wrong. */
  function Passed(s: State, who: Holder): seq<Milestone>
    requires Held(s, who)
  {
    match who
    case Nobody => []
    case InFlight(r) => if s.requests[r].DifferenceRequest? then [] else [GotDifference, DidApply]
    case Thread(t) =>
      match s.threads[t]
      case WantLock => []
      case Locked => []
      case Difference(_, _) => [GotDifference]
      case DifferenceLocked(_, _) => [GotDifference]
      case Applied => [GotDifference, DidApply]
      case _ => [GotDifference, DidApply, GotDetails]
  }

  /** The step leaves no scope early, neither by an exception nor for an error code. */
  predicate Clean(s: State, a: Action) { a.Exit? ==> a.t in s.threads && s.threads[a.t].Details? }

  lemma StepPassed(s: State, a: Action, who: Holder)
    requires Held(s, who) && s.guard != NONE && Enabled(s, a) && Clean(s, a)
    requires Held(Step(s, a), NextHolder(s, a, who))
    ensures NextHolder(s, a, who) != Nobody ==> Passed(Step(s, a), NextHolder(s, a, who)) == Passed(s, who) + MilestonesOf(a)
    ensures NextHolder(s, a, who) == Nobody ==> Passed(s, who) == [GotDifference, DidApply, GotDetails] && MilestonesOf(a) == []
  {
    hide Held, Enabled, Step, NextHolder, Clean, Passed, MilestonesOf;
    if PassesDuty(a) { PassedOn(s, a, who); } else if IsGuardStep(a) { PassedByGuard(s, a, who); } else { PassedHere(s, a, who); }
  }

  lemma PassedOn(s: State, a: Action, who: Holder)
    requires Held(s, who) && s.guard != NONE && Enabled(s, a) && PassesDuty(a)
    requires Held(Step(s, a), NextHolder(s, a, who))
    ensures NextHolder(s, a, who) != Nobody && Passed(Step(s, a), NextHolder(s, a, who)) == Passed(s, who) + MilestonesOf(a)
  {
  }

  lemma PassedByGuard(s: State, a: Action, who: Holder)
    requires Held(s, who) && s.guard != NONE && Enabled(s, a) && IsGuardStep(a)
    requires Held(Step(s, a), NextHolder(s, a, who))
    ensures NextHolder(s, a, who) != Nobody ==> Passed(Step(s, a), NextHolder(s, a, who)) == Passed(s, who) + MilestonesOf(a)
    ensures NextHolder(s, a, who) == Nobody ==> Passed(s, who) == [GotDifference, DidApply, GotDetails] && MilestonesOf(a) == []
  {
  }

  lemma PassedHere(s: State, a: Action, who: Holder)
    requires Held(s, who) && s.guard != NONE && Enabled(s, a) && Clean(s, a) && !PassesDuty(a) && !IsGuardStep(a)
    requires Held(Step(s, a), NextHolder(s, a, who))
    ensures NextHolder(s, a, who) == who != Nobody && Passed(Step(s, a), who) == Passed(s, who) + MilestonesOf(a)
  {
  }

  /** An update begins with action i and ends with action j. */
  ghost predicate IsUpdate(ss: seq<State>, acts: seq<Action>, i: nat, j: nat)
    requires |ss| == |acts| + 1
  {
    && i < j < |acts| && ss[i].guard == NONE && ss[j + 1].guard == NONE
    && forall x :: i < x <= j ==> ss[x].guard != NONE
  }

  lemma {:induction false} PassedAt(ss: seq<State>, acts: seq<Action>, i: nat, x: nat)
    requires IsRun(ss, acts) && i < x < |ss| && ss[i].guard == NONE
    requires forall y :: i < y <= x ==> ss[y].guard != NONE
    requires forall y :: i < y < x ==> Clean(ss[y], acts[y])
    ensures Held(ss[x], HolderAt(ss, acts, x)) && Milestones(acts, i, x) == Passed(ss[x], HolderAt(ss, acts, x))
  {
    hide Held, Step, Enabled, NextHolder, Passed, Clean, MilestonesOf;
    HolderAtHolds(ss, acts, x);
    if x == i + 1 {
      HolderAtHolds(ss, acts, i);
      assert Milestones(acts, i, i) == [];
      BeginPassed(ss[i], acts[i], HolderAt(ss, acts, i));
    } else {
      PassedAt(ss, acts, i, x - 1);
      StepPassed(ss[x - 1], acts[x - 1], HolderAt(ss, acts, x - 1));
      SomeHolder(ss[x], HolderAt(ss, acts, x));
    }
  }

  lemma SomeHolder(s: State, who: Holder)
    requires Held(s, who) && s.guard != NONE
    ensures who != Nobody
  {
  }

  lemma BeginPassed(s: State, a: Action, who: Holder)
    requires Held(s, who) && s.guard == NONE && Enabled(s, a) && Step(s, a).guard != NONE
    requires Held(Step(s, a), NextHolder(s, a, who))
    ensures MilestonesOf(a) == [] && Passed(Step(s, a), NextHolder(s, a, who)) == []
  {
  }

  /** Every update that ends without an exception and without an error code has got one
      answer, has applied it once, and then has got the details, whatever the other threads
      did meanwhile. */
  lemma UpdateDoes(ss: seq<State>, acts: seq<Action>, i: nat, j: nat)
    requires IsRun(ss, acts) && IsUpdate(ss, acts, i, j)
    requires forall y :: i < y < j ==> Clean(ss[y], acts[y])
    ensures Milestones(acts, i, j + 1) == [GotDifference, DidApply, GotDetails]
  {
    PassedAt(ss, acts, i, j);
    HolderAtHolds(ss, acts, j + 1);
    LastStep(ss[j], acts[j], HolderAt(ss, acts, j));
    StepPassed(ss[j], acts[j], HolderAt(ss, acts, j));
  }

  /** Only the end of the update leaves the guard NONE. */
  lemma LastStep(s: State, a: Action, who: Holder)
    requires Held(s, who) && s.guard != NONE && Enabled(s, a) && Step(s, a).guard == NONE
    requires Held(Step(s, a), NextHolder(s, a, who))
    ensures NextHolder(s, a, who) == Nobody && Clean(s, a)
  {
  }

  // ----- The known hashes follow the pool

  /** The answer is the difference between the set asked for and the pool. */
  ghost predicate IsDifference(answer: Answer, sent: set<Hash>, pool: set<Hash>) {
    SetOf(answer.added) == pool - sent && SetOf(answer.removed) == sent - pool
  }

  /** Applying the answer to the difference makes the known set the node's pool,
      because no other update can have changed it in between. */
  lemma AppliedIsPool(ss: seq<State>, acts: seq<Action>, i: nat, t: Tid, pool: set<Hash>)
    requires IsRun(ss, acts) && i < |acts| && acts[i] == ApplyDifference(t)
    requires Enabled(ss[i], acts[i]) && IsDifference(ss[i].threads[t].answer, ss[i].threads[t].sent, pool)
    ensures ss[i + 1].known == pool
  {
    RunIsSafe(ss, acts, i);
  }

  /** The set of known hashes as the first callback updates it, and a log of the
      lists it reports to the observers. */
  class KnownPool {
    var known: set<Hash>
    ghost var log: seq<(seq<Hash>, seq<Hash>)>

    ghost predicate Valid()
      reads this
    {
      Replay(log) == known && LogOk(log)
    }

    constructor ()
      ensures Valid() && known == {} && log == []
    {
      known, log := {}, [];
    }

    method Apply(added: seq<Hash>, removed: seq<Hash>) returns (newHashes: seq<Hash>, gone: seq<Hash>)
      requires Valid()
      modifies this
      ensures Valid() && log == old(log) + [(newHashes, gone)]
      ensures known == Merge(old(known), Answer(true, added, removed))
      ensures SetOf(newHashes) == SetOf(added) - old(known)
      ensures SetOf(gone) == SetOf(removed) * (old(known) + SetOf(added))
      ensures NoRepeats(newHashes) && NoRepeats(gone)
    {
      newHashes := Add(added);
      gone := Remove(removed);
      log := log + [(newHashes, gone)];
    }

    method Add(added: seq<Hash>) returns (newHashes: seq<Hash>)
      modifies this`known
      ensures known == old(known) + SetOf(added)
      ensures SetOf(newHashes) == SetOf(added) - old(known) && NoRepeats(newHashes)
    {
      newHashes := [];
      for i := 0 to |added|
        invariant known == old(known) + SetOf(added[..i])
        invariant SetOf(newHashes) == SetOf(added[..i]) - old(known) && NoRepeats(newHashes)
      {
        hide SetOf;
        SetOfPrefix(added, i);
        if added[i] !in known {
          known := known + {added[i]};
          Append(newHashes, added[i]);
          newHashes := newHashes + [added[i]];
        }
      }
      assert added[..|added|] == added;
    }

    method Remove(removed: seq<Hash>) returns (gone: seq<Hash>)
      modifies this`known
      ensures known == old(known) - SetOf(removed)
      ensures SetOf(gone) == SetOf(removed) * old(known) && NoRepeats(gone)
    {
      gone := [];
      for i := 0 to |removed|
        invariant known == old(known) - SetOf(removed[..i])
        invariant SetOf(gone) == SetOf(removed[..i]) * old(known) && NoRepeats(gone)
      {
        hide SetOf;
        SetOfPrefix(removed, i);
        if removed[i] in known {
          Append(gone, removed[i]);
          gone := gone + [removed[i]];
          known := known - {removed[i]};
        }
      }
      assert removed[..|removed|] == removed;
    }
  }

  predicate NoRepeats(s: seq<Hash>) { forall i, j :: 0 <= i < j < |s| ==> s[i] != s[j] }

  lemma SetOfPrefix(s: seq<Hash>, i: nat)
    requires i < |s|
    ensures SetOf(s[..i + 1]) == SetOf(s[..i]) + {s[i]}
  {
    assert s[..i + 1] == s[..i] + [s[i]];
  }

  lemma Append(s: seq<Hash>, h: Hash)
    ensures SetOf(s + [h]) == SetOf(s) + {h}
    ensures NoRepeats(s) && h !in SetOf(s) ==> NoRepeats(s + [h])
  {
  }

  /** Replaying the reported lists from the empty set. */
  ghost function Replay(log: seq<(seq<Hash>, seq<Hash>)>): set<Hash> {
    if log == [] then {}
    else Replay(log[..|log| - 1]) + SetOf(log[|log| - 1].0) - SetOf(log[|log| - 1].1)
  }

  /** Every list of new hashes is new, and every list of removed ones was known. */
  ghost predicate LogOk(log: seq<(seq<Hash>, seq<Hash>)>) {
    log == [] ||
    var before, last := Replay(log[..|log| - 1]), log[|log| - 1];
    LogOk(log[..|log| - 1]) && SetOf(last.0) !! before && SetOf(last.1) <= before + SetOf(last.0)
  }
}
