/** Threads sharing one transmitter (examples/rpi-pico-device-zephyr/src/main.c:
    160-219): a recursive mutex, kept across calls while a SysEx run is open.
    Every step of every thread is one transition. */
module SharedTransmit {
  import opened Words
  import opened Ump
  import opened Reassembly
  import opened WireFormat

  type Tid = nat

  const MAX_ATTEMPT := 50

  /** Where a thread is in send_ump. i words are out; mark is the length of the
      log when it got the mutex. */
  datatype Local =
    | Outside
    | Waiting(words: seq<word>)
    | Locked(words: seq<word>)
    | Looping(words: seq<word>, i: nat, runOpen: bool, mark: nat)
    | Trying(words: seq<word>, i: nat, runOpen: bool, mark: nat, attempt: nat)
    | Leaving(words: seq<word>, i: nat, runOpen: bool, mark: nat)
    | Unlocking(words: seq<word>, i: nat, unlocks: nat, mark: nat)

  /** What has happened at the transport: a packet taken, or a run given up
      because the host is gone or would not take a packet. */
  datatype Entry = Wrote(tid: Tid, packet: seq<word>) | GaveUp(tid: Tid)

  /** The mutex (owner and count), tx_run_held, the threads, and the log. */
  datatype State = State(owner: Option<Tid>, count: nat, held: bool, threads: map<Tid, Local>, log: seq<Entry>)

  /** ready is what the thread reads of g_midi_ready; taken whether the transport
      takes the packet. */
  datatype Action = Call(words: seq<word>) | Acquire | Begin(ready: bool) | Advance | Attempt(taken: bool) | Settle | Unlock

  function At(s: State, t: Tid): Local {
    if t in s.threads then s.threads[t] else Outside
  }

  function Put(s: State, t: Tid, l: Local): State {
    s.(threads := s.threads[t := l])
  }

  // ---- Packets ----------------------------------------------------------------

  predicate IsSysEx(p: seq<word>) {
    p != [] && (Mt(p[0]) == MT_SYSEX7 || Mt(p[0]) == MT_DATA128)
  }

  predicate Opens(p: seq<word>) {
    IsSysEx(p) && Form(p[0]) == START
  }

  predicate Closes(p: seq<word>) {
    IsSysEx(p) && (Form(p[0]) == COMPLETE || Form(p[0]) == END)
  }

  function Size(words: seq<word>, i: nat): nat
    requires i < |words|
  {
    WordCount(Mt(words[i]))
  }

  // ---- The steps of send_ump ---------------------------------------------------

  /** One step of thread t; None if it cannot take it now. */
  function Step(s: State, t: Tid, a: Action): Option<State> {
    match (At(s, t), a)
    case (Outside, Call(words)) => Some(Put(s, t, Waiting(words)))
    case (Waiting(words), Acquire) =>
      if s.owner == None || s.owner == Some(t) then Some(Put(s.(owner := Some(t), count := s.count + 1), t, Locked(words)))
      else None
    case (Locked(words), Begin(ready)) =>
      if ready then Some(Put(s, t, Looping(words, 0, s.held, |s.log|)))
      else Some(Put(s.(log := s.log + [GaveUp(t)]), t, Leaving(words, 0, false, |s.log|)))
    case (Looping(words, i, runOpen, mark), Advance) =>
      if i >= |words| || i + Size(words, i) > |words| then Some(Put(s, t, Leaving(words, i, runOpen, mark)))
      else
        var p := words[i..i + Size(words, i)];
        Some(Put(s, t, Trying(words, i, if Opens(p) then true else if Closes(p) then false else runOpen, mark, 0)))
    case (Trying(words, i, runOpen, mark, attempt), Attempt(taken)) =>
      if i >= |words| || i + Size(words, i) > |words| then None
      else if taken then
        var p := words[i..i + Size(words, i)];
        Some(Put(s.(log := s.log + [Wrote(t, p)]), t, Looping(words, i + |p|, runOpen, mark)))
      else if attempt >= MAX_ATTEMPT then
        Some(Put(s.(log := s.log + [GaveUp(t)]), t, Leaving(words, i, false, mark)))
      else Some(Put(s, t, Trying(words, i, runOpen, mark, attempt + 1)))
    case (Leaving(words, i, runOpen, mark), Settle) =>
      if runOpen && !s.held then Some(Put(s.(held := true), t, Unlocking(words, i, 0, mark)))
      else if !runOpen && s.held then Some(Put(s.(held := false), t, Unlocking(words, i, 2, mark)))
      else Some(Put(s, t, Unlocking(words, i, 1, mark)))
    case (Unlocking(words, i, unlocks, mark), Unlock) =>
      if unlocks == 0 then Some(Put(s, t, Outside))
      else if s.count == 0 || s.owner != Some(t) then None
      else
        Some(Put(s.(count := s.count - 1, owner := if s.count == 1 then None else s.owner), t, Unlocking(words, i, unlocks - 1, mark)))
    case _ => None
  }

  const INIT := State(None, 0, false, map[], [])

  /** The states some interleaving of steps leads to. */
  ghost predicate Reaches(run: seq<(Tid, Action)>, s: State)
    decreases |run|
  {
    if run == [] then s == INIT
    else
      var (t, a) := run[|run| - 1];
      exists s0 :: Reaches(run[..|run| - 1], s0) && Step(s0, t, a) == Some(s)
  }

  // ---- The invariant -----------------------------------------------------------

  /** Between taking the mutex and giving it back. */
  predicate Inside(l: Local) {
    !l.Outside? && !l.Waiting?
  }

  /** How many times the thread has still to unlock for this call. */
  function Owes(l: Local): nat {
    if !Inside(l) then 0 else if l.Unlocking? then l.unlocks else 1
  }

  /** Only the owner is inside, and the count is its unlocks to come: for its
      call, and one more for a held run. */
  ghost predicate Mutex(s: State) {
    && (s.owner == None <==> s.count == 0) && (s.held ==> s.owner.Some?)
    && (s.owner.Some? ==> s.count == Owes(At(s, s.owner.value)) + (if s.held then 1 else 0))
    && forall t: Tid :: Owes(At(s, t)) > 0 ==> s.owner == Some(t)
  }

  /** Who has a run open after the log. */
  function OpenBy(log: seq<Entry>): Option<Tid> {
    if log == [] then None else After(OpenBy(log[..|log| - 1]), log[|log| - 1])
  }

  function After(open: Option<Tid>, e: Entry): Option<Tid> {
    if e.GaveUp? then None
    else if Opens(e.packet) then Some(e.tid)
    else if Closes(e.packet) then None
    else open
  }

  /** Nothing happens in a run but by the thread that opened it. */
  ghost predicate Exclusive(log: seq<Entry>) {
    forall k :: 0 <= k < |log| ==> OpenBy(log[..k]) == None || OpenBy(log[..k]) == Some(log[k].tid)
  }

  function If(b: bool, t: Tid): Option<Tid> {
    if b then Some(t) else None
  }

  /** run_open, or tx_run_held where a thread has no run_open, is right. */
  ghost predicate Tracks(held: bool, t: Tid, l: Local, open: Option<Tid>) {
    && (open == None || open == Some(t))
    && match l
       case Looping(words, i, runOpen, mark) => open == If(runOpen, t)
       case Leaving(words, i, runOpen, mark) => open == If(runOpen, t)
       case Trying(words, i, runOpen, mark, attempt) =>
         i < |words| && i + Size(words, i) <= |words|
         && After(open, Wrote(t, words[i..i + Size(words, i)])) == If(runOpen, t)
       case _ => open == If(held, t)
  }

  function Packets(log: seq<Entry>): seq<word> {
    if log == [] then []
    else Packets(log[..|log| - 1]) + (if log[|log| - 1].Wrote? then log[|log| - 1].packet else [])
  }

  /** Since mark, only t has touched the transport, and the words out are done. */
  ghost predicate Done(log: seq<Entry>, t: Tid, mark: nat, done: seq<word>) {
    && mark <= |log| && Packets(log[mark..]) == done
    && forall k :: mark <= k < |log| ==> log[k].tid == t
  }

  ghost predicate Progress(log: seq<Entry>, t: Tid, l: Local) {
    match l
    case Looping(words, i, runOpen, mark) => i <= |words| && Done(log, t, mark, words[..i])
    case Trying(words, i, runOpen, mark, attempt) => i <= |words| && Done(log, t, mark, words[..i])
    case Leaving(words, i, runOpen, mark) => i <= |words| && Done(log, t, mark, words[..i])
    case _ => true
  }

  ghost predicate Inv(s: State) {
    && Mutex(s) && Exclusive(s.log)
    && (s.owner == None ==> OpenBy(s.log) == None)
    && (s.owner.Some? ==>
          var t := s.owner.value;
          Tracks(s.held, t, At(s, t), OpenBy(s.log)) && Progress(s.log, t, At(s, t)))
  }

  // ---- Every step keeps it ------------------------------------------------------

  lemma LogSnoc(log: seq<Entry>, e: Entry)
    ensures OpenBy(log + [e]) == After(OpenBy(log), e)
    ensures Exclusive(log) && (OpenBy(log) == None || OpenBy(log) == Some(e.tid)) ==> Exclusive(log + [e])
  {
    hide After;
    var more := log + [e];
    assert more[..|log|] == log;
    assert forall k :: 0 <= k < |log| ==> more[..k] == log[..k];
  }

  lemma DoneSnoc(log: seq<Entry>, t: Tid, mark: nat, done: seq<word>, e: Entry)
    requires Done(log, t, mark, done) && e.tid == t
    ensures Done(log + [e], t, mark, if e.Wrote? then done + e.packet else done)
  {
    var more := log + [e];
    assert more[mark..][..|log| - mark] == log[mark..];
    assert e.GaveUp? ==> done + [] == done;
  }

  /** A step of a thread that owes unlocks, and goes on owing as many. */
  lemma KeepsMutex(s: State, t: Tid, now: State, l: Local)
    requires Mutex(s) && now.owner == s.owner && now.count == s.count && now.held == s.held
    requires forall u: Tid :: At(now, u) == if u == t then l else At(s, u)
    requires Owes(l) == Owes(At(s, t))
    ensures Mutex(now)
  {
    hide At;
  }

  lemma StepKeeps(s: State, t: Tid, a: Action)
    requires Inv(s) && Step(s, t, a).Some?
    ensures Inv(Step(s, t, a).value)
  {
    hide At, Put, OpenBy, After, Exclusive, Done, Opens, Closes, Size, Mutex;
    match a
    case Call(words) => KeepCall(s, t, words);
    case Acquire => KeepAcquire(s, t);
    case Begin(ready) => KeepBegin(s, t, ready);
    case Advance => KeepAdvance(s, t);
    case Attempt(taken) => KeepAttempt(s, t, taken);
    case Settle => KeepSettle(s, t);
    case Unlock => KeepUnlock(s, t);
  }

  lemma KeepCall(s: State, t: Tid, words: seq<word>)
    requires Inv(s) && Step(s, t, Call(words)).Some?
    ensures Inv(Step(s, t, Call(words)).value)
  {
    hide OpenBy, After, Exclusive, Done, Opens, Closes, Size;
    var now := Step(s, t, Call(words)).value;
    KeepsMutex(s, t, now, Waiting(words));
  }

  lemma KeepAcquire(s: State, t: Tid)
    requires Inv(s) && Step(s, t, Acquire).Some?
    ensures Inv(Step(s, t, Acquire).value)
  {
    hide OpenBy, After, Exclusive, Done, Opens, Closes, Size;
    var now := Step(s, t, Acquire).value;
    assert forall u: Tid :: At(now, u) == if u == t then Locked(At(s, t).words) else At(s, u);
  }

  lemma KeepBegin(s: State, t: Tid, ready: bool)
    requires Inv(s) && Step(s, t, Begin(ready)).Some?
    ensures Inv(Step(s, t, Begin(ready)).value)
  {
    hide OpenBy, Exclusive, Opens, Closes, Size;
    var now := Step(s, t, Begin(ready)).value;
    KeepsMutex(s, t, now, At(now, t));
    LogSnoc(s.log, GaveUp(t));
    assert s.log[|s.log|..] == [] && (s.log + [GaveUp(t)])[|s.log|..] == [GaveUp(t)];
    assert Packets([]) == [] && Packets([GaveUp(t)]) == [];
  }

  lemma KeepAdvance(s: State, t: Tid)
    requires Inv(s) && Step(s, t, Advance).Some?
    ensures Inv(Step(s, t, Advance).value)
  {
    hide OpenBy, Exclusive, Opens, Closes, Done, Size;
    var now := Step(s, t, Advance).value;
    KeepsMutex(s, t, now, At(now, t));
  }

  lemma KeepAttempt(s: State, t: Tid, taken: bool)
    requires Inv(s) && Step(s, t, Attempt(taken)).Some?
    ensures Inv(Step(s, t, Attempt(taken)).value)
  {
    hide OpenBy, Exclusive, Opens, Closes, Done, Size;
    var now := Step(s, t, Attempt(taken)).value;
    KeepsMutex(s, t, now, At(now, t));
    var l := At(s, t);
    var p := l.words[l.i..l.i + Size(l.words, l.i)];
    var e := if taken then Wrote(t, p) else GaveUp(t);
    LogSnoc(s.log, e);
    DoneSnoc(s.log, t, l.mark, l.words[..l.i], e);
    assert l.words[..l.i] + p == l.words[..l.i + |p|];
  }

  lemma KeepSettle(s: State, t: Tid)
    requires Inv(s) && Step(s, t, Settle).Some?
    ensures Inv(Step(s, t, Settle).value)
  {
    hide OpenBy, After, Exclusive, Done, Opens, Closes, Size;
    var now := Step(s, t, Settle).value;
    assert forall u: Tid :: At(now, u) == if u == t then At(now, t) else At(s, u);
  }

  lemma KeepUnlock(s: State, t: Tid)
    requires Inv(s) && Step(s, t, Unlock).Some?
    ensures Inv(Step(s, t, Unlock).value)
  {
    hide OpenBy, After, Exclusive, Done, Opens, Closes, Size;
    var now := Step(s, t, Unlock).value;
    assert forall u: Tid :: At(now, u) == if u == t then At(now, t) else At(s, u);
  }

  lemma {:induction false} ReachableInv(run: seq<(Tid, Action)>, s: State)
    requires Reaches(run, s)
    ensures Inv(s)
    decreases |run|
  {
    hide Inv, Step;
    if run == [] {
      InitInv();
    } else {
      var (t, a) := run[|run| - 1];
      var s0 :| Reaches(run[..|run| - 1], s0) && Step(s0, t, a) == Some(s);
      ReachableInv(run[..|run| - 1], s0);
      StepKeeps(s0, t, a);
    }
  }

  lemma InitInv()
    ensures Inv(INIT)
  {
  }

  // ---- What holds in every interleaving -----------------------------------------

  /** Thread t ends its run: it completes or ends a SysEx, or gives up. */
  predicate Ends(e: Entry, t: Tid) {
    e.tid == t && (e.GaveUp? || Closes(e.packet))
  }

  lemma {:induction false} OpenUntil(log: seq<Entry>, a: nat, b: nat)
    requires a < b <= |log| && Exclusive(log) && log[a].Wrote? && Opens(log[a].packet)
    requires forall k :: a < k < b ==> !Ends(log[k], log[a].tid)
    ensures OpenBy(log[..b]) == Some(log[a].tid)
    decreases b
  {
    hide OpenBy, Opens, Closes;
    var e := log[b - 1];
    assert log[..b] == log[..b - 1] + [e];
    LogSnoc(log[..b - 1], e);
    if a < b - 1 {
      OpenUntil(log, a, b - 1);
      assert OpenBy(log[..b - 1]) == Some(e.tid);
      assert !Ends(e, log[a].tid);
    }
  }

  /** In every interleaving, from the packet with which a thread opens a run until
      it ends it or gives it up, everything at the transport is that thread's. */
  lemma RunExclusive(run: seq<(Tid, Action)>, s: State, a: nat, b: nat)
    requires Reaches(run, s) && a < b < |s.log|
    requires s.log[a].Wrote? && Opens(s.log[a].packet)
    requires forall k :: a < k < b ==> !Ends(s.log[k], s.log[a].tid)
    ensures s.log[b].tid == s.log[a].tid
  {
    hide Tracks, Progress, Mutex, Opens, Closes, Ends;
    ReachableInv(run, s);
    OpenUntil(s.log, a, b);
  }

  /** With no thread between taking and giving back the mutex, its count is 1 if
      a run is held and 0 if not, and a run is held exactly if one is open. */
  lemma CountOutsideCalls(run: seq<(Tid, Action)>, s: State)
    requires Reaches(run, s) && forall t: Tid :: !Inside(At(s, t))
    ensures s.count == (if s.held then 1 else 0)
    ensures OpenBy(s.log) == if s.held then s.owner else None
  {
    hide Exclusive, OpenBy, Reaches;
    ReachableInv(run, s);
    if s.owner.Some? {
      assert !Inside(At(s, s.owner.value));
    }
  }

  /** What send_ump is about to report: the words it says are out are those the
      transport took since it got the mutex, and nobody else wrote. */
  lemma ReportsWritten(run: seq<(Tid, Action)>, s: State, t: Tid)
    requires Reaches(run, s) && At(s, t).Leaving?
    ensures var l := At(s, t);
            && l.i <= |l.words| && l.mark <= |s.log| && Packets(s.log[l.mark..]) == l.words[..l.i]
            && forall k :: l.mark <= k < |s.log| ==> s.log[k].tid == t
  {
    hide Exclusive, OpenBy, Reaches, Tracks;
    ReachableInv(run, s);
    assert Owes(At(s, t)) > 0;
  }

  // ---- In numbers ----------------------------------------------------------------

  /** SysEx7 and SysEx8 packets, types 3 and 5, open a run with form 1 and close it
      with forms 0 and 3. */
  lemma OpensAndCloses(p: seq<word>)
    requires p != []
    ensures Opens(p) <==> p[0] / 0x1000_0000 in {3, 5} && p[0] / 0x10_0000 % 16 == 1
    ensures Closes(p) <==> p[0] / 0x1000_0000 in {3, 5} && p[0] / 0x10_0000 % 16 in {0, 3}
  {
    hide Mt, Form;
    TypeAndGroup(p[0]);
  }

  /** Every packet at the transport is a whole message. */
  predicate Whole(e: Entry) {
    e.Wrote? ==>
      && e.packet != []
      && var mt, n := e.packet[0] / 0x1000_0000, |e.packet|;
         && (mt in {0, 1, 2, 6, 7} ==> n == 1) && (mt in {3, 4, 8, 9, 10} ==> n == 2)
         && (mt in {11, 12} ==> n == 3) && (mt in {5, 13, 14, 15} ==> n == 4)
  }

  lemma StepWhole(s: State, t: Tid, a: Action)
    requires Step(s, t, a).Some? && forall e :: e in s.log ==> Whole(e)
    ensures forall e :: e in Step(s, t, a).value.log ==> Whole(e)
  {
    hide Opens, Closes, WordCount, Mt;
    var l := At(s, t);
    if l.Trying? && l.i < |l.words| {
      TypeAndGroup(l.words[l.i]);
      Lengths(l.words[l.i] / 0x1000_0000);
    }
  }

  /** In every interleaving. */
  lemma {:induction false} LogWhole(run: seq<(Tid, Action)>, s: State)
    requires Reaches(run, s)
    ensures forall e :: e in s.log ==> Whole(e)
    decreases |run|
  {
    hide Step, Whole;
    if run != [] {
      var (t, a) := run[|run| - 1];
      var s0 :| Reaches(run[..|run| - 1], s0) && Step(s0, t, a) == Some(s);
      LogWhole(run[..|run| - 1], s0);
      StepWhole(s0, t, a);
    }
  }

  /** The transport may refuse a packet 50 times; at the 51st the call gives up and
      its run is closed. A host not ready closes it before the first. */
  lemma GivesUp(s: State, t: Tid, words: seq<word>, i: nat, runOpen: bool, mark: nat, attempt: nat)
    requires At(s, t) == Trying(words, i, runOpen, mark, attempt) && i < |words| && i + Size(words, i) <= |words|
    ensures attempt < 50 ==> Step(s, t, Attempt(false)) == Some(Put(s, t, Trying(words, i, runOpen, mark, attempt + 1)))
    ensures attempt >= 50 ==>
              Step(s, t, Attempt(false)) == Some(Put(s.(log := s.log + [GaveUp(t)]), t, Leaving(words, i, false, mark)))
    ensures Step(Put(s, t, Locked(words)), t, Begin(false)).Some?
            && At(Step(Put(s, t, Locked(words)), t, Begin(false)).value, t) == Leaving(words, 0, false, |s.log|)
  {
  }

  // ---- Driving one thread ----------------------------------------------------------

  lemma Extend(run: seq<(Tid, Action)>, s: State, t: Tid, a: Action) returns (more: seq<(Tid, Action)>, now: State)
    requires Reaches(run, s) && Step(s, t, a).Some?
    ensures Reaches(more, now) && Step(s, t, a) == Some(now) && more == run + [(t, a)]
  {
    hide Step;
    more, now := run + [(t, a)], Step(s, t, a).value;
    assert more[..|more| - 1] == run && more[|more| - 1] == (t, a);
  }

  lemma InitReached()
    ensures Reaches([], INIT)
  {
  }

  /** Nobody is in the way of t: the mutex is free, or t holds it for its run. */
  predicate Unhindered(s: State, t: Tid) {
    At(s, t).Outside? && s.owner == If(s.held, t) && s.count == (if s.held then 1 else 0)
  }

  /** The mutex is taken, and the loop over words begins. */
  lemma Enter(run: seq<(Tid, Action)>, s: State, t: Tid, words: seq<word>) returns (more: seq<(Tid, Action)>, now: State)
    requires Reaches(run, s) && Unhindered(s, t)
    ensures Reaches(more, now) && more == run + [(t, Call(words)), (t, Acquire), (t, Begin(true))]
    ensures now.owner == Some(t) && now.count == s.count + 1 && now.held == s.held && now.log == s.log
    ensures forall u: Tid :: At(now, u) == if u == t then Looping(words, 0, s.held, |s.log|) else At(s, u)
  {
    hide Reaches;
    more, now := Extend(run, s, t, Call(words));
    more, now := Extend(more, now, t, Acquire);
    more, now := Extend(more, now, t, Begin(true));
  }

  /** The next message is written at the first attempt. */
  lemma WriteNext(run: seq<(Tid, Action)>, s: State, t: Tid, p: seq<word>) returns (more: seq<(Tid, Action)>, now: State)
    requires Reaches(run, s) && At(s, t).Looping?
    requires var l := At(s, t); l.i < |l.words| && l.i + Size(l.words, l.i) <= |l.words| && l.words[l.i..l.i + Size(l.words, l.i)] == p
    ensures Reaches(more, now) && more == run + [(t, Advance), (t, Attempt(true))]
    ensures now.owner == s.owner && now.count == s.count && now.held == s.held && now.log == s.log + [Wrote(t, p)]
    ensures var l := At(s, t);
            forall u: Tid :: At(now, u) == if u != t then At(s, u)
              else Looping(l.words, l.i + |p|, if Opens(p) then true else if Closes(p) then false else l.runOpen, l.mark)
  {
    hide Reaches, Opens, Closes, Size;
    more, now := Extend(run, s, t, Advance);
    more, now := Extend(more, now, t, Attempt(true));
  }

  /** With no whole message left, the call ends; the mutex is kept exactly if a run
      is open. */
  lemma Leave(run: seq<(Tid, Action)>, s: State, t: Tid) returns (more: seq<(Tid, Action)>, now: State)
    requires Reaches(run, s) && At(s, t).Looping?
    requires var l := At(s, t); l.i >= |l.words| || l.i + Size(l.words, l.i) > |l.words|
    requires s.owner == Some(t) && s.count == (if s.held then 2 else 1)
    ensures Reaches(more, now) && run <= more && forall k :: |run| <= k < |more| ==> !more[k].1.Call?
    ensures Unhindered(now, t) && now.held == At(s, t).runOpen && now.log == s.log
    ensures forall u: Tid :: u != t ==> At(now, u) == At(s, u)
  {
    hide Reaches, Size;
    more, now := Extend(run, s, t, Advance);
    more, now := Extend(more, now, t, Settle);
    if At(now, t).unlocks > 0 {
      more, now := Extend(more, now, t, Unlock);
    }
    if At(now, t).unlocks > 0 {
      more, now := Extend(more, now, t, Unlock);
    }
    more, now := Extend(more, now, t, Unlock);
  }

  // ---- One flag for all groups ---------------------------------------------------

  const START_GROUP_0: seq<word> := [0x3016_0102, 0x0304_0506]
  const COMPLETE_GROUP_1: seq<word> := [0x3101_0700, 0]
  const NOTE: seq<word> := [0x2090_3C40]

  lemma Kinds()
    ensures Opens(START_GROUP_0) && Group(START_GROUP_0[0]) == 0 && WordCount(Mt(START_GROUP_0[0])) == 2
    ensures !Opens(COMPLETE_GROUP_1) && Closes(COMPLETE_GROUP_1) && Group(COMPLETE_GROUP_1[0]) == 1
            && WordCount(Mt(COMPLETE_GROUP_1[0])) == 2
    ensures !Opens(NOTE) && !Closes(NOTE) && WordCount(Mt(NOTE[0])) == 1
  {
  }

  /** The run that is protected is the caller's last, not the one of a group: a
      thread that sends another group a COMPLETE in the middle of its own SysEx
      lets go of the mutex, and another thread's packet falls into that SysEx. */
  lemma OtherGroupLetsGo()
    ensures exists run: seq<(Tid, Action)>, s ::
              Reaches(run, s) && s.log == [Wrote(0, START_GROUP_0), Wrote(0, COMPLETE_GROUP_1), Wrote(1, NOTE)]
  {
    hide Opens, Closes, Mt, WordCount, Reaches;
    Kinds();
    assert Reaches([], INIT) by { InitReached(); }
    var both := START_GROUP_0 + COMPLETE_GROUP_1;
    assert both[0..2] == START_GROUP_0 && both[2..4] == COMPLETE_GROUP_1 && NOTE[0..1] == NOTE;
    var run, s := Enter([], INIT, 0, both);
    run, s := WriteNext(run, s, 0, START_GROUP_0);
    run, s := WriteNext(run, s, 0, COMPLETE_GROUP_1);
    run, s := Leave(run, s, 0);
    run, s := Enter(run, s, 1, NOTE);
    run, s := WriteNext(run, s, 1, NOTE);
  }
}
