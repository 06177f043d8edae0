/** Which calls of send_ump keep the SysEx runs of a thread to themselves
    (examples/rpi-pico-device-zephyr/src/main.c:160-219). On the wire a run belongs
    to a message type, a group and, for SysEx8, a stream; the code tracks one flag. */
module RunProtection {
  import opened Words
  import opened Ump
  import R = Reassembly
  import opened SharedTransmit
  import WireFormat

  datatype Key = Key(mt: nibble, group: nibble, stream: byte)

  function KeyOf(p: seq<word>): Key
    requires IsSysEx(p)
  {
    Key(Mt(p[0]), Group(p[0]), if Mt(p[0]) == MT_DATA128 then SysEx8Stream(p[0]) else 0)
  }

  /** The type, the group and, for type 5, the stream id. */
  lemma KeyNumbers(p: seq<word>)
    requires IsSysEx(p)
    ensures var w := p[0];
            KeyOf(p) == Key(w / 0x1000_0000, w / 0x100_0000 % 16, if w / 0x1000_0000 == 5 then w / 0x100 % 0x100 else 0)
  {
    WireFormat.TypeAndGroup(p[0]);
  }

  /** What a thread can keep about its own packets: the keys it has left open, and
      whether the last packet that opened or closed a run opened one. */
  datatype Track = Track(keys: set<Key>, flag: bool)

  const CLEAR := Track({}, false)

  function Follow(tr: Track, p: seq<word>): Track {
    if Opens(p) then Track(tr.keys + {KeyOf(p)}, true)
    else if Closes(p) then Track(tr.keys - {KeyOf(p)}, false)
    else tr
  }

  /** words begin with a whole message. */
  predicate HasNext(words: seq<word>) {
    words != [] && Size(words, 0) <= |words|
  }

  lemma SizePositive(words: seq<word>)
    requires words != []
    ensures Size(words, 0) >= 1
  {
  }

  /** The track after the whole messages of words. */
  function AfterCall(tr: Track, words: seq<word>): Track
    decreases |words|
  {
    if !HasNext(words) then tr
    else
      SizePositive(words);
      AfterCall(Follow(tr, words[..Size(words, 0)]), words[Size(words, 0)..])
  }

  /** With a key open, the last packet to open or close a run opened one. */
  predicate Guarded(tr: Track) {
    tr.keys != {} ==> tr.flag
  }

  /** Each of the calls ends guarded. */
  predicate Safe(tr: Track, calls: seq<seq<word>>)
    decreases |calls|
  {
    calls == [] || (Guarded(AfterCall(tr, calls[0])) && Safe(AfterCall(tr, calls[0]), calls[1..]))
  }

  // ---- A thread's part of a run ---------------------------------------------------

  /** The words thread t has called send_ump with. */
  function Calls(run: seq<(Tid, Action)>, t: Tid): seq<seq<word>> {
    if run == [] then []
    else
      var (u, a) := run[|run| - 1];
      Calls(run[..|run| - 1], t) + (if u == t && a.Call? then [a.words] else [])
  }

  /** What t has open on the wire; giving up abandons it. */
  function OfLog(log: seq<Entry>, t: Tid): Track {
    if log == [] then CLEAR
    else
      var tr, e := OfLog(log[..|log| - 1], t), log[|log| - 1];
      if e.tid != t then tr else if e.GaveUp? then CLEAR else Follow(tr, e.packet)
  }

  /** Nobody else does anything while t has a key open. */
  ghost predicate Sheltered(log: seq<Entry>, t: Tid) {
    forall b :: 0 <= b < |log| && log[b].tid != t ==> OfLog(log[..b], t).keys == {}
  }

  /** In every interleaving, whatever the other threads call and whatever the
      transport refuses, a thread making these calls in turn has its runs to itself. */
  ghost predicate Protects(t: Tid, calls: seq<seq<word>>) {
    forall run, s :: Reaches(run, s) && Calls(run, t) <= calls ==> Sheltered(s.log, t)
  }

  lemma OfLogSnoc(log: seq<Entry>, e: Entry, t: Tid)
    ensures OfLog(log + [e], t) == if e.tid != t then OfLog(log, t) else if e.GaveUp? then CLEAR else Follow(OfLog(log, t), e.packet)
    ensures Sheltered(log, t) && (e.tid == t || OfLog(log, t).keys == {}) ==> Sheltered(log + [e], t)
  {
    var more := log + [e];
    assert more[..|log|] == log;
    assert forall k :: 0 <= k < |log| ==> more[..k] == log[..k];
  }

  lemma CallsSnoc(run: seq<(Tid, Action)>, u: Tid, a: Action, t: Tid)
    ensures Calls(run + [(u, a)], t) == if u == t && a.Call? then Calls(run, t) + [a.words] else Calls(run, t)
  {
    assert (run + [(u, a)])[..|run|] == run;
  }

  lemma ExclusiveUpTo(log: seq<Entry>, e: Entry)
    requires Exclusive(log + [e])
    ensures Exclusive(log) && (OpenBy(log) == R.None || OpenBy(log) == R.Some(e.tid))
  {
    hide OpenBy;
    var more := log + [e];
    assert more[..|log|] == log && more[|log|] == e;
    assert forall k :: 0 <= k < |log| ==> more[..k] == log[..k] && more[k] == log[k];
  }

  lemma NothingYet(t: Tid)
    ensures OfLog([], t) == CLEAR && OpenBy([]) == R.None
  {
  }

  /** The flag is the code's: set exactly if t is the thread with a run open. */
  lemma {:induction false} FlagIsOpen(log: seq<Entry>, t: Tid)
    requires Exclusive(log)
    ensures OfLog(log, t).flag <==> OpenBy(log) == R.Some(t)
  {
    hide OfLog, OpenBy, Exclusive, Opens, Closes, KeyOf;
    NothingYet(t);
    if log != [] {
      var init, e := log[..|log| - 1], log[|log| - 1];
      assert log == init + [e];
      ExclusiveUpTo(init, e);
      FlagIsOpen(init, t);
      OfLogSnoc(init, e, t);
      LogSnoc(init, e);
    }
  }

  // ---- Safe calls stay safe after giving up -----------------------------------------

  /** lo has fewer keys open than hi, and forgets the flag only with all keys. */
  predicate Below(lo: Track, hi: Track) {
    lo.keys <= hi.keys && (lo.flag == hi.flag || lo.keys == {})
  }

  lemma {:induction false} BelowAfterCall(lo: Track, hi: Track, words: seq<word>)
    requires Below(lo, hi)
    ensures Below(AfterCall(lo, words), AfterCall(hi, words))
    decreases |words|
  {
    hide Opens, Closes, Size, KeyOf;
    if HasNext(words) {
      SizePositive(words);
      var p := words[..Size(words, 0)];
      BelowAfterCall(Follow(lo, p), Follow(hi, p), words[Size(words, 0)..]);
    }
  }

  lemma {:induction false} SafeBelow(lo: Track, hi: Track, calls: seq<seq<word>>)
    requires Below(lo, hi) && Safe(hi, calls)
    ensures Safe(lo, calls)
    decreases |calls|
  {
    if calls != [] {
      BelowAfterCall(lo, hi, calls[0]);
      SafeBelow(AfterCall(lo, calls[0]), AfterCall(hi, calls[0]), calls[1..]);
    }
  }

  // ---- The invariant of a thread with safe calls --------------------------------------

  /** In the loop over words, with or without a packet in hand. */
  predicate InLoop(l: Local) {
    l.Looping? || l.Trying?
  }

  /** The words of the current call that are still to be sent. */
  function Rest(l: Local): seq<seq<word>> {
    match l
    case Waiting(words) => [words]
    case Locked(words) => [words]
    case Looping(words, i, _, _) => if i <= |words| then [words[i..]] else []
    case Trying(words, i, _, _, _) => if i <= |words| then [words[i..]] else []
    case _ => []
  }

  /** What is still to be sent, now and in calls to come, is safe from tr on. */
  predicate Plan(tr: Track, l: Local, calls: seq<seq<word>>) {
    && (InLoop(l) ==> l.i <= |l.words|)
    && (!InLoop(l) ==> Guarded(tr)) && Safe(tr, Rest(l) + calls)
  }

  lemma SafeCons(tr: Track, words: seq<word>, calls: seq<seq<word>>)
    ensures Safe(tr, [words] + calls) <==> Guarded(AfterCall(tr, words)) && Safe(AfterCall(tr, words), calls)
  {
    assert ([words] + calls)[1..] == calls;
  }

  lemma NextMessage(tr: Track, words: seq<word>, i: nat)
    requires i <= |words|
    ensures i == |words| || i + Size(words, i) > |words| ==> AfterCall(tr, words[i..]) == tr
    ensures i < |words| && i + Size(words, i) <= |words| ==>
              var n := Size(words, i);
              AfterCall(tr, words[i..]) == AfterCall(Follow(tr, words[i..i + n]), words[i + n..])
  {
    hide Follow;
    if i < |words| && i + Size(words, i) <= |words| {
      var n := Size(words, i);
      assert words[i..][..n] == words[i..i + n] && words[i..][n..] == words[i + n..];
    }
  }

  /** After giving up, the calls to come are still safe. */
  lemma AfterGivingUp(tr: Track, l: Local, calls: seq<seq<word>>)
    requires Plan(tr, l, calls) && Rest(l) != []
    ensures Guarded(CLEAR) && Safe(CLEAR, calls)
  {
    var words := Rest(l)[0];
    assert Rest(l) == [words];
    SafeCons(tr, words, calls);
    SafeBelow(CLEAR, AfterCall(tr, words), calls);
  }

  /** A step of t itself. calls are those to come after the current one. */
  lemma OwnStep(s: State, t: Tid, a: Action, calls: seq<seq<word>>)
    requires Inv(s) && Step(s, t, a).Some? && Plan(OfLog(s.log, t), At(s, t), calls)
    requires a.Call? ==> calls != [] && calls[0] == a.words
    ensures var now := Step(s, t, a).value;
            Plan(OfLog(now.log, t), At(now, t), if a.Call? then calls[1..] else calls)
  {
    hide OfLog, Safe, AfterCall, Follow, Opens, Closes, Inv, Guarded;
    var tr, l, now := OfLog(s.log, t), At(s, t), Step(s, t, a).value;
    match a
    case Call(words) =>
      assert [words] + calls[1..] == calls && [] + calls == calls;
    case Acquire =>
    case Begin(ready) =>
      assert l.words[0..] == l.words;
      if !ready {
        OfLogSnoc(s.log, GaveUp(t), t);
        AfterGivingUp(tr, l, calls);
        assert [] + calls == calls;
      }
    case Advance =>
      NextMessage(tr, l.words, l.i);
      SafeCons(tr, l.words[l.i..], calls);
      assert [] + calls == calls;
    case Attempt(taken) =>
      OwnAttempt(s, t, taken, calls);
    case Settle =>
    case Unlock =>
  }

  lemma OwnAttempt(s: State, t: Tid, taken: bool, calls: seq<seq<word>>)
    requires Step(s, t, Attempt(taken)).Some? && Plan(OfLog(s.log, t), At(s, t), calls)
    ensures var now := Step(s, t, Attempt(taken)).value; Plan(OfLog(now.log, t), At(now, t), calls)
  {
    hide OfLog, Safe, AfterCall, Follow, Opens, Closes, Guarded;
    var tr, l := OfLog(s.log, t), At(s, t);
    var p := l.words[l.i..l.i + Size(l.words, l.i)];
    OfLogSnoc(s.log, GaveUp(t), t);
    OfLogSnoc(s.log, Wrote(t, p), t);
    AfterGivingUp(tr, l, calls);
    NextMessage(tr, l.words, l.i);
    SafeCons(tr, l.words[l.i..], calls);
    SafeCons(Follow(tr, p), l.words[l.i + |p|..], calls);
    assert [] + calls == calls;
  }

  /** A step of another thread leaves t's part alone, and finds it with no key open
      if it touches the transport. */
  lemma OthersStep(s: State, u: Tid, a: Action, t: Tid, calls: seq<seq<word>>)
    requires u != t && Inv(s) && Step(s, u, a).Some? && Plan(OfLog(s.log, t), At(s, t), calls) && Sheltered(s.log, t)
    ensures var now := Step(s, u, a).value;
            At(now, t) == At(s, t) && OfLog(now.log, t) == OfLog(s.log, t) && Sheltered(now.log, t)
  {
    hide OfLog, Safe, AfterCall, Opens, Closes, Size, Exclusive, Progress, Sheltered, OpenBy, After;
    FlagIsOpen(s.log, t);
    var now := Step(s, u, a).value;
    if now.log != s.log {
      OfLogSnoc(s.log, now.log[|s.log|], t);
      assert Owes(At(s, u)) > 0;
      assert s.owner == R.Some(u) && OpenBy(s.log) != R.Some(t);
      assert Owes(At(s, t)) == 0;
    }
  }

  ghost predicate OnPlan(run: seq<(Tid, Action)>, s: State, t: Tid, calls: seq<seq<word>>) {
    var made := Calls(run, t);
    made <= calls && Plan(OfLog(s.log, t), At(s, t), calls[|made|..]) && Sheltered(s.log, t)
  }

  lemma StartOnPlan(t: Tid, calls: seq<seq<word>>)
    requires Safe(CLEAR, calls)
    ensures OnPlan([], INIT, t, calls)
  {
    assert [] + calls[0..] == calls;
  }

  lemma StepOnPlan(run: seq<(Tid, Action)>, s: State, u: Tid, a: Action, t: Tid, calls: seq<seq<word>>)
    requires OnPlan(run, s, t, calls) && Inv(s) && Step(s, u, a).Some? && Calls(run + [(u, a)], t) <= calls
    ensures OnPlan(run + [(u, a)], Step(s, u, a).value, t, calls)
  {
    hide Step, Plan, OfLog, Sheltered, Inv, Safe, Calls, At;
    CallsSnoc(run, u, a, t);
    var made := Calls(run, t);
    if u == t {
      if a.Call? {
        assert Calls(run + [(u, a)], t)[|made|] == a.words;
        assert calls[|made|..][1..] == calls[|made| + 1..] && calls[|made|..][0] == a.words;
      }
      OwnStep(s, t, a, calls[|made|..]);
      OwnLog(s, t, a);
    } else {
      OthersStep(s, u, a, t, calls[|made|..]);
    }
  }

  lemma {:induction false} SafeCallsOnPlan(run: seq<(Tid, Action)>, s: State, t: Tid, calls: seq<seq<word>>)
    requires Reaches(run, s) && Safe(CLEAR, calls) && Calls(run, t) <= calls
    ensures OnPlan(run, s, t, calls)
    decreases |run|
  {
    hide Step, OnPlan, Inv, Safe, Calls;
    if run == [] {
      StartOnPlan(t, calls);
    } else {
      var init := run[..|run| - 1];
      var (u, a) := run[|run| - 1];
      assert run == init + [(u, a)];
      CallsSnoc(init, u, a, t);
      assert Calls(init, t) <= Calls(run, t);
      var s0 :| Reaches(init, s0) && Step(s0, u, a) == R.Some(s);
      SafeCallsOnPlan(init, s0, t, calls);
      ReachableInv(init, s0);
      StepOnPlan(init, s0, u, a, t, calls);
    }
  }

  lemma OwnLog(s: State, t: Tid, a: Action)
    requires Step(s, t, a).Some? && Sheltered(s.log, t)
    ensures Sheltered(Step(s, t, a).value.log, t)
  {
    hide Sheltered, OfLog, Opens, Closes, Size;
    var now := Step(s, t, a).value;
    if now.log != s.log {
      OfLogSnoc(s.log, now.log[|s.log|], t);
    }
  }

  // ---- An unsafe call exposes a run ----------------------------------------------------

  /** All calls made by t alone, with a transport that takes everything. */
  lemma {:induction false} MakeCalls(t: Tid, calls: seq<seq<word>>) returns (run: seq<(Tid, Action)>, s: State)
    ensures Reaches(run, s) && Calls(run, t) == calls
    ensures Unhindered(s, t) && OfLog(s.log, t) == AfterCalls(CLEAR, calls) && s.held == OfLog(s.log, t).flag
    ensures forall u: Tid :: u != t ==> At(s, u).Outside?
    decreases |calls|
  {
    if calls == [] {
      InitReached();
      run, s := [], INIT;
    } else {
      hide Reaches, OfLog, AfterCall, Calls, Unhindered, At;
      var k := |calls| - 1;
      var run0, s0 := MakeCalls(t, calls[..k]);
      run, s := OneCall(run0, s0, t, calls[k]);
      assert calls[..k] + [calls[k]] == calls;
    }
  }

  function AfterCalls(tr: Track, calls: seq<seq<word>>): Track {
    if calls == [] then tr else AfterCall(AfterCalls(tr, calls[..|calls| - 1]), calls[|calls| - 1])
  }

  lemma OneCall(run: seq<(Tid, Action)>, s: State, t: Tid, words: seq<word>) returns (more: seq<(Tid, Action)>, now: State)
    requires Reaches(run, s) && Unhindered(s, t) && s.held == OfLog(s.log, t).flag
    ensures Reaches(more, now) && Calls(more, t) == Calls(run, t) + [words]
    ensures Unhindered(now, t) && now.held == OfLog(now.log, t).flag
    ensures OfLog(now.log, t) == AfterCall(OfLog(s.log, t), words)
    ensures forall u: Tid :: u != t ==> At(now, u) == At(s, u)
  {
    hide Reaches, OfLog, AfterCall, Calls, Unhindered, At;
    assert words[0..] == words;
    more, now := EnterOnce(run, s, t, words);
    more, now := SendRest(more, now, t);
  }

  lemma EnterOnce(run: seq<(Tid, Action)>, s: State, t: Tid, words: seq<word>) returns (more: seq<(Tid, Action)>, now: State)
    requires Reaches(run, s) && Unhindered(s, t) && s.held == OfLog(s.log, t).flag
    ensures Reaches(more, now) && Calls(more, t) == Calls(run, t) + [words]
    ensures now.owner == R.Some(t) && now.count == (if now.held then 2 else 1) && now.log == s.log
    ensures At(now, t) == Looping(words, 0, OfLog(s.log, t).flag, |s.log|)
    ensures forall u: Tid :: u != t ==> At(now, u) == At(s, u)
  {
    hide Reaches, Calls, OfLog;
    more, now := Enter(run, s, t, words);
    CallsSnoc(run, t, Call(words), t);
    CallsSnoc(run + [(t, Call(words))], t, Acquire, t);
    CallsSnoc(run + [(t, Call(words)), (t, Acquire)], t, Begin(true), t);
    assert run + [(t, Call(words))] + [(t, Acquire)] == run + [(t, Call(words)), (t, Acquire)];
    assert run + [(t, Call(words)), (t, Acquire)] + [(t, Begin(true))] == more;
  }

  lemma {:induction false} NoMoreCalls(run: seq<(Tid, Action)>, more: seq<(Tid, Action)>, t: Tid)
    requires run <= more && forall k :: |run| <= k < |more| ==> !more[k].1.Call? || more[k].0 != t
    ensures Calls(more, t) == Calls(run, t)
    decreases |more|
  {
    if more != run {
      var init := more[..|more| - 1];
      assert more == init + [more[|more| - 1]];
      CallsSnoc(init, more[|more| - 1].0, more[|more| - 1].1, t);
      NoMoreCalls(run, init, t);
    }
  }

  lemma {:induction false} SendRest(run: seq<(Tid, Action)>, s: State, t: Tid) returns (more: seq<(Tid, Action)>, now: State)
    requires Reaches(run, s) && At(s, t).Looping? && At(s, t).i <= |At(s, t).words|
    requires s.owner == R.Some(t) && s.count == (if s.held then 2 else 1) && At(s, t).runOpen == OfLog(s.log, t).flag
    ensures Reaches(more, now) && Calls(more, t) == Calls(run, t)
    ensures Unhindered(now, t) && now.held == OfLog(now.log, t).flag
    ensures OfLog(now.log, t) == AfterCall(OfLog(s.log, t), At(s, t).words[At(s, t).i..])
    ensures forall u: Tid :: u != t ==> At(now, u) == At(s, u)
    decreases |At(s, t).words| - At(s, t).i
  {
    hide Reaches, OfLog, AfterCall, Opens, Closes, Calls, At, KeyOf;
    var l := At(s, t);
    NextMessage(OfLog(s.log, t), l.words, l.i);
    if l.i < |l.words| && l.i + Size(l.words, l.i) <= |l.words| {
      var p := l.words[l.i..l.i + Size(l.words, l.i)];
      SizePositive(l.words[l.i..]);
      var run1, s1 := WriteNext(run, s, t, p);
      OfLogSnoc(s.log, Wrote(t, p), t);
      NoMoreCalls(run, run1, t);
      more, now := SendRest(run1, s1, t);
    } else {
      more, now := Leave(run, s, t);
      NoMoreCalls(run, more, t);
    }
  }

  lemma AfterCallsCons(tr: Track, calls: seq<seq<word>>)
    requires calls != []
    ensures AfterCalls(tr, calls) == AfterCalls(AfterCall(tr, calls[0]), calls[1..])
  {
    hide AfterCall;
    if |calls| > 1 {
      var k := |calls| - 1;
      assert calls[..k][1..] == calls[1..][..k - 1] && calls[..k][0] == calls[0];
      AfterCallsCons(tr, calls[..k]);
    } else {
      assert calls[..0] == [] && calls[1..] == [];
    }
  }

  /** The first call that ends unguarded. */
  lemma {:induction false} FirstUnsafe(tr: Track, calls: seq<seq<word>>) returns (k: nat)
    requires !Safe(tr, calls)
    ensures k < |calls| && !Guarded(AfterCalls(tr, calls[..k + 1]))
    decreases |calls|
  {
    hide AfterCall, Guarded, AfterCalls;
    if !Guarded(AfterCall(tr, calls[0])) {
      k := 0;
      assert calls[..1][1..] == [];
      AfterCallsCons(tr, calls[..1]);
      assert AfterCalls(AfterCall(tr, calls[0]), []) == AfterCall(tr, calls[0]) by { NoCalls(AfterCall(tr, calls[0])); }
    } else {
      var j := FirstUnsafe(AfterCall(tr, calls[0]), calls[1..]);
      k := j + 1;
      assert calls[..k + 1][1..] == calls[1..][..j + 1] && calls[..k + 1][0] == calls[0];
      AfterCallsCons(tr, calls[..k + 1]);
    }
  }

  lemma NoCalls(tr: Track)
    ensures AfterCalls(tr, []) == tr
  {
  }

  /** If some call is unsafe, there is an interleaving in which the thread, with all
      its packets taken, has a run open while another thread's packet is written. */
  lemma UnsafeExposes(t: Tid, calls: seq<seq<word>>) returns (run: seq<(Tid, Action)>, s: State)
    requires !Safe(CLEAR, calls)
    ensures Reaches(run, s) && Calls(run, t) <= calls
    ensures s.log != [] && s.log[|s.log| - 1] == Wrote(t + 1, NOTE) && OfLog(s.log[..|s.log| - 1], t).keys != {}
    ensures !Sheltered(s.log, t)
  {
    hide Reaches, OfLog, Calls, Opens, Closes, Size, AfterCalls, Safe;
    var k := FirstUnsafe(CLEAR, calls);
    var u := t + 1;
    var run0, s0 := MakeCalls(t, calls[..k + 1]);
    var run1, s1 := Enter(run0, s0, u, NOTE);
    NoMoreCalls(run0, run1, t);
    OneWordNote();
    run, s := WriteNext(run1, s1, u, NOTE);
    NoMoreCalls(run1, run, t);
    assert s.log[..|s.log| - 1] == s0.log;
  }

  lemma OneWordNote()
    ensures Size(NOTE, 0) == 1 && NOTE[0..1] == NOTE
  {
    Kinds();
  }

  // ---- Exactly the safe calls ------------------------------------------------------------

  /** A thread has the runs it opens to itself in every interleaving, from the START
      of a key to its END or COMPLETE or to giving up, if and only if every one of
      its calls ends with no key open or with a START as the last packet that opened
      or closed a run. */
  lemma ProtectedIff(t: Tid, calls: seq<seq<word>>)
    ensures Protects(t, calls) <==> Safe(CLEAR, calls)
  {
    hide Safe, Plan, Sheltered, Reaches, Calls;
    if Safe(CLEAR, calls) {
      forall run, s | Reaches(run, s) && Calls(run, t) <= calls
        ensures Sheltered(s.log, t)
      {
        SafeCallsOnPlan(run, s, t, calls);
      }
    } else {
      var run, s := UnsafeExposes(t, calls);
      assert !Sheltered(s.log, t);
    }
  }

  /** e is thread t ending the run of a key, or giving up. */
  predicate EndsRun(e: Entry, t: Tid, key: Key) {
    e.tid == t && (e.GaveUp? || (Closes(e.packet) && KeyOf(e.packet) == key))
  }

  lemma {:induction false} KeyStaysOpen(log: seq<Entry>, a: nat, b: nat)
    requires a < b <= |log| && log[a].Wrote? && Opens(log[a].packet)
    requires forall k :: a < k < b ==> !EndsRun(log[k], log[a].tid, KeyOf(log[a].packet))
    ensures KeyOf(log[a].packet) in OfLog(log[..b], log[a].tid).keys
    decreases b
  {
    hide OfLog, Mt, Form, KeyOf;
    var e := log[b - 1];
    assert log[..b] == log[..b - 1] + [e];
    OfLogSnoc(log[..b - 1], e, log[a].tid);
    if a < b - 1 {
      KeyStaysOpen(log, a, b - 1);
      assert !EndsRun(e, log[a].tid, KeyOf(log[a].packet));
    }
  }

  /** In every interleaving, if a thread's calls are safe, from the START of a key
      until that thread ends that key or gives up, only that thread writes. */
  lemma KeyRunExclusive(run: seq<(Tid, Action)>, s: State, a: nat, b: nat)
    requires Reaches(run, s) && a < b < |s.log|
    requires s.log[a].Wrote? && Opens(s.log[a].packet)
    requires Safe(CLEAR, Calls(run, s.log[a].tid))
    requires forall k :: a < k < b ==> !EndsRun(s.log[k], s.log[a].tid, KeyOf(s.log[a].packet))
    ensures s.log[b].tid == s.log[a].tid
  {
    hide Reaches, Safe, Calls, Plan, Opens, OfLog, KeyOf, EndsRun;
    SafeCallsOnPlan(run, s, s.log[a].tid, Calls(run, s.log[a].tid));
    KeyStaysOpen(s.log, a, b);
  }

  const END_GROUP_0: seq<word> := [0x3031_0700, 0]

  /** Within one call anything goes; across calls another group's COMPLETE does not. */
  lemma MixingGroups()
    ensures Safe(CLEAR, [START_GROUP_0 + COMPLETE_GROUP_1 + END_GROUP_0])
    ensures !Safe(CLEAR, [START_GROUP_0 + COMPLETE_GROUP_1, END_GROUP_0])
  {
    hide Opens, Closes, Safe, KeyOf;
    Kinds();
    EndKind();
    var all, both := START_GROUP_0 + COMPLETE_GROUP_1 + END_GROUP_0, START_GROUP_0 + COMPLETE_GROUP_1;
    FirstOf(CLEAR, START_GROUP_0, COMPLETE_GROUP_1 + END_GROUP_0);
    FirstOf(CLEAR, START_GROUP_0, COMPLETE_GROUP_1);
    var one := Follow(CLEAR, START_GROUP_0);
    FirstOf(one, COMPLETE_GROUP_1, END_GROUP_0);
    FirstOf(one, COMPLETE_GROUP_1, []);
    FirstOf(Follow(one, COMPLETE_GROUP_1), END_GROUP_0, []);
    assert all == START_GROUP_0 + (COMPLETE_GROUP_1 + END_GROUP_0);
    assert END_GROUP_0 + [] == END_GROUP_0 && COMPLETE_GROUP_1 + [] == COMPLETE_GROUP_1;
    SafeCons(CLEAR, all, []);
    SafeCons(CLEAR, both, [END_GROUP_0]);
    assert [all] + [] == [all] && [both] + [END_GROUP_0] == [both, END_GROUP_0];
    assert Safe(AfterCall(CLEAR, all), []) by { NothingToCall(AfterCall(CLEAR, all)); }
    assert KeyOf(START_GROUP_0) in AfterCall(CLEAR, both).keys;
  }

  lemma NothingToCall(tr: Track)
    ensures Safe(tr, [])
  {
  }

  lemma FirstOf(tr: Track, p: seq<word>, rest: seq<word>)
    requires |p| == 2 && Size(p, 0) == 2
    ensures AfterCall(tr, p + rest) == AfterCall(Follow(tr, p), rest) && AfterCall(tr, []) == tr
  {
    hide Follow;
    assert (p + rest)[..2] == p && (p + rest)[2..] == rest;
  }

  lemma EndKind()
    ensures !Opens(END_GROUP_0) && Closes(END_GROUP_0) && Size(END_GROUP_0, 0) == 2
    ensures Size(START_GROUP_0, 0) == 2 && Size(COMPLETE_GROUP_1, 0) == 2
    ensures IsSysEx(START_GROUP_0) && IsSysEx(COMPLETE_GROUP_1)
    ensures KeyOf(END_GROUP_0) == KeyOf(START_GROUP_0) != KeyOf(COMPLETE_GROUP_1)
  {
  }
}
