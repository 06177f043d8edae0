/** How long a MUID is held and used (src/midi2_ci.c:131-148, 752-807): when a
    message changes it, whether it stays usable, and whether a replaced one is
    ever used again. */
module MuidLifecycle {
  import opened Words
  import opened Reassembly
  import opened CiMessage
  import opened Responder

  // ---- When the MUID changes ---------------------------------------------------

  lemma DrawsGrow(rng: Option<Rng>, live: Live)
    requires rng.Some?
    ensures NewMuid(rng, live).draws > live.draws
  {
    UsableWhen(rng.value, live.draws);
  }

  /** d makes us redraw: it comes from our MUID, or tells its holder to give it up. */
  predicate Redraws(s: Setup, live: Live, d: bytes) {
    IsCi(d) && (Collides(s, live, d) || Invalidates(s, live, d))
  }

  /** d comes from our MUID and names the one we then draw: a second redraw. */
  predicate RedrawsTwice(s: Setup, live: Live, d: bytes) {
    IsCi(d) && Collides(s, live, d) && Invalidates(s, NewMuid(s.rng, live), d)
  }

  /** How many numbers were drawn before the last redraw that d causes. */
  function LastRedraw(s: Setup, live: Live, d: bytes): nat {
    if RedrawsTwice(s, live, d) then NewMuid(s.rng, live).draws else live.draws
  }

  /** The state after any message. */
  lemma AfterMessage(s: Setup, live: Live, d: bytes)
    ensures Process(s, live, d).live == if Redraws(s, live, d) then Redraw(s.rng.value, LastRedraw(s, live, d)) else live
  {
    hide Handle, Redraw, ReadMuid;
  }

  /** By the bytes of a message: numbers are drawn if and only if there is a generator
      and a MIDI-CI message has our MUID as its source, or is an Invalidate (0x7E) of at
      least 17 bytes that names it. Else the MUID stays. */
  lemma DrawsIff(s: Setup, live: Live, d: bytes)
    ensures var now := Process(s, live, d).live;
            var named := |d| >= 13 && d[0] == 0x7E && d[2] == 0x0D
                         && (ReadMuid(d, 5) == live.muid || (d[3] == 0x7E && |d| >= 17 && ReadMuid(d, 13) == live.muid));
            && (s.rng.Some? && named ==> now.draws > live.draws)
            && (s.rng == None || !named ==> now == live)
  {
    hide Handle, NewMuid, ReadMuid;
    if s.rng.Some? {
      DrawsGrow(s.rng, live);
      DrawsGrow(s.rng, NewMuid(s.rng, live));
    }
  }

  /** An Invalidate is never answered but by announcing a new MUID: not if it names
      somebody else, is too short, or there is no generator. */
  lemma InvalidateIgnored(s: Setup, live: Live, d: bytes)
    requires |d| >= 13 && d[0] == 0x7E && d[2] == 0x0D && d[3] == 0x7E
    requires s.rng == None || (ReadMuid(d, 5) != live.muid && (|d| < 17 || ReadMuid(d, 13) != live.muid))
    ensures Process(s, live, d) == Result(live, [], true, [])
  {
    hide Handle, NewMuid, ReadMuid;
  }

  /** One that names us, from another: one redraw, and a Discovery if there is a sink. */
  lemma InvalidateHonoured(s: Setup, live: Live, d: bytes)
    requires |d| >= 17 && d[0] == 0x7E && d[2] == 0x0D && d[3] == 0x7E
    requires s.rng.Some? && ReadMuid(d, 5) != live.muid && ReadMuid(d, 13) == live.muid
    ensures var now := Redraw(s.rng.value, live.draws);
            var r := Process(s, live, d);
            && r.live == now && r.handled && r.calls == []
            && (!s.hasSink ==> r.frames == [])
            && (s.hasSink ==> |r.frames| == 1 && IsCi(r.frames[0]) && |r.frames[0]| == 30
                              && HeaderOf(r.frames[0]) == Header(0x7F, 0x70, 2, Low28(now.muid), 0xFFF_FFFF))
  {
    hide Handle, Redraw, ReadMuid, Identity, HeaderBytes, HeaderOf, Low28, IsCi;
    assert IsCi(d) by { CiBytes(d); }
    var now := Redraw(s.rng.value, live.draws);
    NarrowStays(0xFFF_FFFF);
    HeaderBack(Header(0x7F, DISCOVERY, VERSION_2, now.muid, BROADCAST), Identity(s) + [0]);
    assert s.hasSink ==> Process(s, live, d).frames == [DiscoveryFrame(s, now.muid)];
  }

  lemma CiBytes(d: bytes)
    ensures IsCi(d) <==> |d| >= 13 && d[0] == 0x7E && d[2] == 0x0D
  {
  }

  /** A collision that is not announced: the message is then answered as if the MUID
      drawn had been ours all along. */
  lemma CollisionUnannounced(s: Setup, live: Live, d: bytes)
    requires |d| >= 13 && d[0] == 0x7E && d[2] == 0x0D && d[3] != 0x7E
    requires s.rng.Some? && ReadMuid(d, 5) == live.muid && !s.autoInvalidate
    ensures var now := Redraw(s.rng.value, live.draws);
            Process(s, live, d) == Process(s.(rng := None), now, d)
  {
    hide Redraw, ReadMuid;
    var silent := s.(rng := None);
    assert Handle(s, Redraw(s.rng.value, live.draws).muid, d) == Handle(silent, Redraw(s.rng.value, live.draws).muid, d) by {
      SameAnswers(s, silent, Redraw(s.rng.value, live.draws).muid, d);
    }
  }

  lemma SilentWithoutSink(s: Setup, live: Live, d: bytes)
    requires !s.hasSink
    ensures Process(s, live, d).frames == []
  {
    hide Handle, NewMuid, ReadMuid;
  }

  /** A message changes the MUID if and only if it makes us redraw and, of the next
      nine numbers, the first that makes no reserved MUID (if there is one) makes
      another than the one we hold. */
  lemma MuidChangesIff(s: Setup, live: Live, d: bytes)
    requires Usable(live.muid)
    ensures Process(s, live, d).live.muid != live.muid
            <==> Redraws(s, live, d)
                 && var t := LastRedraw(s, live, d);
                    var i := FirstUsable(s.rng.value, t, t + 9);
                    i == t + 9 || Draw(s.rng.value, i) != live.muid
  {
    hide Process, LastRedraw, FirstUsable, Redraws;
    AfterMessage(s, live, d);
  }

  /** The MUID given up is not excluded: a generator that makes it again keeps it,
      and the collision is announced by an Invalidate of that MUID, sent from it. */
  lemma RedrawMayKeep(s: Setup, d: bytes)
    requires s.rng == Some(_ => 5) && s.hasSink && s.autoInvalidate
    requires IsCi(d) && ReadMuid(d, 5) == 5 && d[3] != INVALIDATE_MUID
    ensures var r := Process(s, Live(5, 0), d);
            && r.live == Live(5, 1) && |r.frames| >= 2 && IsCi(r.frames[0]) && |r.frames[0]| == 17
            && HeaderOf(r.frames[0]) == Header(0x7F, 0x7E, 2, 5, 0xFFF_FFFF)
            && ReadMuid(r.frames[0], 13) == 5
  {
    hide Handle, ReadMuid, HeaderOf, WriteMuid, IsCi, HeaderBytes, DiscoveryFrame;
    var fives: Rng := s.rng.value;
    assert Draw(fives, 0) == 5;
    assert NewMuid(s.rng, Live(5, 0)) == Live(5, 1);
    InvalidateParses(5, 5);
  }

  /** An Invalidate frame, ours or a peer's: from muid, telling target's holder to
      give it up. */
  lemma InvalidateParses(muid: nat, target: nat)
    ensures var d := InvalidateFrame(muid, target);
            && IsCi(d) && |d| == 17 && d[3] == INVALIDATE_MUID
            && HeaderOf(d) == Header(0x7F, INVALIDATE_MUID, VERSION_2, Low28(muid), BROADCAST)
            && ReadMuid(d, 5) == Low28(muid) && ReadMuid(d, 13) == Low28(target)
  {
    hide WriteMuid, ReadMuid, HeaderBytes, IsCi, Low28;
    var h := Header(0x7F, INVALIDATE_MUID, VERSION_2, muid, BROADCAST);
    var d := HeaderBytes(h) + WriteMuid(target);
    assert Low28(BROADCAST) == BROADCAST by { NarrowStays(BROADCAST); }
    HeaderBack(h, WriteMuid(target));
    assert HeaderOf(d).subId == INVALIDATE_MUID && HeaderOf(d).src == Low28(muid);
    assert d[13..17] == WriteMuid(target);
    ReadMuidBack(d, 13, target);
  }

  /** Whatever message comes next leaves the MUID usable, if and only if the next
      redraw and the one after it do: a peer can force both with one message. */
  lemma UsableNextIff(s: Setup, live: Live)
    requires Usable(live.muid) && s.rng.Some?
    ensures var first := Redraw(s.rng.value, live.draws);
            var second := Redraw(s.rng.value, first.draws);
            (forall d: bytes :: Usable(Process(s, live, d).live.muid)) <==> Usable(first.muid) && Usable(second.muid)
  {
    hide Process, Redraw, Usable, ReadMuid, IsCi, InvalidateFrame, Low28;
    var first := Redraw(s.rng.value, live.draws);
    var second := Redraw(s.rng.value, first.draws);
    NarrowStays(live.muid);
    NarrowStays(first.muid);
    var own, both := InvalidateFrame(live.muid, 0), InvalidateFrame(live.muid, first.muid);
    InvalidateParses(live.muid, 0);
    InvalidateParses(live.muid, first.muid);
    AfterMessage(s, live, own);
    AfterMessage(s, live, both);
    assert Low28(0) == 0 by { NarrowStays(0); }
    FirstNotZero(s.rng.value, live.draws);
    forall d: bytes | Usable(first.muid) && Usable(second.muid)
      ensures Usable(Process(s, live, d).live.muid)
    {
      AfterMessage(s, live, d);
    }
  }

  lemma FirstNotZero(rng: Rng, t: nat)
    ensures Redraw(rng, t).muid != 0
  {
  }

  // ---- Who frames are from -------------------------------------------------------

  /** One message: the frames of the collision check carry the MUID it leaves, all
      others the MUID held at the end. */
  lemma FramesCarryMuid(s: Setup, live: Live, d: bytes)
    requires IsCi(d)
    ensures var (now, first) := Collide(s, live, d);
            var r := Dispatch(s, now, d);
            && Process(s, live, d).frames == first + r.frames && Process(s, live, d).live == r.live
            && AllSentBy(first, now.muid) && AllSentBy(r.frames, r.live.muid)
  {
    hide Handle, SentBy, NewMuid, Common, Identity, WriteMuid, ReadMuid, InvalidateFrame, DiscoveryFrame;
    var now := Collide(s, live, d).0;
    OwnFramesSource(s, now.muid, live.muid);
    OwnFramesSource(s, NewMuid(s.rng, now).muid, now.muid);
    HandleSource(s, now.muid, d);
  }

  lemma OwnFramesSource(s: Setup, muid: nat, was: nat)
    ensures SentBy(InvalidateFrame(muid, was), muid) && SentBy(DiscoveryFrame(s, muid), muid)
  {
    hide Common, SentBy, Identity, WriteMuid;
    CommonSource(muid, 0x7F, INVALIDATE_MUID, BROADCAST, WriteMuid(was), 0);
    CommonSource(muid, 0x7F, DISCOVERY, BROADCAST, Identity(s) + [0], 0);
  }

  /** A collision announces itself first: an Invalidate naming the old MUID, then
      Discovery, both broadcast from the MUID drawn, before any reply. It may be the
      old MUID again (MuidChangesIff, RedrawMayKeep). */
  lemma CollisionAnnounced(s: Setup, live: Live, d: bytes)
    requires IsCi(d) && Usable(live.muid)
    requires Collides(s, live, d) && s.hasSink && s.autoInvalidate
    ensures var frames := Process(s, live, d).frames;
            var now := Redraw(s.rng.value, live.draws).muid;
            && |frames| >= 2 && IsCi(frames[0]) && IsCi(frames[1]) && |frames[0]| == 17
            && HeaderOf(frames[0]) == Header(0x7F, 0x7E, 2, Low28(now), 0xFFF_FFFF)
            && ReadMuid(frames[0], 13) == live.muid
            && HeaderOf(frames[1]) == Header(0x7F, 0x70, 2, Low28(now), 0xFFF_FFFF)
            && AllSentBy(frames[2..], Process(s, live, d).live.muid)
  {
    hide Handle, SentBy, Redraw, HeaderBytes, HeaderOf, IsCi, ReadMuid, Identity, WriteMuid, AllSentBy, InvalidateFrame, Low28;
    var (now, first) := Collide(s, live, d);
    var r := Dispatch(s, now, d);
    FramesCarryMuid(s, live, d);
    assert (first + r.frames)[2..] == r.frames;
    InvalidateParses(now.muid, live.muid);
    NarrowStays(live.muid);
    NarrowStays(BROADCAST);
    HeaderBack(Header(0x7F, DISCOVERY, VERSION_2, now.muid, BROADCAST), Identity(s) + [0]);
  }

  // ---- Runs -----------------------------------------------------------------

  function After(s: Setup, live: Live, ds: seq<bytes>): Live
    decreases |ds|
  {
    if ds == [] then live else After(s, Process(s, live, ds[0]).live, ds[1..])
  }

  /** Everything sent while the messages ds come in. */
  function Sent(s: Setup, live: Live, ds: seq<bytes>): seq<bytes>
    decreases |ds|
  {
    if ds == [] then []
    else
      var r := Process(s, live, ds[0]);
      r.frames + Sent(s, r.live, ds[1..])
  }

  lemma RunCons(s: Setup, live: Live, d: bytes, ds: seq<bytes>)
    ensures After(s, live, [d] + ds) == After(s, Process(s, live, d).live, ds)
    ensures Sent(s, live, [d] + ds) == Process(s, live, d).frames + Sent(s, Process(s, live, d).live, ds)
    ensures After(s, live, []) == live && Sent(s, live, []) == []
  {
    hide Process;
    assert ([d] + ds)[1..] == ds;
  }

  lemma {:induction false} RunSnoc(s: Setup, live: Live, ds: seq<bytes>, d: bytes)
    ensures After(s, live, ds + [d]) == Process(s, After(s, live, ds), d).live
    ensures Sent(s, live, ds + [d]) == Sent(s, live, ds) + Process(s, After(s, live, ds), d).frames
    decreases |ds|
  {
    hide Process;
    if ds == [] {
      assert ds + [d] == [d] && [d][1..] == [];
    } else {
      assert (ds + [d])[1..] == ds[1..] + [d];
      RunSnoc(s, Process(s, live, ds[0]).live, ds[1..], d);
    }
  }

  /** Every redraw from the t-th number on finds a usable MUID: no nine numbers in a
      row all make reserved ones. */
  ghost predicate Fair(rng: Option<Rng>, t: nat) {
    rng.Some? ==> forall k: nat :: k >= t ==> Usable(Redraw(rng.value, k).muid)
  }

  /** Redraws from the t-th number on can come to one from the k-th on: none before
      it fails. (After one that fails there are no more.) */
  ghost predicate Reached(rng: Rng, t: nat, k: nat) {
    t <= k && forall j: nat :: t <= j < k ==> Usable(Redraw(rng, j).muid)
  }

  /** A redraw leads on to the numbers behind the one it used. */
  lemma ReachedOn(rng: Rng, t: nat, k: nat)
    requires Usable(Redraw(rng, t).muid)
    ensures Reached(rng, Redraw(rng, t).draws, k) ==> Reached(rng, t, k)
  {
    var i := Redraw(rng, t).draws - 1;
    assert !Reserved(Draw(rng, i));
    forall j: nat | t <= j <= i
      ensures Usable(Redraw(rng, j).muid)
    {
      UsableWhen(rng, j);
    }
  }

  /** A redraw reached is the next one, or lies behind the number the next one uses. */
  lemma NextOrLater(rng: Rng, t: nat, k: nat)
    requires Reached(rng, t, k)
    ensures var first := Redraw(rng, t);
            || Redraw(rng, k).muid == first.muid
            || (Usable(first.muid) && t < first.draws <= k && Reached(rng, first.draws, k))
  {
    var i := FirstUsable(rng, t, t + 9);
    if k > t {
      assert Usable(Redraw(rng, t).muid);
      if i >= k {
        var r := FirstUsable(rng, k, k + 9);
        assert r == i;
      }
    }
  }

  /** A peer, using MUID 0 itself, tells us to give up the MUID we hold. */
  lemma PeerInvalidates(s: Setup, live: Live)
    requires s.rng.Some? && Usable(live.muid)
    ensures Process(s, live, InvalidateFrame(0, live.muid)).live == Redraw(s.rng.value, live.draws)
  {
    hide Process, Redraw, ReadMuid, IsCi, InvalidateFrame, Low28;
    InvalidateParses(0, live.muid);
    NarrowStays(live.muid);
    NarrowStays(0);
    AfterMessage(s, live, InvalidateFrame(0, live.muid));
  }

  /** From the MUID drawn with the t-th number on, Invalidates lead to the MUID of
      any redraw that can be reached. */
  lemma {:induction false} Reach(s: Setup, t: nat, k: nat) returns (ds: seq<bytes>)
    requires s.rng.Some? && Reached(s.rng.value, t, k)
    ensures After(s, Redraw(s.rng.value, t), ds).muid == Redraw(s.rng.value, k).muid
    decreases k - t
  {
    hide Process, Redraw, Usable, Reached, InvalidateFrame;
    var first := Redraw(s.rng.value, t);
    NextOrLater(s.rng.value, t, k);
    if Redraw(s.rng.value, k).muid == first.muid {
      ds := [];
      RunCons(s, first, [], []);
    } else {
      var rest := Reach(s, first.draws, k);
      var d := InvalidateFrame(0, first.muid);
      PeerInvalidates(s, first);
      RunCons(s, first, d, rest);
      ds := [d] + rest;
    }
  }

  // ---- The MUID stays usable --------------------------------------------------------

  lemma StepUsable(s: Setup, live: Live, d: bytes)
    requires Usable(live.muid) && Fair(s.rng, live.draws)
    ensures var now := Process(s, live, d).live; Usable(now.muid) && now.draws >= live.draws
  {
    hide Process, Usable;
    AfterMessage(s, live, d);
    if s.rng.Some? {
      DrawsGrow(s.rng, live);
      DrawsGrow(s.rng, Live(live.muid, LastRedraw(s, live, d)));
    }
  }

  lemma {:induction false} FairUsable(s: Setup, live: Live, ds: seq<bytes>)
    requires Usable(live.muid) && Fair(s.rng, live.draws)
    ensures Usable(After(s, live, ds).muid)
    decreases |ds|
  {
    hide Process, Usable, Redraw;
    if ds != [] {
      StepUsable(s, live, ds[0]);
      FairUsable(s, Process(s, live, ds[0]).live, ds[1..]);
    }
  }

  /** The first redraw from the t-th number on that fails. */
  lemma FirstFailure(rng: Rng, t: nat, k: nat) returns (j: nat)
    requires t <= k && !Usable(Redraw(rng, k).muid)
    ensures Reached(rng, t, j) && !Usable(Redraw(rng, j).muid)
    decreases k - t
  {
    hide Usable, Redraw;
    if !Usable(Redraw(rng, t).muid) {
      j := t;
    } else {
      j := FirstFailure(rng, t + 1, k);
    }
  }

  lemma UsableNumbers(m: nat)
    ensures Usable(m) <==> 0 < m < 0xFFF_FFFF
  {
  }

  /** From a usable seed, the MUID is never reserved nor wider than 28 bits, whatever
      messages come, if and only if the generator is fair from now on. */
  lemma MuidStaysUsable(s: Setup, live: Live)
    requires Usable(live.muid)
    ensures (forall ds: seq<bytes> :: 0 < After(s, live, ds).muid < 0xFFF_FFFF) <==> Fair(s.rng, live.draws)
  {
    hide Process, Usable, Redraw, Reached, After, InvalidateFrame;
    if Fair(s.rng, live.draws) {
      forall ds: seq<bytes>
        ensures 0 < After(s, live, ds).muid < 0xFFF_FFFF
      {
        FairUsable(s, live, ds);
        UsableNumbers(After(s, live, ds).muid);
      }
    } else {
      var k: nat :| k >= live.draws && !Usable(Redraw(s.rng.value, k).muid);
      var j := FirstFailure(s.rng.value, live.draws, k);
      var ds := Reach(s, live.draws, j);
      PeerInvalidates(s, live);
      RunCons(s, live, InvalidateFrame(0, live.muid), ds);
      UsableNumbers(After(s, live, [InvalidateFrame(0, live.muid)] + ds).muid);
    }
  }

  // ---- A replaced MUID ---------------------------------------------------------------

  /** No frame of frames is from m. */
  predicate NoneSentBy(frames: seq<bytes>, m: nat) {
    forall f :: f in frames ==> IsCi(f) && HeaderOf(f).src != m
  }

  /** No redraw that can be reached from the t-th number on makes a MUID sent as m. */
  ghost predicate NeverMade(rng: Option<Rng>, t: nat, m: nat) {
    rng.Some? ==> forall k: nat :: Reached(rng.value, t, k) ==> Low28(Redraw(rng.value, k).muid) != m
  }

  /** For a fair generator that is to say that it never makes m. */
  lemma NeverMadeIfFair(rng: Rng, t: nat, m: nat)
    requires Fair(Some(rng), t) && Usable(m)
    ensures NeverMade(Some(rng), t, m) <==> forall i: nat :: i >= t ==> Draw(rng, i) != m
  {
    hide FirstUsable, Low28;
    if NeverMade(Some(rng), t, m) {
      forall i: nat | i >= t
        ensures Draw(rng, i) != m
      {
        assert Reached(rng, t, i);
        if Draw(rng, i) == m { DrawnFirst(rng, i, m); }
      }
    } else {
      var k: nat :| Reached(rng, t, k) && Low28(Redraw(rng, k).muid) == m;
      MadeByDraw(rng, k, m);
    }
  }

  lemma DrawnFirst(rng: Rng, i: nat, m: nat)
    requires Usable(m) && Draw(rng, i) == m
    ensures Low28(Redraw(rng, i).muid) == m
  {
  }

  lemma MadeByDraw(rng: Rng, k: nat, m: nat)
    requires Usable(Redraw(rng, k).muid) && Low28(Redraw(rng, k).muid) == m
    ensures exists i: nat :: i >= k && Draw(rng, i) == m
  {
    assert Draw(rng, FirstUsable(rng, k, k + 9)) == m;
  }

  /** m is not what we sign with, nor will be: any redraw makes another, or none
      can happen because no peer can name the MUID we hold. */
  ghost predicate Quiet(s: Setup, live: Live, m: nat) {
    Low28(live.muid) != m && (live.muid >= 0x1000_0000 || NeverMade(s.rng, live.draws, m))
  }

  lemma RedrawQuiet(s: Setup, live: Live, m: nat)
    requires s.rng.Some? && NeverMade(s.rng, live.draws, m)
    ensures Quiet(s, NewMuid(s.rng, live), m)
  {
    hide Redraw;
    var rng := s.rng.value;
    var now := Redraw(rng, live.draws);
    assert Reached(rng, live.draws, live.draws);
    if Usable(now.muid) {
      forall k: nat | Reached(rng, now.draws, k)
        ensures Low28(Redraw(rng, k).muid) != m
      {
        ReachedOn(rng, live.draws, k);
      }
    } else {
      FailsWide(rng, live.draws);
    }
  }

  lemma FailsWide(rng: Rng, t: nat)
    ensures !Usable(Redraw(rng, t).muid) ==> Redraw(rng, t).muid >= 0x1000_0000
  {
  }

  /** The collision check keeps quiet, and the dispatch after it. */
  lemma DispatchQuiet(s: Setup, live: Live, d: bytes, m: nat)
    requires IsCi(d) && Quiet(s, live, m)
    ensures Quiet(s, Collide(s, live, d).0, m) && Quiet(s, Dispatch(s, live, d).live, m)
  {
    hide Handle, NewMuid, NeverMade, DiscoveryFrame, InvalidateFrame, ReadMuid, Low28;
    if s.rng.Some? && live.muid < 0x1000_0000 {
      RedrawQuiet(s, live, m);
    }
  }

  lemma StepQuiet(s: Setup, live: Live, d: bytes, m: nat)
    requires Quiet(s, live, m)
    ensures Quiet(s, Process(s, live, d).live, m) && NoneSentBy(Process(s, live, d).frames, m)
  {
    hide Collide, Dispatch, NeverMade, HeaderOf, Low28;
    if IsCi(d) {
      FramesCarryMuid(s, live, d);
      DispatchQuiet(s, live, d, m);
      DispatchQuiet(s, Collide(s, live, d).0, d, m);
    }
  }

  lemma {:induction false} RunQuiet(s: Setup, live: Live, ds: seq<bytes>, m: nat)
    requires Quiet(s, live, m)
    ensures Quiet(s, After(s, live, ds), m) && NoneSentBy(Sent(s, live, ds), m)
    decreases |ds|
  {
    hide Process, Quiet, IsCi, HeaderOf;
    if ds != [] {
      StepQuiet(s, live, ds[0], m);
      RunQuiet(s, Process(s, live, ds[0]).live, ds[1..], m);
    }
  }

  /** The number from which on redraws can be seen: if a message makes us redraw
      twice and nothing is announced, the first of the two never signs a frame. */
  function Seen(s: Setup, live: Live, d: bytes): nat {
    if s.autoInvalidate then live.draws else LastRedraw(s, live, d)
  }

  lemma ReplacedQuiet(s: Setup, live: Live, d: bytes, m: nat)
    requires Redraws(s, live, d) && NeverMade(s.rng, Seen(s, live, d), m)
    ensures Quiet(s, Process(s, live, d).live, m) && NoneSentBy(Process(s, live, d).frames, m)
  {
    hide Handle, NeverMade, DiscoveryFrame, InvalidateFrame, ReadMuid, Low28, NewMuid, HeaderOf;
    FramesCarryMuid(s, live, d);
    var now := Collide(s, live, d).0;
    if RedrawsTwice(s, live, d) && !s.autoInvalidate {
      RedrawQuiet(s, now, m);
    } else {
      RedrawQuiet(s, live, m);
      if Collides(s, live, d) { DispatchQuiet(s, now, d, m); }
    }
  }

  /** Asked what it can do, the responder answers from the MUID it holds. */
  function Inquire(): bytes {
    Common(0, 0x7F, PE_CAPABILITY, BROADCAST) + []
  }

  lemma AnswersInquiry(s: Setup, live: Live)
    requires s.hasSink && live.muid != 0
    ensures !NoneSentBy(Process(s, live, Inquire()).frames, Low28(live.muid))
  {
    hide Common, ReadMuid, HeaderOf, Low28, Identity, SentBy;
    var d := Inquire();
    NarrowStays(0);
    HeaderBack(Header(0x7F, PE_CAPABILITY, VERSION_2, 0, BROADCAST), []);
    assert IsCi(d) && HeaderOf(d).subId == PE_CAPABILITY && HeaderOf(d).src == 0 by { InquiryHeaderIs(); }
    assert d[3] == PE_CAPABILITY && ReadMuid(d, 5) == 0 by { HeaderFields(d); }
    var frame := Common(live.muid, 0x7F, PE_CAPABILITY_REPLY, 0) + [1, 1, 0];
    CommonSource(live.muid, 0x7F, PE_CAPABILITY_REPLY, 0, [1, 1, 0], 0);
    assert Process(s, live, d).frames == [] + [frame];
    assert HeaderOf(frame).src == Low28(live.muid) by { SourceIs(frame, live.muid); }
    assert frame in Process(s, live, d).frames;
  }

  lemma InquiryHeaderIs()
    ensures IsCi(Inquire()) && HeaderOf(Inquire()) == Header(0x7F, PE_CAPABILITY, VERSION_2, 0, BROADCAST)
  {
    hide HeaderBytes, HeaderOf, IsCi;
    NarrowStays(0);
    NarrowStays(BROADCAST);
    HeaderBack(Header(0x7F, PE_CAPABILITY, VERSION_2, 0, BROADCAST), []);
  }

  lemma HeaderFields(d: bytes)
    requires IsCi(d)
    ensures HeaderOf(d).subId == d[3] && HeaderOf(d).src == ReadMuid(d, 5)
  {
    hide ReadMuid;
  }

  lemma SourceIs(frame: bytes, muid: nat)
    requires SentBy(frame, muid)
    ensures IsCi(frame) && HeaderOf(frame).src == Low28(muid)
  {
  }

  /** If a redraw that can be seen makes m, some messages bring out a frame from it. */
  lemma ReplacedHeard(s: Setup, live: Live, d: bytes, k: nat) returns (ds: seq<bytes>)
    requires s.rng.Some? && Redraws(s, live, d) && s.hasSink && Reached(s.rng.value, Seen(s, live, d), k)
    ensures !NoneSentBy(Sent(s, live, [d] + ds), Low28(Redraw(s.rng.value, k).muid))
  {
    hide Process, Redraw, Reached, Usable, LastRedraw, RedrawsTwice, Redraws, After, Sent, NoneSentBy, Low28, Inquire;
    var rng, t, m := s.rng.value, LastRedraw(s, live, d), Low28(Redraw(s.rng.value, k).muid);
    AfterMessage(s, live, d);
    var first := FirstHeard(s, live, d, k);
    if first {
      ds := [];
      RunCons(s, live, d, []);
      HeardInRun(Process(s, live, d).frames, Sent(s, Process(s, live, d).live, []), m);
    } else {
      var more := Reach(s, t, k);
      var held := After(s, Redraw(rng, t), more);
      ds := more + [Inquire()];
      RunSnoc(s, Redraw(rng, t), more, Inquire());
      RunCons(s, live, d, ds);
      FirstNotZero(rng, k);
      AnswersInquiry(s, held);
      HeardInRun(Sent(s, Redraw(rng, t), more), Process(s, held, Inquire()).frames, m);
      HeardInRun(Process(s, live, d).frames, Sent(s, Redraw(rng, t), ds), m);
    }
  }

  lemma HeardInRun(before: seq<bytes>, after: seq<bytes>, m: nat)
    ensures !NoneSentBy(before, m) || !NoneSentBy(after, m) ==> !NoneSentBy(before + after, m)
  {
    hide HeaderOf, IsCi;
    assert forall f :: f in before || f in after ==> f in before + after;
  }

  /** Either the first of two announced redraws already brings out m, or the redraw
      making m can be reached from the last one. */
  lemma FirstHeard(s: Setup, live: Live, d: bytes, k: nat) returns (heard: bool)
    requires s.rng.Some? && Redraws(s, live, d) && s.hasSink && Reached(s.rng.value, Seen(s, live, d), k)
    ensures heard ==> !NoneSentBy(Process(s, live, d).frames, Low28(Redraw(s.rng.value, k).muid))
    ensures !heard ==> Reached(s.rng.value, LastRedraw(s, live, d), k)
  {
    hide Redraw, Reached, Usable, Handle, ReadMuid, Low28, InvalidateFrame, DiscoveryFrame;
    var first := Redraw(s.rng.value, live.draws);
    heard := false;
    if RedrawsTwice(s, live, d) && s.autoInvalidate {
      NextOrLater(s.rng.value, live.draws, k);
      if Redraw(s.rng.value, k).muid == first.muid {
        heard := true;
        InvalidateParses(first.muid, live.muid);
        assert Process(s, live, d).frames[0] == InvalidateFrame(first.muid, live.muid);
      }
    }
  }

  /** Once a message makes us redraw, the MUID held till then is the source of no
      frame, neither in answer to that message nor to any that follow, if and only
      if no redraw that can be seen makes it again. */
  lemma ReplacedMuidIsSilent(s: Setup, live: Live, d: bytes)
    requires Usable(live.muid) && Redraws(s, live, d) && s.hasSink
    ensures (forall ds :: NoneSentBy(Sent(s, live, [d] + ds), live.muid)) <==> NeverMade(s.rng, Seen(s, live, d), live.muid)
  {
    hide Process, Redraw, Reached, Usable, Seen, Redraws, Sent, NoneSentBy, Low28, Quiet;
    if NeverMade(s.rng, Seen(s, live, d), live.muid) {
      ReplacedQuiet(s, live, d, live.muid);
      forall ds
        ensures NoneSentBy(Sent(s, live, [d] + ds), live.muid)
      {
        RunQuiet(s, Process(s, live, d).live, ds, live.muid);
        RunCons(s, live, d, ds);
        NoneInBoth(Process(s, live, d).frames, Sent(s, Process(s, live, d).live, ds), live.muid);
      }
    } else {
      var k: nat :| Reached(s.rng.value, Seen(s, live, d), k) && Low28(Redraw(s.rng.value, k).muid) == live.muid;
      var ds := ReplacedHeard(s, live, d, k);
      assert !NoneSentBy(Sent(s, live, [d] + ds), live.muid);
    }
  }

  lemma NoneInBoth(xs: seq<bytes>, ys: seq<bytes>, m: nat)
    requires NoneSentBy(xs, m) && NoneSentBy(ys, m)
    ensures NoneSentBy(xs + ys, m)
  {
  }
}
