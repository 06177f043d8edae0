/** The subscriber registry and change notification (src/midi2_ci.c:211-389). */
module Subscribers {
  import opened Words
  import opened Reassembly
  import opened CiMessage
  import opened PropertyExchange
  import opened PeResponder
  import opened Responder
  import opened ResponderState

  const NAME_MAX := 36

  datatype Status = Success | Full | NotFound

  /** One registry entry; name is what name_copy holds before its NUL. */
  datatype Slot = Slot(inUse: bool, muid: word, name: bytes)

  datatype Pair = Pair(muid: word, name: bytes)

  function Name36(name: bytes): bytes {
    name[..Min(|name|, NAME_MAX)]
  }

  /** A name is kept up to its 36th character: two are the same if they are until then. */
  lemma NamesKept(a: bytes, b: bytes)
    ensures |Name36(a)| == (if |a| < 36 then |a| else 36) && Name36(a) <= a
    ensures Name36(a) == Name36(b)
            <==> (|a| == |b| || (|a| >= 36 && |b| >= 36)) && forall i :: 0 <= i < 36 && i < |a| ==> i < |b| && a[i] == b[i]
  {
    assert forall i :: 0 <= i < 36 && i < |a| ==> Name36(a)[i] == a[i];
    assert forall i :: 0 <= i < 36 && i < |b| ==> Name36(b)[i] == b[i];
  }

  // ---- The registry as a set -------------------------------------------------

  function PairOf(s: Slot): Pair {
    Pair(s.muid, s.name)
  }

  ghost function Contents(slots: seq<Slot>): set<Pair> {
    set i | 0 <= i < |slots| && slots[i].inUse :: PairOf(slots[i])
  }

  ghost predicate Distinct(slots: seq<Slot>) {
    forall i, j :: 0 <= i < j < |slots| && slots[i].inUse && slots[j].inUse ==> PairOf(slots[i]) != PairOf(slots[j])
  }

  function InUse(slots: seq<Slot>): nat {
    if slots == [] then 0
    else InUse(slots[..|slots| - 1]) + (if slots[|slots| - 1].inUse then 1 else 0)
  }

  lemma ContentsSnoc(most: seq<Slot>, s: Slot)
    ensures Contents(most + [s]) == Contents(most) + (if s.inUse then {PairOf(s)} else {})
    ensures Distinct(most + [s]) ==> Distinct(most) && (s.inUse ==> PairOf(s) !in Contents(most))
  {
    var slots, n := most + [s], |most|;
    assert forall i :: 0 <= i < n ==> slots[i] == most[i];
    forall p
      ensures p in Contents(slots) <==> p in Contents(most) || (s.inUse && p == PairOf(s))
    {
      if p in Contents(most) {
        var i :| 0 <= i < n && most[i].inUse && PairOf(most[i]) == p;
        assert slots[i].inUse && PairOf(slots[i]) == p;
      }
      assert slots[n] == s;
    }
  }

  lemma {:induction false} AllInUse(slots: seq<Slot>)
    ensures InUse(slots) <= |slots|
    ensures InUse(slots) == |slots| <==> forall i :: 0 <= i < |slots| ==> slots[i].inUse
  {
    if slots != [] {
      var n := |slots| - 1;
      AllInUse(slots[..n]);
      assert forall i :: 0 <= i < n ==> slots[i] == slots[..n][i];
    }
  }

  /** Distinct entries: the set has one pair for each. */
  lemma {:induction false} ContentsSize(slots: seq<Slot>)
    requires Distinct(slots)
    ensures |Contents(slots)| == InUse(slots)
  {
    if slots == [] {
      assert Contents(slots) == {};
    } else {
      hide Contents, Distinct;
      var n := |slots| - 1;
      assert slots == slots[..n] + [slots[n]];
      ContentsSnoc(slots[..n], slots[n]);
      ContentsSize(slots[..n]);
    }
  }

  lemma FillSlot(slots: seq<Slot>, k: nat, p: Pair)
    requires k < |slots| && !slots[k].inUse && Distinct(slots) && p !in Contents(slots)
    ensures var now := slots[k := Slot(true, p.muid, p.name)];
            Distinct(now) && Contents(now) == Contents(slots) + {p}
  {
    var now := slots[k := Slot(true, p.muid, p.name)];
    forall q
      ensures q in Contents(now) <==> q in Contents(slots) + {p}
    {
      if q in Contents(slots) {
        var i :| 0 <= i < |slots| && slots[i].inUse && PairOf(slots[i]) == q;
        assert now[i].inUse && PairOf(now[i]) == q;
      }
      assert now[k].inUse && PairOf(now[k]) == p;
    }
    forall i, j | 0 <= i < j < |now| && now[i].inUse && now[j].inUse
      ensures PairOf(now[i]) != PairOf(now[j])
    {
      var other := if i == k then j else i;
      assert other != k && slots[other].inUse ==> PairOf(slots[other]) in Contents(slots);
    }
  }

  lemma ClearSlot(slots: seq<Slot>, k: nat)
    requires k < |slots| && slots[k].inUse && Distinct(slots)
    ensures var now := slots[k := Slot(false, 0, [])];
            Distinct(now) && Contents(now) == Contents(slots) - {PairOf(slots[k])}
            && PairOf(slots[k]) in Contents(slots)
  {
    var now := slots[k := Slot(false, 0, [])];
    forall q
      ensures q in Contents(now) <==> q in Contents(slots) - {PairOf(slots[k])}
    {
      if q in Contents(slots) {
        var i :| 0 <= i < |slots| && slots[i].inUse && PairOf(slots[i]) == q;
        assert i != k ==> now[i].inUse && PairOf(now[i]) == q;
      }
      if q in Contents(now) {
        var i :| 0 <= i < |now| && now[i].inUse && PairOf(now[i]) == q;
        assert i != k && slots[i] == now[i];
      }
    }
  }

  // ---- Who is notified --------------------------------------------------------

  /** The subscribers of a name, in slot order. */
  function Recipients(slots: seq<Slot>, name: bytes): seq<word> {
    if slots == [] then []
    else
      var s := slots[|slots| - 1];
      Recipients(slots[..|slots| - 1], name) + (if s.inUse && s.name == name then [s.muid] else [])
  }

  ghost predicate NoRepeats(ms: seq<word>) {
    forall i, j :: 0 <= i < j < |ms| ==> ms[i] != ms[j]
  }

  /** Each pair of that name once, and nobody else. */
  lemma {:induction false} RecipientsOnce(slots: seq<Slot>, name: bytes)
    requires Distinct(slots)
    ensures NoRepeats(Recipients(slots, name))
    ensures forall m: word :: m in Recipients(slots, name) <==> Pair(m, name) in Contents(slots)
  {
    if slots == [] {
      assert Contents(slots) == {};
    } else {
      hide Contents, Distinct;
      var n := |slots| - 1;
      var most, s := slots[..n], slots[n];
      assert slots == most + [s];
      ContentsSnoc(most, s);
      RecipientsOnce(most, name);
    }
  }

  /** They come in the order of their slots: the k-th slot's follows those before it. */
  lemma {:induction false} RecipientsInOrder(slots: seq<Slot>, name: bytes, k: nat)
    requires k < |slots| && slots[k].inUse && slots[k].name == name
    ensures var n := |Recipients(slots[..k], name)|;
            n < |Recipients(slots, name)| && Recipients(slots, name)[n] == slots[k].muid
    decreases |slots|
  {
    var last := |slots| - 1;
    if k < last {
      RecipientsInOrder(slots[..last], name, k);
      assert slots[..last][..k] == slots[..k];
    }
  }

  /** Which resource changed, to one subscriber; the value is not sent. */
  function NotifyFrame(muid: nat, to: nat, name: bytes): bytes {
    PeFrame(Header(0x7F, PE_NOTIFY, VERSION_2, muid, to), 0, InquiryHeader(name), 1, 1, [])
  }

  function NotifyFrames(muid: nat, to: seq<word>, name: bytes): (r: seq<bytes>)
    ensures |r| == |to|
  {
    seq(|to|, i requires 0 <= i < |to| => NotifyFrame(muid, to[i], name))
  }

  /** The i-th frame is addressed to the low 28 bits of the i-th subscriber's MUID; its
      header names the resource if and only if the name has no quote in it. */
  lemma NotifyParses(muid: nat, to: seq<word>, i: nat, name: bytes)
    requires |name| <= 36 && i < |to|
    ensures |NotifyFrames(muid, to, name)| == |to|
    ensures var d := NotifyFrames(muid, to, name)[i];
            && IsCi(d) && HeaderOf(d) == Header(0x7F, 0x3F, 2, Low28(muid), Low28(to[i]))
            && PeFields(d) == Some(PeData(0, Some(InquiryHeader(name)), |name| + 15, 1, 1, None, 0))
            && (Resource(Some(InquiryHeader(name))) == Some(name) <==> QuoteFree(name))
  {
    hide Resource, HeaderOf, IsCi, PeFields, PeFrame;
    InquiryNames(name);
    assert |InquiryHeader(name)| == |name| + 15;
    PeRoundTrip(Header(0x7F, PE_NOTIFY, VERSION_2, muid, to[i]), 0, InquiryHeader(name), 1, 1, []);
  }

  // ---- The registries of the state struct -------------------------------------

  /** strncmp(a, b, 36) == 0. */
  method SameName(a: bytes, b: bytes) returns (same: bool)
    requires NulFree(a) && NulFree(b)
    ensures same <==> Name36(a) == Name36(b)
  {
    var i := 0;
    while i < NAME_MAX
      invariant 0 <= i <= NAME_MAX && i <= |a| && i <= |b| && a[..i] == b[..i]
    {
      var x: byte := if i < |a| then a[i] else 0;
      var y: byte := if i < |b| then b[i] else 0;
      if x != y {
        assert i < |a| && i < |b| ==> Name36(a)[i] != Name36(b)[i];
        return false;
      }
      if x == 0 { return true; }
      assert a[..i + 1] == b[..i + 1];
      i := i + 1;
    }
    return true;
  }

  /** The elements behind the i-th of the first n move up by one. */
  method ShiftDown(props: array<Property>, i: nat, n: nat)
    requires i < n <= props.Length
    modifies props
    ensures props[..n - 1] == old(props[..i]) + old(props[i + 1..n])
  {
    var j := i;
    while j + 1 < n
      invariant i <= j < n
      invariant props[..j] == old(props[..i]) + old(props[i + 1..j + 1])
      invariant props[j + 1..n] == old(props[j + 1..n])
    {
      ghost var rest := props[j + 1..n];
      assert props[j + 1] == rest[0] == old(props[j + 1]);
      props[j] := props[j + 1];
      assert props[..j + 1] == props[..j] + [props[j]];
      assert old(props[i + 1..j + 2]) == old(props[i + 1..j + 1]) + [old(props[j + 1])];
      assert props[j + 2..n] == rest[1..];
      j := j + 1;
    }
  }

  class Registry {
    const props: array<Property>
    var propCount: nat
    const hasStorage: bool
    const slots: array<Slot>
    var count: nat

    /** Names in use are C strings of up to 36 characters. Without storage for
        subscribers (NULL) there are no slots. */
    ghost predicate Valid()
      reads this, slots
    {
      && propCount <= props.Length <= 0xFF && slots.Length <= 0xFF
      && (!hasStorage ==> slots.Length == 0)
      && Distinct(slots[..]) && count == |Contents(slots[..])|
      && forall i :: 0 <= i < slots.Length && slots[i].inUse ==> |slots[i].name| <= NAME_MAX && NulFree(slots[i].name)
    }

    ghost function Subscribed(): set<Pair>
      reads this, slots
    {
      Contents(slots[..])
    }

    ghost function Properties(): seq<Property>
      requires propCount <= props.Length
      reads this, props
    {
      props[..propCount]
    }

    /** The part of midi2_ci_init_ex that readies the caller's storage. */
    constructor (props: array<Property>, hasStorage: bool, slots: array<Slot>)
      requires props.Length <= 0xFF && slots.Length <= 0xFF && (!hasStorage ==> slots.Length == 0)
      modifies slots
      ensures Valid() && this.props == props && this.slots == slots && this.hasStorage == hasStorage
      ensures Properties() == [] && Subscribed() == {} && count == 0
    {
      this.props, this.hasStorage, this.slots := props, hasStorage, slots;
      propCount, count := 0, 0;
      new;
      var i := 0;
      while i < slots.Length
        invariant 0 <= i <= slots.Length && forall j :: 0 <= j < i ==> !slots[j].inUse
        modifies slots
      {
        slots[i] := Slot(false, 0, []);
        i := i + 1;
      }
      assert Subscribed() == {};
    }

    /** find_property_idx; the number of properties stands for -1. */
    method FindPropertyIdx(name: bytes) returns (i: nat)
      requires Valid()
      ensures i == Lookup(Properties(), name)
    {
      i := 0;
      while i < propCount
        invariant 0 <= i <= propCount && forall j :: 0 <= j < i ==> props[j].name != Some(name)
      {
        if props[i].name == Some(name) { return; }
        i := i + 1;
      }
    }

    /** find_subscriber_idx; the capacity stands for -1. */
    method FindSubscriberIdx(muid: word, name: bytes) returns (i: nat)
      requires Valid() && NulFree(name)
      ensures i <= slots.Length
      ensures i < slots.Length ==> slots[i].inUse && PairOf(slots[i]) == Pair(muid, Name36(name))
      ensures i < slots.Length <==> Pair(muid, Name36(name)) in Subscribed()
    {
      hide Distinct;
      i := 0;
      while i < slots.Length
        invariant 0 <= i <= slots.Length
        invariant forall j :: 0 <= j < i && slots[j].inUse ==> PairOf(slots[j]) != Pair(muid, Name36(name))
      {
        if slots[i].inUse && slots[i].muid == muid {
          var same := SameName(slots[i].name, name);
          if same {
            assert slots[..][i].inUse && PairOf(slots[..][i]) == Pair(muid, Name36(name));
            return;
          }
        }
        i := i + 1;
      }
    }

    /** midi2_ci_subscribe_add. */
    method Add(muid: word, name: bytes) returns (r: Status)
      requires Valid() && NulFree(name)
      modifies this`count, slots
      ensures Valid()
      ensures var i, pair := Lookup(Properties(), name), Pair(muid, Name36(name));
              var known := i < |Properties()| && Properties()[i].subscribable;
              && r == (if !hasStorage then Full
                       else if !known then NotFound
                       else if pair in old(Subscribed()) then Success
                       else if old(count) == slots.Length then Full else Success)
              && Subscribed() == if r == Success then old(Subscribed()) + {pair} else old(Subscribed())
    {
      hide Distinct, Contents, InUse, Lookup;
      if !hasStorage { return Full; }
      var pi := FindPropertyIdx(name);
      if pi == propCount || !props[pi].subscribable { return NotFound; }
      var j := FindSubscriberIdx(muid, name);
      if j < slots.Length {
        assert Subscribed() == Subscribed() + {Pair(muid, Name36(name))};
        return Success;
      }
      ContentsSize(slots[..]);
      AllInUse(slots[..]);
      var i := 0;
      while i < slots.Length && slots[i].inUse
        invariant 0 <= i <= slots.Length && forall j :: 0 <= j < i ==> slots[j].inUse
      {
        i := i + 1;
      }
      if i == slots.Length { return Full; }
      FillSlot(slots[..], i, Pair(muid, Name36(name)));
      slots[i] := Slot(true, muid, name[..if |name| > 36 then 36 else |name|]);
      count := count + 1;
      assert slots[..] == old(slots[..])[i := slots[i]];
      return Success;
    }

    /** midi2_ci_subscribe_remove. */
    method Remove(muid: word, name: bytes) returns (r: Status)
      requires Valid() && NulFree(name)
      modifies this`count, slots
      ensures Valid()
      ensures var pair := Pair(muid, Name36(name));
              && (r == if pair in old(Subscribed()) then Success else NotFound)
              && Subscribed() == old(Subscribed()) - {pair}
    {
      hide Distinct, Contents;
      var i := FindSubscriberIdx(muid, name);
      if i == slots.Length {
        assert Subscribed() == Subscribed() - {Pair(muid, Name36(name))};
        return NotFound;
      }
      ClearSlot(slots[..], i);
      slots[i] := Slot(false, 0, []);
      count := count - 1;
      assert slots[..] == old(slots[..])[i := slots[i]];
      return Success;
    }

    /** midi2_ci_pe_set_subscribable: subscribers stay. */
    method SetSubscribable(name: bytes, subscribable: bool) returns (r: Status)
      requires Valid()
      modifies props
      ensures Valid() && Subscribed() == old(Subscribed())
      ensures var i := Lookup(old(Properties()), name);
              && (r == if i < propCount then Success else NotFound)
              && Properties() == if i < propCount then old(Properties())[i := old(props[i]).(subscribable := subscribable)]
                                 else old(Properties())
    {
      hide Distinct, Contents;
      var i := FindPropertyIdx(name);
      if i == propCount { return NotFound; }
      props[i] := props[i].(subscribable := subscribable);
      return Success;
    }

    /** midi2_ci_remove_property: the first of that name goes, the later ones move
        up; its subscribers stay. */
    method RemoveProperty(name: bytes) returns (r: Status)
      requires Valid()
      modifies this`propCount, props
      ensures Valid() && Subscribed() == old(Subscribed())
      ensures var i, was := Lookup(old(Properties()), name), old(Properties());
              && (r == if i < |was| then Success else NotFound)
              && Properties() == if i < |was| then was[..i] + was[i + 1..] else was
    {
      hide Distinct, Contents, Lookup;
      var i := FindPropertyIdx(name);
      if i == propCount { return NotFound; }
      ShiftDown(props, i, propCount);
      propCount := propCount - 1;
      return Success;
    }

    /** midi2_ci_notify_property_changed: on group 0, one frame for each
        subscriber of the name's first 36 characters. */
    method NotifyChanged(name: bytes, ci: State) returns (r: Status)
      requires Valid() && NulFree(name) && ci.Valid()
      modifies ci`sent, ci.port
      ensures ci.Valid()
      ensures r == if Lookup(Properties(), name) < propCount then Success else NotFound
      ensures ci.sent == if r == NotFound then old(ci.sent)
                         else old(ci.sent) + OnGroup(0, Sending(ci.setup,
                                NotifyFrames(ci.muid, Recipients(slots[..], Name36(name)), Name36(name))))
    {
      hide Distinct, Contents, NotifyFrame, Recipients, OnGroup, NotifyFrames, Wire, AllWrites, Registered;
      var pi := FindPropertyIdx(name);
      if pi == propCount { return NotFound; }
      NobodyYet(ci.muid, Name36(name));
      if ci.port == null {
        OnGroupFew(0, []);
        return Success;
      }
      var i := 0;
      while i < slots.Length
        invariant 0 <= i <= slots.Length && ci.Valid()
        invariant ci.sent == old(ci.sent) + OnGroup(0, NotifyFrames(ci.muid, Recipients(slots[..i], Name36(name)), Name36(name)))
      {
        NotifySlot(i, name, ci, old(ci.sent));
        i := i + 1;
      }
      assert slots[..i] == slots[..];
      return Success;
    }

    /** One round of that loop; was is what had been sent before it. */
    method NotifySlot(i: nat, name: bytes, ci: State, ghost was: seq<Send<nibble>>)
      requires Valid() && NulFree(name) && i < slots.Length && ci.Valid() && ci.port != null
      requires ci.sent == was + OnGroup(0, NotifyFrames(ci.muid, Recipients(slots[..i], Name36(name)), Name36(name)))
      modifies ci`sent, ci.port
      ensures ci.Valid()
      ensures ci.sent == was + OnGroup(0, NotifyFrames(ci.muid, Recipients(slots[..i + 1], Name36(name)), Name36(name)))
    {
      hide Distinct, Contents, NotifyFrame, Recipients, OnGroup, NotifyFrames, Wire, AllWrites, Registered;
      assert slots[..][..i] == slots[..i] && slots[..][..i + 1] == slots[..i + 1];
      NotifyNext(slots[..], i, ci.muid, Name36(name));
      if !slots[i].inUse { return; }
      var same := SameName(slots[i].name, name);
      assert Name36(slots[i].name) == slots[i].name;
      if !same { return; }
      var frame := BuildNotify(ci.muid, slots[i].muid, slots[i].name);
      ghost var frames := NotifyFrames(ci.muid, Recipients(slots[..i], Name36(name)), Name36(name));
      OnGroupAppend(0, frames, [frame]);
      assert was + OnGroup(0, frames) + OnGroup(0, [frame]) == was + OnGroup(0, frames + [frame]);
      ci.CiSend(0, frame);
    }
  }

  method BuildNotify(muid: nat, to: nat, name: bytes) returns (frame: bytes)
    requires |name| <= NAME_MAX
    ensures frame == NotifyFrame(muid, to, name) && |frame| <= 128
  {
    hide PeFrame;
    var buf, hdr := new byte[128], new byte[64];
    assert |InquiryHeader(name)| == |name| + 15;
    var n := Put(hdr, 0, Ascii("{\"resource\":\""));
    n := Put(hdr, n, name);
    n := Put(hdr, n, Ascii("\"}"));
    assert hdr[..n] == InquiryHeader(name);
    var m := BuildPeData(buf, Header(0x7F, PE_NOTIFY, VERSION_2, muid, to), 0, hdr[..n], 1, 1, []);
    frame := buf[..m];
  }

  lemma NobodyYet(muid: nat, name: bytes)
    ensures Recipients([], name) == [] && NotifyFrames(muid, [], name) == []
    ensures OnGroup(0, []) == []
  {
  }

  lemma NotifyNext(slots: seq<Slot>, i: nat, muid: nat, name: bytes)
    requires i < |slots|
    ensures NotifyFrames(muid, Recipients(slots[..i + 1], name), name)
            == if slots[i].inUse && slots[i].name == name
               then NotifyFrames(muid, Recipients(slots[..i], name), name) + [NotifyFrame(muid, slots[i].muid, name)]
               else NotifyFrames(muid, Recipients(slots[..i], name), name)
  {
    hide NotifyFrame;
    assert slots[..i + 1][..i] == slots[..i];
  }
}
