/**
 The JESD204 state machine of jesd204/jesd204-fsm.c: the order in which starting and stopping a
 topology calls the state operations of its devices.
 */
module Jesd204 {
  import opened Jesd204Spec
  import opened Sequences

  /* ---------- Per-device calls ---------- */

  /** Each per-link call of a device with a per-device callback comes after that callback. */
  ghost predicate DeviceFirst(t: Topology, calls: seq<Call>)
    requires Valid(t)
  {
    forall i :: 0 <= i < |calls| ==>
      var c := calls[i];
      c.PerLink? && c.op < MAX_OPS && c.dev < |t.devs| && Has(t, c.op, c.dev) ==> PerDevice(c.op, c.dev) in calls[..i]
  }

  /** The calls made so far for one operation, `done` being per_device_op_done. */
  ghost predicate Progress(t: Topology, op: nat, calls: seq<Call>, done: seq<bool>)
    requires Valid(t)
  {
    && |done| == MAX_DEVS && DeviceFirst(t, calls)
    && (forall i :: 0 <= i < |calls| ==> calls[i].op == op)
    && (forall d :: 0 <= d < |t.devs| ==> Count(calls, PerDevice(op, d)) == if done[d] then 1 else 0)
  }

  lemma KeptOne(calls: seq<Call>, x: Call)
    ensures Kept(calls + [x]) == if x.PerDevice? then Kept(calls) else Kept(calls) + [x]
  {
    assert (calls + [x])[..|calls|] == calls;
  }

  lemma OneMoreFirst(t: Topology, calls: seq<Call>, x: Call)
    requires Valid(t) && DeviceFirst(t, calls)
    requires x.PerLink? && x.op < MAX_OPS && x.dev < |t.devs| && Has(t, x.op, x.dev) ==> PerDevice(x.op, x.dev) in calls
    ensures DeviceFirst(t, calls + [x])
  {
    hide Has;
    forall i | 0 <= i < |calls| + 1
      ensures (calls + [x])[..i] == calls[..i] && (calls + [x])[i] == if i < |calls| then calls[i] else x
    {
    }
    assert calls[..|calls|] == calls;
  }

  /** One more call: a per-device call once, a per-link call after it, or one of the top device. */
  lemma OneMore(t: Topology, op: nat, calls: seq<Call>, done: seq<bool>, x: Call)
    requires Valid(t) && op < MAX_OPS && Progress(t, op, calls, done) && x.op == op
    requires x.PerDevice? ==> x.dev < |t.devs| && !done[x.dev]
    requires x.PerLink? && x.dev < |t.devs| && Has(t, op, x.dev) ==> done[x.dev]
    ensures Progress(t, op, calls + [x], if x.PerDevice? then done[x.dev := true] else done)
    ensures Kept(calls + [x]) == if x.PerDevice? then Kept(calls) else Kept(calls) + [x]
  {
    hide Has, DeviceFirst;
    KeptOne(calls, x);
    if x.PerLink? && x.dev < |t.devs| && Has(t, op, x.dev) {
      CountedIsIn(calls, PerDevice(op, x.dev));
    }
    OneMoreFirst(t, calls, x);
    forall d | 0 <= d < |t.devs|
      ensures Count(calls + [x], PerDevice(op, d))
           == Count(calls, PerDevice(op, d)) + if x == PerDevice(op, d) then 1 else 0
    {
      CountOne(calls, x, PerDevice(op, d));
    }
  }

  /** per_device_op_done after a device met a link. */
  function Met(t: Topology, op: nat, done: seq<bool>, dev: nat, shared: bool): seq<bool>
    requires Valid(t) && op < MAX_OPS && dev < |t.devs| && |done| == MAX_DEVS
  {
    done[dev := done[dev] || (shared && Has(t, op, dev))]
  }

  /** A per-device call that was not made before the walk came to this link stands there. */
  lemma PerDeviceUp(t: Topology, op: nat, done: seq<bool>, dev: nat, link: nat)
    requires Valid(t) && op < MAX_OPS && dev < |t.devs| && link < |t.top.linkIds| && |done| == MAX_DEVS
    requires DoneFor(t, op, done, dev, dev + 1, 0, link) && Has(t, op, dev) && !done[dev]
    requires t.top.linkIds[link] in t.devs[dev].linkIds
    ensures PlaceOf(t, PerDevice(op, dev), true) == Place(link, dev)
  {
    hide Shares;
    FirstIs(t, dev, 0, link);
  }

  lemma PerDeviceDown(t: Topology, op: nat, done: seq<bool>, dev: nat, link: nat)
    requires Valid(t) && op < MAX_OPS && dev < |t.devs| && link < |t.top.linkIds| && |done| == MAX_DEVS
    requires DoneFor(t, op, done, dev, dev + 1, link + 1, |t.top.linkIds|) && Has(t, op, dev) && !done[dev]
    requires t.top.linkIds[link] in t.devs[dev].linkIds
    ensures PlaceOf(t, PerDevice(op, dev), false) == Place(link, dev)
  {
    hide Shares;
    LastIs(t, dev, |t.top.linkIds|, link);
  }

  lemma LinkPlace(t: Topology, op: nat, link: nat, dev: nat, up: bool)
    requires Valid(t)
    ensures PlaceOf(t, PerLink(op, dev, link), up) == Place(link, dev)
    ensures !Asks(t, PerLink(op, dev, link)) && !Asks(t, PerDevice(op, dev))
  {
  }

  /* ---------- Starting ---------- */

  /** The links of one device on the way up. */
  method DeviceUp(t: Topology, op: nat, link: nat, dev: nat, done: array<bool>, calls0: seq<Call>)
    returns (calls: seq<Call>)
    requires Valid(t) && op < MAX_OPS && link < |t.top.linkIds| && dev < |t.devs|
    requires done.Length == MAX_DEVS && Progress(t, op, calls0, done[..])
    requires DoneFor(t, op, done[..], dev, dev + 1, 0, link) && InOrder(t, calls0, true, Place(link, dev))
    modifies done
    ensures Progress(t, op, calls, done[..]) && InOrder(t, calls, true, Place(link, dev))
    ensures done[..] == Met(t, op, old(done[..]), dev, t.top.linkIds[link] in t.devs[dev].linkIds)
    ensures Kept(calls) == Kept(calls0) + WalkDevice(t, op, link, dev, |t.devs[dev].linkIds|)
  {
    hide Progress, Kept, InOrder, DoneFor, PlaceOf, Asks;
    LinkPlace(t, op, link, dev, true);
    calls := calls0;
    var ids := t.devs[dev].linkIds;
    for i := 0 to |ids|
      invariant Progress(t, op, calls, done[..]) && InOrder(t, calls, true, Place(link, dev))
      invariant done[..] == Met(t, op, old(done[..]), dev, t.top.linkIds[link] in ids[..i])
      invariant Kept(calls) == Kept(calls0) + WalkDevice(t, op, link, dev, i)
    {
      assert ids[..i + 1] == ids[..i] + [ids[i]];
      if ids[i] == t.top.linkIds[link] {
        if t.devs[dev].ops[op].perDevice && !done[dev] {
          OneMore(t, op, calls, done[..], PerDevice(op, dev));
          PerDeviceUp(t, op, old(done[..]), dev, link);
          InOrderOne(t, calls, true, Place(link, dev), PerDevice(op, dev));
          calls := calls + [PerDevice(op, dev)];
          ghost var before := done[..];
          done[dev] := true;
          assert done[..] == before[dev := true];
        }
        if t.devs[dev].ops[op].perLink {
          OneMore(t, op, calls, done[..], PerLink(op, dev, link));
          InOrderOne(t, calls, true, Place(link, dev), PerLink(op, dev, link));
          calls := calls + [PerLink(op, dev, link)];
        }
      }
    }
    assert ids[..|ids|] == ids;
  }

  /** per_device_op_done of the devices from..to says who takes part in the links lo..hi. */
  ghost predicate DoneFor(t: Topology, op: nat, done: seq<bool>, from: nat, to: nat, lo: nat, hi: nat)
    requires Valid(t) && op < MAX_OPS && to <= |t.devs| && |done| == MAX_DEVS && hi <= |t.top.linkIds|
  {
    forall d :: from <= d < to ==> done[d] == (Has(t, op, d) && Shares(t, d, lo, hi))
  }

  lemma SharesMore(t: Topology, dev: nat, lo: nat, hi: nat)
    requires dev < |t.devs| && lo < hi <= |t.top.linkIds|
    ensures Shares(t, dev, lo, hi) == (Shares(t, dev, lo, hi - 1) || t.top.linkIds[hi - 1] in t.devs[dev].linkIds)
    ensures Shares(t, dev, lo, hi) == (Shares(t, dev, lo + 1, hi) || t.top.linkIds[lo] in t.devs[dev].linkIds)
  {
  }

  /** A device met link `link`, the links met before being lo0..hi0. */
  lemma MetOne(t: Topology, op: nat, done: seq<bool>, dev: nat, link: nat, lo0: nat, hi0: nat, lo: nat, hi: nat)
    requires Valid(t) && op < MAX_OPS && dev < |t.devs| && |done| == MAX_DEVS && link < |t.top.linkIds|
    requires (lo == lo0 && hi0 == link && hi == hi0 + 1) || (hi == hi0 && lo == link && lo0 == lo + 1)
    requires lo0 <= hi0 && hi <= |t.top.linkIds|
    requires DoneFor(t, op, done, dev, dev + 1, lo0, hi0)
    ensures DoneFor(t, op, Met(t, op, done, dev, t.top.linkIds[link] in t.devs[dev].linkIds), dev, dev + 1, lo, hi)
  {
    hide Shares, Has;
    SharesMore(t, dev, lo, hi);
  }

  /** One link on the way up: the devices in order, then the top device. */
  method LinkUp(t: Topology, op: nat, link: nat, done: array<bool>, calls0: seq<Call>) returns (calls: seq<Call>)
    requires Valid(t) && op < MAX_OPS && link < |t.top.linkIds|
    requires done.Length == MAX_DEVS && Progress(t, op, calls0, done[..])
    requires DoneFor(t, op, done[..], 0, |t.devs|, 0, link) && InOrder(t, calls0, true, Place(link, 0))
    modifies done
    ensures Progress(t, op, calls, done[..]) && DoneFor(t, op, done[..], 0, |t.devs|, 0, link + 1)
    ensures InOrder(t, calls, true, Place(link + 1, 0))
    ensures Kept(calls)
         == Kept(calls0) + (WalkDevices(t, op, link, |t.devs|)
                            + TopCall(t, op, TopPerLink(op, link), t.top.ops[op].perLink, true))
  {
    hide Progress, Kept, Has, Shares, Met, WalkDevice, InOrder;
    calls := calls0;
    for dev := 0 to |t.devs|
      invariant Progress(t, op, calls, done[..]) && InOrder(t, calls, true, Place(link, dev))
      invariant DoneFor(t, op, done[..], 0, dev, 0, link + 1) && DoneFor(t, op, done[..], dev, |t.devs|, 0, link)
      invariant Kept(calls) == Kept(calls0) + WalkDevices(t, op, link, dev)
    {
      ghost var before := done[..];
      MetOne(t, op, before, dev, link, 0, link, 0, link + 1);
      calls := DeviceUp(t, op, link, dev, done, calls);
      InOrderAt(t, calls, true, Place(link, dev), Place(link, dev + 1));
      MetOthers(t, op, before, dev, t.top.linkIds[link] in t.devs[dev].linkIds, done[..]);
      Associative(Kept(calls0), WalkDevices(t, op, link, dev),
                  WalkDevice(t, op, link, dev, |t.devs[dev].linkIds|));
    }
    calls := TopUp(t, op, TopPerLink(op, link), t.top.ops[op].perLink, done[..], Place(link, |t.devs|), calls);
    InOrderAt(t, calls, true, Place(link, |t.devs|), Place(link + 1, 0));
    Associative(Kept(calls0), WalkDevices(t, op, link, |t.devs|),
                TopCall(t, op, TopPerLink(op, link), t.top.ops[op].perLink, true));
  }

  /** A call of the top device, and the sysref request that goes with it. */
  method TopUp(t: Topology, op: nat, call: Call, present: bool, ghost done: seq<bool>, ghost p: Place,
               calls0: seq<Call>)
    returns (calls: seq<Call>)
    requires Valid(t) && op < MAX_OPS && Progress(t, op, calls0, done) && call.op == op
    requires (call.TopPerLink? || call.TopPerDevice?) && PlaceOf(t, call, true) == p && InOrder(t, calls0, true, p)
    ensures Progress(t, op, calls, done) && InOrder(t, calls, true, p)
    ensures Kept(calls) == Kept(calls0) + TopCall(t, op, call, present, true)
  {
    hide Progress, Kept, InOrder;
    calls := calls0;
    if present {
      if Asks(t, call) {
        InOrderTwo(t, calls, p, call);
      } else {
        InOrderOne(t, calls, true, p, call);
      }
      OneMore(t, op, calls, done, call);
      calls := calls + [call];
      if t.top.ops[op].postStateSysref {
        OneMore(t, op, calls, done, Sysref(op));
        calls := calls + [Sysref(op)];
        assert [call] + [Sysref(op)] == [call, Sysref(op)];
      }
    }
  }

  lemma MetOthers(t: Topology, op: nat, done: seq<bool>, dev: nat, shared: bool, done': seq<bool>)
    requires Valid(t) && op < MAX_OPS && dev < |t.devs| && |done| == MAX_DEVS
    requires done' == Met(t, op, done, dev, shared)
    ensures forall d :: 0 <= d < |t.devs| && d != dev ==> done'[d] == done[d]
  {
  }

  /** One operation on the way up. */
  method OpUp(t: Topology, op: nat, done: array<bool>) returns (calls: seq<Call>)
    requires Valid(t) && op < MAX_OPS && done.Length == MAX_DEVS
    modifies done
    ensures Progress(t, op, calls, done[..]) && DoneFor(t, op, done[..], 0, |t.devs|, 0, |t.top.linkIds|)
    ensures Kept(calls) == WalkOp(t, op, true) && InPlace(t, calls, true) && Requested(t, calls, true)
  {
    hide Kept, Has, Shares, WalkDevices, TopCall, InPlace, Requested;
    ClearDone(t, done);
    NothingDone(t, op, done[..], 0);
    calls := [];
    hide Progress, DoneFor;
    for link := 0 to |t.top.linkIds|
      invariant Progress(t, op, calls, done[..]) && DoneFor(t, op, done[..], 0, |t.devs|, 0, link)
      invariant InOrder(t, calls, true, Place(link, 0))
      invariant Kept(calls) == WalkLinks(t, op, link, true)
    {
      calls := LinkUp(t, op, link, done, calls);
      Associative(WalkLinks(t, op, link, true), WalkDevices(t, op, link, |t.devs|),
                  TopCall(t, op, TopPerLink(op, link), t.top.ops[op].perLink, true));
    }
    calls := TopUp(t, op, TopPerDevice(op), t.top.ops[op].perDevice, done[..], Place(|t.top.linkIds|, 0), calls);
  }

  method ClearDone(t: Topology, done: array<bool>)
    requires Valid(t) && done.Length == MAX_DEVS
    modifies done
    ensures forall d :: 0 <= d < |t.devs| ==> !done[d]
  {
    for dev := 0 to |t.devs|
      invariant forall d :: 0 <= d < dev ==> !done[d]
    {
      done[dev] := false;
    }
  }

  lemma NothingDone(t: Topology, op: nat, done: seq<bool>, link: nat)
    requires Valid(t) && op < MAX_OPS && |done| == MAX_DEVS && link <= |t.top.linkIds|
    requires forall d :: 0 <= d < |t.devs| ==> !done[d]
    ensures Progress(t, op, [], done) && Kept([]) == [] && DoneFor(t, op, done, 0, |t.devs|, link, link)
    ensures forall up, p :: InOrder(t, [], up, p)
  {
  }

  /* ---------- Stopping ---------- */

  /** What is left of a walk shrinks from its end as its last call is made. */
  lemma TakenBack(calls: seq<Call>, total: seq<Call>, shorter: seq<Call>, last: seq<Call>)
    requires calls + Reverse(shorter + last) == total
    ensures calls + Reverse(last) + Reverse(shorter) == total
  {
    ReverseBoth(shorter, last);
    Associative(calls, Reverse(last), Reverse(shorter));
  }

  lemma ReverseOne(x: Call)
    ensures Reverse([x]) == [x] && Reverse([]) == []
  {
    assert [x][..0] == [];
  }

  /** The links of one device on the way down. */
  method DeviceDown(t: Topology, op: nat, link: nat, dev: nat, done: array<bool>, calls0: seq<Call>)
    returns (calls: seq<Call>)
    requires Valid(t) && op < MAX_OPS && link < |t.top.linkIds| && dev < |t.devs|
    requires done.Length == MAX_DEVS && Progress(t, op, calls0, done[..])
    requires DoneFor(t, op, done[..], dev, dev + 1, link + 1, |t.top.linkIds|)
    requires InOrder(t, calls0, false, Place(link, dev))
    modifies done
    ensures Progress(t, op, calls, done[..]) && InOrder(t, calls, false, Place(link, dev))
    ensures done[..] == Met(t, op, old(done[..]), dev, t.top.linkIds[link] in t.devs[dev].linkIds)
    ensures Kept(calls) == Kept(calls0) + Reverse(WalkDevice(t, op, link, dev, |t.devs[dev].linkIds|))
  {
    hide Progress, Kept, Reverse, InOrder, DoneFor, PlaceOf, Asks;
    LinkPlace(t, op, link, dev, false);
    calls := calls0;
    var ids := t.devs[dev].linkIds;
    ghost var total := Kept(calls0) + Reverse(WalkDevice(t, op, link, dev, |ids|));
    for i := |ids| downto 0
      invariant Progress(t, op, calls, done[..]) && InOrder(t, calls, false, Place(link, dev))
      invariant done[..] == Met(t, op, old(done[..]), dev, t.top.linkIds[link] in ids[i..])
      invariant Kept(calls) + Reverse(WalkDevice(t, op, link, dev, i)) == total
    {
      assert ids[i..] == [ids[i]] + ids[i + 1..];
      ghost var shorter := WalkDevice(t, op, link, dev, i);
      assert shorter + [] == shorter;
      if ids[i] == t.top.linkIds[link] {
        if t.devs[dev].ops[op].perDevice && !done[dev] {
          OneMore(t, op, calls, done[..], PerDevice(op, dev));
          PerDeviceDown(t, op, old(done[..]), dev, link);
          InOrderOne(t, calls, false, Place(link, dev), PerDevice(op, dev));
          calls := calls + [PerDevice(op, dev)];
          ghost var before := done[..];
          done[dev] := true;
          assert done[..] == before[dev := true];
        }
        if t.devs[dev].ops[op].perLink {
          TakenBack(Kept(calls), total, shorter, [PerLink(op, dev, link)]);
          ReverseOne(PerLink(op, dev, link));
          OneMore(t, op, calls, done[..], PerLink(op, dev, link));
          InOrderOne(t, calls, false, Place(link, dev), PerLink(op, dev, link));
          calls := calls + [PerLink(op, dev, link)];
        }
      }
    }
    ReverseOne(Sysref(op));
    assert ids[0..] == ids;
  }

  /** A call of the top device on the way down. */
  method TopDown(t: Topology, op: nat, call: Call, present: bool, ghost done: seq<bool>, ghost p: Place,
                 calls0: seq<Call>)
    returns (calls: seq<Call>)
    requires Valid(t) && op < MAX_OPS && Progress(t, op, calls0, done) && call.op == op
    requires (call.TopPerLink? || call.TopPerDevice?) && PlaceOf(t, call, false) == p && InOrder(t, calls0, false, p)
    ensures Progress(t, op, calls, done) && InOrder(t, calls, false, p)
    ensures Kept(calls) == Kept(calls0) + Reverse(TopCall(t, op, call, present, false))
  {
    hide Progress, Kept, Reverse, InOrder;
    calls := calls0;
    ReverseOne(call);
    if present {
      InOrderOne(t, calls, false, p, call);
      OneMore(t, op, calls, done, call);
      calls := calls + [call];
    }
  }

  /** One link on the way down: the top device, then the devices from the last to the first. */
  method LinkDown(t: Topology, op: nat, link: nat, done: array<bool>, calls0: seq<Call>) returns (calls: seq<Call>)
    requires Valid(t) && op < MAX_OPS && link < |t.top.linkIds|
    requires done.Length == MAX_DEVS && Progress(t, op, calls0, done[..])
    requires DoneFor(t, op, done[..], 0, |t.devs|, link + 1, |t.top.linkIds|)
    requires InOrder(t, calls0, false, Place(link + 1, 0))
    modifies done
    ensures Progress(t, op, calls, done[..]) && DoneFor(t, op, done[..], 0, |t.devs|, link, |t.top.linkIds|)
    ensures InOrder(t, calls, false, Place(link, 0))
    ensures Kept(calls)
         == Kept(calls0) + Reverse(WalkDevices(t, op, link, |t.devs|)
                                   + TopCall(t, op, TopPerLink(op, link), t.top.ops[op].perLink, false))
  {
    hide Progress, Kept, Has, Shares, Met, WalkDevice, Reverse, TopCall, InOrder;
    ghost var n := |t.top.linkIds|;
    ghost var top := TopCall(t, op, TopPerLink(op, link), t.top.ops[op].perLink, false);
    ghost var total := Kept(calls0) + Reverse(WalkDevices(t, op, link, |t.devs|) + top);
    TakenBack(Kept(calls0), total, WalkDevices(t, op, link, |t.devs|), top);
    InOrderAt(t, calls0, false, Place(link + 1, 0), Place(link, |t.devs|));
    calls := TopDown(t, op, TopPerLink(op, link), t.top.ops[op].perLink, done[..], Place(link, |t.devs|), calls0);
    for dev := |t.devs| downto 0
      invariant Progress(t, op, calls, done[..]) && InOrder(t, calls, false, Place(link, dev))
      invariant DoneFor(t, op, done[..], 0, dev, link + 1, n) && DoneFor(t, op, done[..], dev, |t.devs|, link, n)
      invariant Kept(calls) + Reverse(WalkDevices(t, op, link, dev)) == total
    {
      ghost var before := done[..];
      MetOne(t, op, before, dev, link, link + 1, n, link, n);
      TakenBack(Kept(calls), total, WalkDevices(t, op, link, dev),
                WalkDevice(t, op, link, dev, |t.devs[dev].linkIds|));
      InOrderAt(t, calls, false, Place(link, dev + 1), Place(link, dev));
      calls := DeviceDown(t, op, link, dev, done, calls);
      MetOthers(t, op, before, dev, t.top.linkIds[link] in t.devs[dev].linkIds, done[..]);
    }
    ReverseOne(Sysref(op));
  }

  /** One operation on the way down. */
  method OpDown(t: Topology, op: nat, done: array<bool>) returns (calls: seq<Call>)
    requires Valid(t) && op < MAX_OPS && done.Length == MAX_DEVS
    modifies done
    ensures Progress(t, op, calls, done[..]) && DoneFor(t, op, done[..], 0, |t.devs|, 0, |t.top.linkIds|)
    ensures Kept(calls) == Reverse(WalkOp(t, op, false)) && InPlace(t, calls, false) && Requested(t, calls, false)
  {
    hide Kept, Has, Shares, WalkDevices, TopCall, Reverse, InPlace, Requested;
    ClearDone(t, done);
    var n := |t.top.linkIds|;
    NothingDone(t, op, done[..], n);
    ReverseOne(Sysref(op));
    calls := [];
    ghost var top := TopCall(t, op, TopPerDevice(op), t.top.ops[op].perDevice, false);
    ghost var total := Reverse(WalkOp(t, op, false));
    assert Kept(calls) + total == total;
    TakenBack(Kept(calls), total, WalkLinks(t, op, n, false), top);
    hide Progress, DoneFor;
    calls := TopDown(t, op, TopPerDevice(op), t.top.ops[op].perDevice, done[..], Place(n, 0), calls);
    for link := n downto 0
      invariant Progress(t, op, calls, done[..]) && DoneFor(t, op, done[..], 0, |t.devs|, link, n)
      invariant InOrder(t, calls, false, Place(link, 0))
      invariant Kept(calls) + Reverse(WalkLinks(t, op, link, false)) == total
    {
      ghost var devices := WalkDevices(t, op, link, |t.devs|);
      ghost var topLink := TopCall(t, op, TopPerLink(op, link), t.top.ops[op].perLink, false);
      Associative(WalkLinks(t, op, link, false), devices, topLink);
      TakenBack(Kept(calls), total, WalkLinks(t, op, link, false), devices + topLink);
      calls := LinkDown(t, op, link, done, calls);
    }
  }

  /* ---------- Whole runs ---------- */

  /** The operations lo..hi are done: each device below the top that has a per-device callback and
      takes part in a link had it called exactly once for each, before its per-link calls. */
  ghost predicate Complete(t: Topology, calls: seq<Call>, lo: nat, hi: nat)
    requires Valid(t)
  {
    && DeviceFirst(t, calls)
    && (forall i :: 0 <= i < |calls| ==> lo <= calls[i].op < hi)
    && (forall o, d :: 0 <= o < MAX_OPS && 0 <= d < |t.devs| ==>
          Count(calls, PerDevice(o, d))
          == if lo <= o < hi && Has(t, o, d) && Shares(t, d, 0, |t.top.linkIds|) then 1 else 0)
  }

  /** The operations follow one another in order. */
  ghost predicate Ascending(calls: seq<Call>) {
    forall i, j :: 0 <= i < j < |calls| ==> calls[i].op <= calls[j].op
  }

  ghost predicate Descending(calls: seq<Call>) {
    forall i, j :: 0 <= i < j < |calls| ==> calls[i].op >= calls[j].op
  }

  lemma {:induction false} CountOther(s: seq<Call>, op: nat, c: Call)
    requires c.op != op && forall i :: 0 <= i < |s| ==> s[i].op == op
    ensures Count(s, c) == 0
  {
    if s != [] {
      CountOther(s[..|s| - 1], op, c);
    }
  }

  lemma DeviceFirstBoth(t: Topology, a: seq<Call>, b: seq<Call>)
    requires Valid(t) && DeviceFirst(t, a) && DeviceFirst(t, b)
    ensures DeviceFirst(t, a + b)
  {
    hide Has;
    forall i | 0 <= i < |a + b|
      ensures if i < |a| then (a + b)[i] == a[i] && (a + b)[..i] == a[..i]
              else (a + b)[i] == b[i - |a|] && (a + b)[..i] == a + b[..i - |a|]
    {
    }
  }

  /** A run goes on with the next operation, at either end. */
  lemma NextOp(t: Topology, calls: seq<Call>, lo: nat, hi: nat, op: nat, seg: seq<Call>, done: seq<bool>,
               lo': nat, hi': nat)
    requires Valid(t) && op < MAX_OPS && Complete(t, calls, lo, hi) && Progress(t, op, seg, done)
    requires DoneFor(t, op, done, 0, |t.devs|, 0, |t.top.linkIds|)
    requires lo <= hi && ((lo' == lo && op == hi && hi' == hi + 1) || (hi' == hi && op == lo' && lo == lo' + 1))
    ensures Complete(t, calls + seg, lo', hi')
    ensures lo' == lo && Ascending(calls) ==> Ascending(calls + seg)
    ensures hi' == hi && Descending(calls) ==> Descending(calls + seg)
  {
    hide DeviceFirst, Has, Shares;
    DeviceFirstBoth(t, calls, seg);
    forall o, d | 0 <= o < MAX_OPS && 0 <= d < |t.devs|
      ensures Count(calls + seg, PerDevice(o, d))
           == if lo' <= o < hi' && Has(t, o, d) && Shares(t, d, 0, |t.top.linkIds|) then 1 else 0
    {
      CountBoth(calls, seg, PerDevice(o, d));
      if o != op {
        CountOther(seg, op, PerDevice(o, d));
      }
    }
  }

  /** jesd204_fsm_start. */
  method Start(t: Topology) returns (calls: seq<Call>)
    requires Valid(t)
    ensures Kept(calls) == Walk(t, MAX_OPS, true)
    ensures Complete(t, calls, 0, MAX_OPS) && Ascending(calls)
    ensures InPlace(t, calls, true) && Requested(t, calls, true)
    ensures AsOften(t, calls, true)
  {
    hide Kept, Complete, Ascending, Descending, Progress, DoneFor, WalkOp, InPlace, Requested, Count, Expected,
         AsOften;
    var done := new bool[MAX_DEVS];
    calls := [];
    NothingYet(t, 0);
    for op := 0 to MAX_OPS
      invariant Kept(calls) == Walk(t, op, true) && Complete(t, calls, 0, op) && Ascending(calls)
      invariant InPlace(t, calls, true) && Requested(t, calls, true)
    {
      var more := OpUp(t, op, done);
      NextOp(t, calls, 0, op, op, more, done[..], 0, op + 1);
      OtherOps(t, calls, 0, op, op, more, done[..]);
      InOrderBoth(t, calls, more, true);
      KeptBoth(calls, more);
      calls := calls + more;
    }
    forall c: Call | !c.PerDevice? ensures Count(calls, c) == Expected(t, c, true) {
      CountKept(calls, c);
      CountWalk(t, MAX_OPS, true, c);
      BeyondOps(t, c, true);
    }
    AllCounted(t, calls, true);
  }

  /** jesd204_fsm_stop. */
  method Stop(t: Topology) returns (calls: seq<Call>)
    requires Valid(t)
    ensures Kept(calls) == Reverse(Walk(t, MAX_OPS, false))
    ensures Complete(t, calls, 0, MAX_OPS) && Descending(calls)
    ensures InPlace(t, calls, false) && Requested(t, calls, false)
    ensures AsOften(t, calls, false)
  {
    hide Kept, Complete, Ascending, Descending, Progress, DoneFor, WalkOp, Reverse, InPlace, Requested, Count, Expected,
         AsOften;
    var done := new bool[MAX_DEVS];
    calls := [];
    ghost var total := Reverse(Walk(t, MAX_OPS, false));
    NothingYet(t, MAX_OPS);
    assert [] + total == total;
    for op := MAX_OPS downto 0
      invariant Kept(calls) + Reverse(Walk(t, op, false)) == total
      invariant Complete(t, calls, op, MAX_OPS) && Descending(calls)
      invariant InPlace(t, calls, false) && Requested(t, calls, false)
    {
      TakenBack(Kept(calls), total, Walk(t, op, false), WalkOp(t, op, false));
      var more := OpDown(t, op, done);
      NextOp(t, calls, op + 1, MAX_OPS, op, more, done[..], op, MAX_OPS);
      OtherOps(t, calls, op + 1, MAX_OPS, op, more, done[..]);
      InOrderBoth(t, calls, more, false);
      KeptBoth(calls, more);
      calls := calls + more;
    }
    ReverseOne(Sysref(0));
    assert Kept(calls) + [] == Kept(calls) == total;
    forall c: Call | !c.PerDevice? ensures Count(calls, c) == Expected(t, c, false) {
      CountKept(calls, c);
      CountReverse(Walk(t, MAX_OPS, false), c);
      CountWalk(t, MAX_OPS, false, c);
      BeyondOps(t, c, false);
    }
    AllCounted(t, calls, false);
  }

  lemma AllCounted(t: Topology, calls: seq<Call>, up: bool)
    requires Valid(t) && Complete(t, calls, 0, MAX_OPS)
    requires forall c: Call :: !c.PerDevice? ==> Count(calls, c) == Expected(t, c, up)
    ensures AsOften(t, calls, up)
  {
    hide Count, Expected, Has, Shares, AsOften, DeviceFirst;
    AsExpected(t, calls, up);
  }

  lemma BeyondOps(t: Topology, c: Call, up: bool)
    requires Valid(t)
    ensures c.op >= MAX_OPS ==> Expected(t, c, up) == 0
  {
  }

  lemma OtherOps(t: Topology, calls: seq<Call>, lo: nat, hi: nat, op: nat, seg: seq<Call>, done: seq<bool>)
    requires Valid(t) && Complete(t, calls, lo, hi) && Progress(t, op, seg, done) && !(lo <= op < hi)
    ensures forall i, j :: 0 <= i < |calls| && 0 <= j < |seg| ==> calls[i].op != seg[j].op
  {
    hide DeviceFirst, Has, Shares, Count;
  }

  /** Starting and then stopping a topology: what the second does undoes the first, last call first. */
  method StartAndStop(t: Topology) returns (up: seq<Call>, down: seq<Call>)
    requires Valid(t)
    ensures var bringUp := Quiet(Kept(up)); var tearDown := Kept(down);
            && |tearDown| == |bringUp|
            && forall i :: 0 <= i < |tearDown| ==> tearDown[i] == bringUp[|bringUp| - 1 - i]
    ensures AsOften(t, up, true) && AsOften(t, down, false)
    ensures DeviceFirst(t, up) && DeviceFirst(t, down)
    ensures InPlace(t, up, true) && Requested(t, up, true) && InPlace(t, down, false)
  {
    hide Walk, Quiet, Kept, Count, Reverse, Has, Shares, DeviceFirst, AsOften, InPlace, Requested;
    up := Start(t);
    down := Stop(t);
    QuietWalk(t, MAX_OPS);
    var walk := Walk(t, MAX_OPS, false);
    forall i | 0 <= i < |walk| ensures Reverse(walk)[i] == walk[|walk| - 1 - i] {
      ReverseAt(walk, i);
    }
  }

  lemma NothingYet(t: Topology, op: nat)
    requires Valid(t)
    ensures Complete(t, [], op, op) && Ascending([]) && Descending([]) && Kept([]) == []
    ensures forall up :: InPlace(t, [], up) && Requested(t, [], up)
  {
  }
}
