/**
 The calls that starting and stopping a JESD204 topology make, jesd204/jesd204-fsm.c.

 `Walk` lists the per-link calls and those of the top device in starting order; starting makes exactly
 these, stopping makes them in reverse.  The per-device calls of the other devices are made once each,
 at the first link a device takes part in.  How often each call is made, in which order, and which calls
 a sysref request follows, is stated and proved apart from `Walk`.
 */
module Jesd204Spec {
  /** __JESD204_MAX_OPS and the size of per_device_op_done. */
  const MAX_OPS := 17
  const MAX_DEVS := 16

  /** struct jesd204_state_op: which callbacks there are. */
  datatype StateOp = StateOp(perDevice: bool, perLink: bool, postStateSysref: bool)

  /** A device with the ids of its links; for the top device, the links of the topology. */
  datatype Device = Device(linkIds: seq<nat>, ops: seq<StateOp>)

  datatype Topology = Topology(top: Device, devs: seq<Device>)

  datatype Call =
    | PerDevice(op: nat, dev: nat)
    | PerLink(op: nat, dev: nat, link: nat)
    | TopPerDevice(op: nat)
    | TopPerLink(op: nat, link: nat)
    | Sysref(op: nat)

  predicate Valid(t: Topology) {
    && |t.devs| <= MAX_DEVS && |t.top.ops| == MAX_OPS
    && forall d :: 0 <= d < |t.devs| ==> |t.devs[d].ops| == MAX_OPS
  }

  /* ---------- The walk ---------- */

  /** The per-link calls of one device for the first `n` of its links. */
  function WalkDevice(t: Topology, op: nat, link: nat, dev: nat, n: nat): seq<Call>
    requires Valid(t) && op < MAX_OPS && link < |t.top.linkIds| && dev < |t.devs| && n <= |t.devs[dev].linkIds|
  {
    if n == 0 then []
    else
      WalkDevice(t, op, link, dev, n - 1)
      + if t.devs[dev].linkIds[n - 1] == t.top.linkIds[link] && t.devs[dev].ops[op].perLink
        then [PerLink(op, dev, link)] else []
  }

  function WalkDevices(t: Topology, op: nat, link: nat, n: nat): seq<Call>
    requires Valid(t) && op < MAX_OPS && link < |t.top.linkIds| && n <= |t.devs|
  {
    if n == 0 then []
    else WalkDevices(t, op, link, n - 1) + WalkDevice(t, op, link, n - 1, |t.devs[n - 1].linkIds|)
  }

  /** A call of the top device, followed by a sysref request on the way up when it asks for one. */
  function TopCall(t: Topology, op: nat, call: Call, present: bool, up: bool): seq<Call>
    requires Valid(t) && op < MAX_OPS
  {
    if !present then [] else if up && t.top.ops[op].postStateSysref then [call, Sysref(op)] else [call]
  }

  function WalkLinks(t: Topology, op: nat, n: nat, up: bool): seq<Call>
    requires Valid(t) && op < MAX_OPS && n <= |t.top.linkIds|
  {
    if n == 0 then []
    else
      WalkLinks(t, op, n - 1, up) + WalkDevices(t, op, n - 1, |t.devs|)
      + TopCall(t, op, TopPerLink(op, n - 1), t.top.ops[op].perLink, up)
  }

  function WalkOp(t: Topology, op: nat, up: bool): seq<Call>
    requires Valid(t) && op < MAX_OPS
  {
    WalkLinks(t, op, |t.top.linkIds|, up) + TopCall(t, op, TopPerDevice(op), t.top.ops[op].perDevice, up)
  }

  /** The first `n` operations: for each link the devices in order, the top device last. */
  function Walk(t: Topology, n: nat, up: bool): seq<Call>
    requires Valid(t) && n <= MAX_OPS
  {
    if n == 0 then [] else Walk(t, n - 1, up) + WalkOp(t, n - 1, up)
  }

  function Reverse(s: seq<Call>): (r: seq<Call>)
    ensures |r| == |s|
  {
    if s == [] then [] else [s[|s| - 1]] + Reverse(s[..|s| - 1])
  }

  lemma {:induction false} ReverseBoth(a: seq<Call>, b: seq<Call>)
    ensures Reverse(a + b) == Reverse(b) + Reverse(a)
    decreases |b|
  {
    if b == [] {
      assert a + b == a;
    } else {
      var b' := b[..|b| - 1];
      assert (a + b)[..|a + b| - 1] == a + b';
      ReverseBoth(a, b');
    }
  }

  lemma {:induction false} ReverseAt(s: seq<Call>, i: nat)
    requires i < |s|
    ensures Reverse(s)[i] == s[|s| - 1 - i]
    decreases |s|
  {
    if i > 0 {
      ReverseAt(s[..|s| - 1], i - 1);
    }
  }

  /** The calls other than the per-device calls of devices below the top. */
  function Kept(s: seq<Call>): seq<Call> {
    if s == [] then [] else Kept(s[..|s| - 1]) + if s[|s| - 1].PerDevice? then [] else [s[|s| - 1]]
  }

  /** The calls other than sysref requests. */
  function Quiet(s: seq<Call>): seq<Call> {
    if s == [] then [] else Quiet(s[..|s| - 1]) + if s[|s| - 1].Sysref? then [] else [s[|s| - 1]]
  }

  lemma {:induction false} KeptBoth(a: seq<Call>, b: seq<Call>)
    ensures Kept(a + b) == Kept(a) + Kept(b)
    decreases |b|
  {
    if b == [] {
      assert a + b == a;
    } else {
      var b' := b[..|b| - 1];
      assert (a + b)[..|a + b| - 1] == a + b';
      KeptBoth(a, b');
    }
  }

  lemma {:induction false} QuietBoth(a: seq<Call>, b: seq<Call>)
    ensures Quiet(a + b) == Quiet(a) + Quiet(b)
    decreases |b|
  {
    if b == [] {
      assert a + b == a;
    } else {
      var b' := b[..|b| - 1];
      assert (a + b)[..|a + b| - 1] == a + b';
      QuietBoth(a, b');
    }
  }

  lemma {:induction false} QuietDevice(t: Topology, op: nat, link: nat, dev: nat, n: nat)
    requires Valid(t) && op < MAX_OPS && link < |t.top.linkIds| && dev < |t.devs| && n <= |t.devs[dev].linkIds|
    ensures Quiet(WalkDevice(t, op, link, dev, n)) == WalkDevice(t, op, link, dev, n)
  {
    if n > 0 {
      QuietDevice(t, op, link, dev, n - 1);
      var s := WalkDevice(t, op, link, dev, n);
      if s != WalkDevice(t, op, link, dev, n - 1) {
        assert s[..|s| - 1] == WalkDevice(t, op, link, dev, n - 1);
      }
    }
  }

  lemma {:induction false} QuietDevices(t: Topology, op: nat, link: nat, n: nat)
    requires Valid(t) && op < MAX_OPS && link < |t.top.linkIds| && n <= |t.devs|
    ensures Quiet(WalkDevices(t, op, link, n)) == WalkDevices(t, op, link, n)
  {
    if n > 0 {
      QuietDevices(t, op, link, n - 1);
      QuietDevice(t, op, link, n - 1, |t.devs[n - 1].linkIds|);
      QuietBoth(WalkDevices(t, op, link, n - 1), WalkDevice(t, op, link, n - 1, |t.devs[n - 1].linkIds|));
    }
  }

  lemma QuietTop(t: Topology, op: nat, call: Call, present: bool)
    requires Valid(t) && op < MAX_OPS && !call.Sysref?
    ensures Quiet(TopCall(t, op, call, present, true)) == TopCall(t, op, call, present, false)
  {
    assert [call, Sysref(op)][..1] == [call] && [call][..0] == [];
    assert Quiet([call]) == [call];
  }

  lemma QuietNone()
    ensures Quiet([]) == []
  {
  }

  lemma {:induction false} QuietLinks(t: Topology, op: nat, n: nat)
    requires Valid(t) && op < MAX_OPS && n <= |t.top.linkIds|
    ensures Quiet(WalkLinks(t, op, n, true)) == WalkLinks(t, op, n, false)
  {
    hide Quiet, WalkDevices, TopCall;
    if n > 0 {
      var a, b := WalkLinks(t, op, n - 1, true), WalkDevices(t, op, n - 1, |t.devs|);
      var c := TopCall(t, op, TopPerLink(op, n - 1), t.top.ops[op].perLink, true);
      QuietLinks(t, op, n - 1);
      QuietDevices(t, op, n - 1, |t.devs|);
      QuietTop(t, op, TopPerLink(op, n - 1), t.top.ops[op].perLink);
      QuietBoth(a, b);
      QuietBoth(a + b, c);
    } else {
      QuietNone();
    }
  }

  lemma QuietOp(t: Topology, op: nat)
    requires Valid(t) && op < MAX_OPS
    ensures Quiet(WalkOp(t, op, true)) == WalkOp(t, op, false)
  {
    hide Quiet, WalkLinks, TopCall;
    var top := t.top.ops[op].perDevice;
    QuietLinks(t, op, |t.top.linkIds|);
    QuietTop(t, op, TopPerDevice(op), top);
    QuietBoth(WalkLinks(t, op, |t.top.linkIds|, true), TopCall(t, op, TopPerDevice(op), top, true));
  }

  /** Apart from the sysref requests the walk up is the walk that stopping reverses. */
  lemma {:induction false} QuietWalk(t: Topology, n: nat)
    requires Valid(t) && n <= MAX_OPS
    ensures Quiet(Walk(t, n, true)) == Walk(t, n, false)
  {
    hide WalkOp;
    if n > 0 {
      hide *;
      QuietWalk(t, n - 1);
      QuietStep(t, n);
    }
  }

  lemma QuietStep(t: Topology, n: nat)
    requires Valid(t) && 0 < n <= MAX_OPS && Quiet(Walk(t, n - 1, true)) == Walk(t, n - 1, false)
    ensures Quiet(Walk(t, n, true)) == Walk(t, n, false)
  {
    hide WalkOp, Quiet;
    QuietOp(t, n - 1);
    QuietBoth(Walk(t, n - 1, true), WalkOp(t, n - 1, true));
  }

  /* ---------- Counting ---------- */

  function Count(s: seq<Call>, c: Call): nat {
    if s == [] then 0 else Count(s[..|s| - 1], c) + if s[|s| - 1] == c then 1 else 0
  }

  lemma {:induction false} CountBoth(a: seq<Call>, b: seq<Call>, c: Call)
    ensures Count(a + b, c) == Count(a, c) + Count(b, c)
    decreases |b|
  {
    if b == [] {
      assert a + b == a;
    } else {
      var b' := b[..|b| - 1];
      assert (a + b)[..|a + b| - 1] == a + b';
      CountBoth(a, b', c);
    }
  }

  lemma {:induction false} CountedIsIn(s: seq<Call>, c: Call)
    ensures Count(s, c) > 0 <==> c in s
  {
    if s != [] {
      CountedIsIn(s[..|s| - 1], c);
    }
  }

  /** The device has a per-device callback for the operation. */
  predicate Has(t: Topology, op: nat, dev: nat)
    requires Valid(t) && op < MAX_OPS && dev < |t.devs|
  {
    t.devs[dev].ops[op].perDevice
  }

  /** The device takes part in one of the links lo..hi of the topology. */
  predicate Shares(t: Topology, dev: nat, lo: nat, hi: nat)
    requires dev < |t.devs| && hi <= |t.top.linkIds|
  {
    exists l :: lo <= l < hi && t.top.linkIds[l] in t.devs[dev].linkIds
  }

  lemma CountOne(calls: seq<Call>, x: Call, c: Call)
    ensures Count(calls + [x], c) == Count(calls, c) + if x == c then 1 else 0
  {
    assert (calls + [x])[..|calls|] == calls;
  }

  /* ---------- How often each call is made ---------- */

  /** A device that takes part in a link has its per-link callback called at it, as often as it lists the
      link; the top device its per-link callback once at each link and its per-device callback once; and
      the sysref request comes, on the way up only, once for each call of the top device that asks for it. */
  function Expected(t: Topology, c: Call, up: bool): nat
    requires Valid(t)
  {
    if c.op >= MAX_OPS then 0
    else
      var top, links := t.top.ops[c.op], |t.top.linkIds|;
      match c
      case PerLink(op, dev, link) =>
        if dev < |t.devs| && link < links && t.devs[dev].ops[op].perLink
        then multiset(t.devs[dev].linkIds)[t.top.linkIds[link]] else 0
      case TopPerLink(_, link) => if link < links && top.perLink then 1 else 0
      case TopPerDevice(_) => if top.perDevice then 1 else 0
      case Sysref(_) =>
        if up && top.postStateSysref then (if top.perLink then links else 0) + (if top.perDevice then 1 else 0) else 0
      case PerDevice(op, dev) => if dev < |t.devs| && Has(t, op, dev) && Shares(t, dev, 0, links) then 1 else 0
  }

  lemma CountMaybe(calls: seq<Call>, made: bool, x: Call, c: Call)
    ensures Count(calls + if made then [x] else [], c) == Count(calls, c) + if made && x == c then 1 else 0
  {
    CountOne(calls, x, c);
    assert calls + [] == calls;
  }

  /** The positions of `id` among the first `n`. */
  function Positions(ids: seq<nat>, n: nat, id: nat): nat
    requires n <= |ids|
  {
    if n == 0 then 0 else Positions(ids, n - 1, id) + if ids[n - 1] == id then 1 else 0
  }

  lemma {:induction false} PositionsCount(ids: seq<nat>, n: nat, id: nat)
    requires n <= |ids|
    ensures Positions(ids, n, id) == multiset(ids[..n])[id]
  {
    if n > 0 {
      PositionsCount(ids, n - 1, id);
      assert ids[..n] == ids[..n - 1] + [ids[n - 1]];
    }
  }

  lemma {:induction false} CountDevice(t: Topology, op: nat, link: nat, dev: nat, n: nat, c: Call)
    requires Valid(t) && op < MAX_OPS && link < |t.top.linkIds| && dev < |t.devs| && n <= |t.devs[dev].linkIds|
    ensures Count(WalkDevice(t, op, link, dev, n), c)
         == if c == PerLink(op, dev, link) && t.devs[dev].ops[op].perLink
            then Positions(t.devs[dev].linkIds, n, t.top.linkIds[link]) else 0
  {
    hide Count;
    if n > 0 {
      CountDevice(t, op, link, dev, n - 1, c);
      var made := t.devs[dev].linkIds[n - 1] == t.top.linkIds[link] && t.devs[dev].ops[op].perLink;
      CountMaybe(WalkDevice(t, op, link, dev, n - 1), made, PerLink(op, dev, link), c);
    } else {
      CountNone(c);
    }
  }

  lemma {:induction false} CountDevices(t: Topology, op: nat, link: nat, n: nat, c: Call)
    requires Valid(t) && op < MAX_OPS && link < |t.top.linkIds| && n <= |t.devs|
    ensures Count(WalkDevices(t, op, link, n), c)
         == if c.PerLink? && c.op == op && c.link == link && c.dev < n && t.devs[c.dev].ops[op].perLink
            then multiset(t.devs[c.dev].linkIds)[t.top.linkIds[link]] else 0
  {
    hide Count, WalkDevice;
    if n > 0 {
      CountDevices(t, op, link, n - 1, c);
      CountAllLinks(t, op, link, n - 1, c);
      CountBoth(WalkDevices(t, op, link, n - 1), WalkDevice(t, op, link, n - 1, |t.devs[n - 1].linkIds|), c);
    } else {
      CountNone(c);
    }
  }

  lemma CountAllLinks(t: Topology, op: nat, link: nat, dev: nat, c: Call)
    requires Valid(t) && op < MAX_OPS && link < |t.top.linkIds| && dev < |t.devs|
    ensures Count(WalkDevice(t, op, link, dev, |t.devs[dev].linkIds|), c)
         == if c == PerLink(op, dev, link) && t.devs[dev].ops[op].perLink
            then multiset(t.devs[dev].linkIds)[t.top.linkIds[link]] else 0
  {
    hide Count, WalkDevice;
    var ids := t.devs[dev].linkIds;
    CountDevice(t, op, link, dev, |ids|, c);
    PositionsCount(ids, |ids|, t.top.linkIds[link]);
    assert ids[..|ids|] == ids;
  }

  lemma CountTop(t: Topology, op: nat, call: Call, present: bool, up: bool, c: Call)
    requires Valid(t) && op < MAX_OPS && !call.Sysref?
    ensures Count(TopCall(t, op, call, present, up), c)
         == if present && (c == call || (up && t.top.ops[op].postStateSysref && c == Sysref(op))) then 1 else 0
  {
    CountOne([], call, c);
    CountOne([call], Sysref(op), c);
    assert [] + [call] == [call] && [call] + [Sysref(op)] == [call, Sysref(op)];
  }

  /** The calls of the first `n` links of an operation. */
  function ExpectedOfLinks(t: Topology, op: nat, n: nat, c: Call, up: bool): nat
    requires Valid(t) && op < MAX_OPS && n <= |t.top.linkIds|
  {
    var top := t.top.ops[op];
    if c.op != op then 0
    else
      match c
      case PerLink(_, dev, link) => if link < n then Expected(t, c, up) else 0
      case TopPerLink(_, link) => if link < n then Expected(t, c, up) else 0
      case Sysref(_) => if up && top.postStateSysref && top.perLink then n else 0
      case _ => 0
  }

  lemma {:induction false} CountLinks(t: Topology, op: nat, n: nat, up: bool, c: Call)
    requires Valid(t) && op < MAX_OPS && n <= |t.top.linkIds|
    ensures Count(WalkLinks(t, op, n, up), c) == ExpectedOfLinks(t, op, n, c, up)
  {
    hide Has, Shares, TopCall, WalkDevices, Count;
    if n > 0 {
      var a, b := WalkLinks(t, op, n - 1, up), WalkDevices(t, op, n - 1, |t.devs|);
      var call := TopPerLink(op, n - 1);
      CountLinks(t, op, n - 1, up, c);
      CountDevices(t, op, n - 1, |t.devs|, c);
      CountTop(t, op, call, t.top.ops[op].perLink, up, c);
      CountBoth(a, b, c);
      CountBoth(a + b, TopCall(t, op, call, t.top.ops[op].perLink, up), c);
    } else {
      CountNone(c);
    }
  }

  lemma CountNone(c: Call)
    ensures Count([], c) == 0
  {
  }

  /** How often the walk makes each call. */
  lemma {:induction false} CountWalk(t: Topology, n: nat, up: bool, c: Call)
    requires Valid(t) && n <= MAX_OPS && !c.PerDevice?
    ensures Count(Walk(t, n, up), c) == if c.op < n then Expected(t, c, up) else 0
  {
    hide TopCall, WalkLinks, Count;
    if n > 0 {
      var op, links := n - 1, |t.top.linkIds|;
      var a, b := WalkLinks(t, op, links, up), TopCall(t, op, TopPerDevice(op), t.top.ops[op].perDevice, up);
      CountWalk(t, n - 1, up, c);
      CountLinks(t, op, links, up, c);
      CountTop(t, op, TopPerDevice(op), t.top.ops[op].perDevice, up, c);
      CountBoth(a, b, c);
      CountBoth(Walk(t, n - 1, up), a + b, c);
    } else {
      CountNone(c);
    }
  }

  lemma {:induction false} CountKept(s: seq<Call>, c: Call)
    requires !c.PerDevice?
    ensures Count(Kept(s), c) == Count(s, c)
  {
    if s != [] {
      var init, x := s[..|s| - 1], s[|s| - 1];
      CountKept(init, c);
      CountOne(Kept(init), x, c);
      assert Kept(init) + [] == Kept(init);
    }
  }

  lemma {:induction false} CountReverse(s: seq<Call>, c: Call)
    ensures Count(Reverse(s), c) == Count(s, c)
  {
    if s != [] {
      var init, x := s[..|s| - 1], s[|s| - 1];
      CountReverse(init, c);
      CountBoth([x], Reverse(init), c);
      CountOne([], x, c);
      assert [] + [x] == [x];
    }
  }

  /** The same spelled out, by the calls as they are in the trace. */
  ghost predicate AsOften(t: Topology, calls: seq<Call>, up: bool)
    requires Valid(t)
  {
    var links := |t.top.linkIds|;
    && (forall o, d, l :: 0 <= o < MAX_OPS && 0 <= d < |t.devs| && 0 <= l < links ==>
          multiset(calls)[PerLink(o, d, l)]
          == if t.devs[d].ops[o].perLink then multiset(t.devs[d].linkIds)[t.top.linkIds[l]] else 0)
    && (forall o, l :: 0 <= o < MAX_OPS && 0 <= l < links ==>
          multiset(calls)[TopPerLink(o, l)] == if t.top.ops[o].perLink then 1 else 0)
    && (forall o :: 0 <= o < MAX_OPS ==>
          multiset(calls)[TopPerDevice(o)] == if t.top.ops[o].perDevice then 1 else 0)
    && (forall o, d :: 0 <= o < MAX_OPS && 0 <= d < |t.devs| ==>
          multiset(calls)[PerDevice(o, d)]
          == if t.devs[d].ops[o].perDevice && (exists id :: id in t.top.linkIds && id in t.devs[d].linkIds) then 1
             else 0)
    && (forall o :: 0 <= o < MAX_OPS ==>
          multiset(calls)[Sysref(o)]
          == if up && t.top.ops[o].postStateSysref
             then (if t.top.ops[o].perLink then links else 0) + (if t.top.ops[o].perDevice then 1 else 0)
             else 0)
  }

  lemma {:induction false} CountIsMultiset(s: seq<Call>, c: Call)
    ensures Count(s, c) == multiset(s)[c]
  {
    if s != [] {
      CountIsMultiset(s[..|s| - 1], c);
      assert s == s[..|s| - 1] + [s[|s| - 1]];
    }
  }

  lemma SharesMeans(t: Topology, dev: nat)
    requires dev < |t.devs|
    ensures Shares(t, dev, 0, |t.top.linkIds|) <==> exists id :: id in t.top.linkIds && id in t.devs[dev].linkIds
  {
  }

  lemma AsExpected(t: Topology, calls: seq<Call>, up: bool)
    requires Valid(t)
    requires forall c: Call :: !c.PerDevice? ==> Count(calls, c) == Expected(t, c, up)
    requires forall o, d :: 0 <= o < MAX_OPS && 0 <= d < |t.devs| ==>
               Count(calls, PerDevice(o, d)) == if Has(t, o, d) && Shares(t, d, 0, |t.top.linkIds|) then 1 else 0
    ensures AsOften(t, calls, up)
  {
    hide Count, Shares;
    forall c: Call ensures Count(calls, c) == multiset(calls)[c] {
      CountIsMultiset(calls, c);
    }
    forall d | 0 <= d < |t.devs|
      ensures Shares(t, d, 0, |t.top.linkIds|) <==> exists id :: id in t.top.linkIds && id in t.devs[d].linkIds
    {
      SharesMeans(t, d);
    }
  }

  /* ---------- In which order ---------- */

  /** Where a call stands within its operation, when links are walked up or down: its link and its device.
      The per-device call of a device stands at the first link on the way that it takes part in.  The top
      device stands behind the others, and with its per-device call behind all links. */
  datatype Place = Place(link: nat, dev: nat)

  function PlaceOf(t: Topology, c: Call, up: bool): Place {
    match c
    case PerLink(_, dev, link) => Place(link, dev)
    case PerDevice(_, dev) =>
      if dev >= |t.devs| then Place(0, dev)
      else Place(if up then FirstShared(t, dev, 0) else LastShared(t, dev, |t.top.linkIds|), dev)
    case TopPerLink(_, link) => Place(link, |t.devs|)
    case TopPerDevice(_) => Place(|t.top.linkIds|, 0)
    case Sysref(_) => Place(0, 0)
  }

  /** The first link from `l` on that a device takes part in, and the last one below `l`. */
  function FirstShared(t: Topology, dev: nat, l: nat): nat
    requires dev < |t.devs| && l <= |t.top.linkIds|
    decreases |t.top.linkIds| - l
  {
    if l == |t.top.linkIds| || t.top.linkIds[l] in t.devs[dev].linkIds then l else FirstShared(t, dev, l + 1)
  }

  function LastShared(t: Topology, dev: nat, l: nat): nat
    requires dev < |t.devs| && l <= |t.top.linkIds|
  {
    if l == 0 then 0 else if t.top.linkIds[l - 1] in t.devs[dev].linkIds then l - 1 else LastShared(t, dev, l - 1)
  }

  lemma {:induction false} FirstIs(t: Topology, dev: nat, l: nat, link: nat)
    requires dev < |t.devs| && l <= link < |t.top.linkIds|
    requires !Shares(t, dev, l, link) && t.top.linkIds[link] in t.devs[dev].linkIds
    ensures FirstShared(t, dev, l) == link
    decreases link - l
  {
    if l < link {
      FirstIs(t, dev, l + 1, link);
    }
  }

  lemma {:induction false} LastIs(t: Topology, dev: nat, l: nat, link: nat)
    requires dev < |t.devs| && link < l <= |t.top.linkIds|
    requires !Shares(t, dev, link + 1, l) && t.top.linkIds[link] in t.devs[dev].linkIds
    ensures LastShared(t, dev, l) == link
  {
    if link < l - 1 {
      LastIs(t, dev, l - 1, link);
    }
  }

  predicate NotAfter(p: Place, q: Place) {
    p.link < q.link || (p.link == q.link && p.dev <= q.dev)
  }

  /** From `p` the walk may go on to `q`. */
  predicate Ahead(p: Place, q: Place, up: bool) {
    if up then NotAfter(p, q) else NotAfter(q, p)
  }

  /** Within each operation the calls follow their places. */
  ghost predicate InPlace(t: Topology, calls: seq<Call>, up: bool) {
    forall i, j :: 0 <= i < j < |calls| && calls[i].op == calls[j].op && !calls[i].Sysref? && !calls[j].Sysref?
      ==> Ahead(PlaceOf(t, calls[i], up), PlaceOf(t, calls[j], up), up)
  }

  /** The calls of the top device that ask for a sysref request. */
  predicate Asks(t: Topology, c: Call)
    requires Valid(t)
  {
    (c.TopPerLink? || c.TopPerDevice?) && c.op < MAX_OPS && t.top.ops[c.op].postStateSysref
  }

  /** On the way up a sysref request follows exactly those calls, directly; on the way down there is none. */
  ghost predicate Requested(t: Topology, calls: seq<Call>, up: bool)
    requires Valid(t)
  {
    && (forall i :: 0 <= i < |calls| && up && Asks(t, calls[i]) ==>
          i + 1 < |calls| && calls[i + 1] == Sysref(calls[i].op))
    && (forall i :: 0 <= i < |calls| && calls[i].Sysref? ==>
          up && 0 < i && Asks(t, calls[i - 1]) && calls[i - 1].op == calls[i].op)
  }

  /** The calls of one operation so far are in order, and the walk stands at `p`. */
  ghost predicate InOrder(t: Topology, calls: seq<Call>, up: bool, p: Place)
    requires Valid(t)
  {
    && InPlace(t, calls, up) && Requested(t, calls, up)
    && forall i :: 0 <= i < |calls| && !calls[i].Sysref? ==> Ahead(PlaceOf(t, calls[i], up), p, up)
  }

  lemma InOrderAt(t: Topology, calls: seq<Call>, up: bool, p: Place, q: Place)
    requires Valid(t) && InOrder(t, calls, up, p) && Ahead(p, q, up)
    ensures InOrder(t, calls, up, q)
  {
    hide InPlace, Requested, PlaceOf;
  }

  /** One more call, at its place. */
  lemma InOrderOne(t: Topology, calls: seq<Call>, up: bool, p: Place, x: Call)
    requires Valid(t) && InOrder(t, calls, up, p) && !x.Sysref? && !(up && Asks(t, x))
    requires Ahead(p, PlaceOf(t, x, up), up)
    ensures InOrder(t, calls + [x], up, PlaceOf(t, x, up))
  {
    hide PlaceOf, Asks;
    InOrderAt(t, calls, up, p, PlaceOf(t, x, up));
    var all := calls + [x];
    forall i | 0 <= i < |calls| ensures all[i] == calls[i] {
    }
  }

  /** A call that asks for a sysref request, and the request. */
  lemma InOrderTwo(t: Topology, calls: seq<Call>, p: Place, x: Call)
    requires Valid(t) && InOrder(t, calls, true, p) && !x.Sysref? && Asks(t, x)
    requires Ahead(p, PlaceOf(t, x, true), true)
    ensures InOrder(t, calls + [x] + [Sysref(x.op)], true, PlaceOf(t, x, true))
  {
    hide PlaceOf, Asks;
    InOrderAt(t, calls, true, p, PlaceOf(t, x, true));
    var all := calls + [x] + [Sysref(x.op)];
    forall i | 0 <= i < |calls| ensures all[i] == calls[i] {
    }
    assert !Asks(t, Sysref(x.op)) by { NoneAsks(t, x.op); }
  }

  lemma NoneAsks(t: Topology, op: nat)
    requires Valid(t)
    ensures !Asks(t, Sysref(op))
  {
  }

  /** The calls of another operation. */
  lemma InOrderBoth(t: Topology, a: seq<Call>, b: seq<Call>, up: bool)
    requires Valid(t) && InPlace(t, a, up) && Requested(t, a, up) && InPlace(t, b, up) && Requested(t, b, up)
    requires forall i, j :: 0 <= i < |a| && 0 <= j < |b| ==> a[i].op != b[j].op
    ensures InPlace(t, a + b, up) && Requested(t, a + b, up)
  {
    hide PlaceOf, Asks, Ahead;
  }
}
