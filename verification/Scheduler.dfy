/**
 The round-robin scheduler of iio/iio.c in the networking build: `iio_step` accepts clients, takes
 one connection id from a circular buffer of 32-bit words, steps that connection and queues it
 again unless it was closed.  The pool of connection slots is the one of iio/iiod.c.

 The specification is a plain sequence of ids; the class `IioDesc` keeps it as words in a
 `CircularBuffer` with room for one word more than there are slots.
 */
module Scheduler {
  import opened Basics
  import opened Errno
  import opened CircularBuffers

  const MAX_CONNECTIONS := 10
  const WORD := 4

  /* ---------- 32-bit words in the byte buffer ---------- */

  type Word = x: int | 0 <= x < UINT32_MOD

  function Encode(x: Word): (s: seq<byte>)
    ensures |s| == WORD
  {
    [x % 256, x / 256 % 256, x / 65536 % 256, x / 16777216]
  }

  function Decode(s: seq<byte>): Word
    requires |s| == WORD
  {
    (s[0] as int) + 256 * (s[1] as int) + 65536 * (s[2] as int) + 16777216 * (s[3] as int)
  }

  lemma DecodeEncode(x: Word)
    ensures Decode(Encode(x)) == x
  {
    assert x / 65536 == x / 256 / 256 && x / 16777216 == x / 65536 / 256;
    assert x == x % 256 + 256 * (x / 256);
    assert x / 256 == x / 256 % 256 + 256 * (x / 65536);
    assert x / 65536 == x / 65536 % 256 + 256 * (x / 16777216);
  }

  function EncodeAll(q: seq<Word>): (s: seq<byte>)
    ensures |s| == WORD * |q|
  {
    if q == [] then [] else Encode(q[0]) + EncodeAll(q[1..])
  }

  lemma {:induction false} EncodeAllAppend(q: seq<Word>, x: Word)
    ensures EncodeAll(q + [x]) == EncodeAll(q) + Encode(x)
  {
    if q == [] {
      assert q + [x] == [x] && EncodeAll([x][1..]) == [];
    } else {
      assert (q + [x])[1..] == q[1..] + [x];
      EncodeAllAppend(q[1..], x);
    }
  }

  /* ---------- The specification: a queue of slot ids ---------- */

  /** What the outside does during one iio_step: `clients` sockets are waiting, after them
      socket_accept fails with `acceptError`, and stepping the connection returns `result`. */
  datatype Event = Event(clients: nat, acceptError: int, result: int)

  type Queue = seq<Word>

  ghost predicate IsQueue(q: Queue) {
    && (forall i :: 0 <= i < |q| ==> q[i] < MAX_CONNECTIONS)
    && (forall i, j :: 0 <= i < j < |q| ==> q[i] != q[j])
  }

  /** The lowest slot from `i` on that is not queued; MAX_CONNECTIONS when there is none. */
  function FreeFrom(q: Queue, i: nat): (f: nat)
    requires i <= MAX_CONNECTIONS
    ensures i <= f <= MAX_CONNECTIONS
    ensures f < MAX_CONNECTIONS ==> f !in q
    ensures forall j :: i <= j < f ==> j in q
    decreases MAX_CONNECTIONS - i
  {
    if i == MAX_CONNECTIONS || i !in q then i else FreeFrom(q, i + 1)
  }

  function Accept(q: Queue, clients: nat, acceptError: int): (Queue, int)
    decreases clients
  {
    if clients == 0 then (q, acceptError)
    else
      var f := FreeFrom(q, 0);
      if f == MAX_CONNECTIONS then (q, -EBUSY) else Accept(q + [f], clients - 1, acceptError)
  }

  /** One iio_step: the new queue, the connection that was stepped, the return code. */
  function StepQueue(q: Queue, ev: Event): (Queue, Option<Word>, int) {
    var (q1, ret) := Accept(q, ev.clients, ev.acceptError);
    if ret < 0 && ret != -EAGAIN then (q1, None, ret)
    else if q1 == [] then (q1, None, -EAGAIN)
    else if ev.result == -ENOTCONN then (q1[1..], Some(q1[0]), ev.result)
    else (q1[1..] + [q1[0]], Some(q1[0]), ev.result)
  }

  function Traced(stepped: Option<Word>): seq<Word> {
    if stepped.Some? then [stepped.value] else []
  }

  /** A whole run: the final queue and the connections stepped, in order. */
  function Run(q: Queue, events: seq<Event>): (Queue, seq<Word>) {
    if events == [] then (q, [])
    else
      var (q1, trace) := Run(q, events[..|events| - 1]);
      var (q2, stepped, _) := StepQueue(q1, events[|events| - 1]);
      (q2, trace + Traced(stepped))
  }

  lemma {:induction false} AcceptAppends(q: Queue, clients: nat, acceptError: int)
    requires IsQueue(q)
    ensures var q' := Accept(q, clients, acceptError).0; IsQueue(q') && q <= q'
    decreases clients
  {
    var f := FreeFrom(q, 0);
    if clients > 0 && f < MAX_CONNECTIONS {
      AcceptAppends(q + [f], clients - 1, acceptError);
    }
  }

  /** Over any run no slot is queued twice, and only slots are queued. */
  lemma {:induction false} RunKeepsQueue(q: Queue, events: seq<Event>)
    requires IsQueue(q)
    ensures IsQueue(Run(q, events).0)
  {
    if events != [] {
      RunKeepsQueue(q, events[..|events| - 1]);
      var ev := events[|events| - 1];
      AcceptAppends(Run(q, events[..|events| - 1]).0, ev.clients, ev.acceptError);
    }
  }

  /** Distinct slots below MAX_CONNECTIONS are at most MAX_CONNECTIONS many. */
  lemma QueueIsShort(q: Queue)
    requires IsQueue(q)
    ensures |q| <= MAX_CONNECTIONS
  {
    DistinctSubset(q, Slots(MAX_CONNECTIONS));
  }

  ghost function Slots(n: nat): (s: set<int>)
    ensures |s| == n && forall i :: i in s <==> 0 <= i < n
  {
    if n == 0 then {} else Slots(n - 1) + {n - 1}
  }

  lemma {:induction false} DistinctSubset(q: Queue, slots: set<int>)
    requires forall i, j :: 0 <= i < j < |q| ==> q[i] != q[j]
    requires forall x :: x in q ==> x in slots
    ensures |q| <= |slots|
  {
    if q != [] {
      DistinctSubset(q[1..], slots - {q[0]});
    }
  }

  /** Fairness over every run: the connection at position `p` is exactly the one stepped by the
      (p+1)-st pop; until then each pop moves it one place forward.  Since p < |q|, every queued
      connection is stepped within as many pops as connections are queued. */
  lemma {:induction false} PoppedInTurn(q: Queue, p: nat, events: seq<Event>)
    requires IsQueue(q) && p < |q|
    ensures var (q', trace) := Run(q, events);
            if |trace| <= p then p - |trace| < |q'| && q'[p - |trace|] == q[p] else trace[p] == q[p]
  {
    if events != [] {
      hide IsQueue, Accept, StepQueue;
      var init, ev := events[..|events| - 1], events[|events| - 1];
      PoppedInTurn(q, p, init);
      RunKeepsQueue(q, init);
      StepMovesUp(Run(q, init).0, ev);
    }
  }

  /** One step takes away the first in the queue, or nothing; all others move up. */
  lemma StepMovesUp(q: Queue, ev: Event)
    requires IsQueue(q)
    ensures var (q', stepped, _) := StepQueue(q, ev);
            match stepped
            case None => q <= q'
            case Some(x) => q != [] ==> x == q[0] && q[1..] <= q'
  {
    hide IsQueue;
    AcceptAppends(q, ev.clients, ev.acceptError);
  }

  lemma {:induction false} CoversSlots(q: Queue, slots: set<int>)
    requires forall x :: x in slots ==> x in q
    ensures |slots| <= |q|
  {
    if q == [] {
      assert forall x :: x !in slots;
      assert slots == {};
    } else {
      CoversSlots(q[1..], slots - {q[0]});
    }
  }

  lemma FreeRises(q: Queue)
    requires FreeFrom(q, 0) < MAX_CONNECTIONS
    ensures FreeFrom(q + [FreeFrom(q, 0)], 0) > FreeFrom(q, 0)
  {
    var f := FreeFrom(q, 0);
    assert FreeFrom(q + [f], 0) != f;
  }

  /** Those accepted now stand in the order of their slots. */
  lemma {:induction false} AcceptAscends(q: Queue, clients: nat, acceptError: int)
    requires IsQueue(q)
    ensures var accepted := Accept(q, clients, acceptError).0;
            && q <= accepted && (forall i :: |q| <= i < |accepted| ==> accepted[i] >= FreeFrom(q, 0))
            && forall i, j :: |q| <= i < j < |accepted| ==> accepted[i] < accepted[j]
    decreases clients
  {
    hide IsQueue, FreeFrom;
    var f := FreeFrom(q, 0);
    if clients > 0 && f < MAX_CONNECTIONS {
      var q1 := q + [f];
      var all := Accept(q1, clients - 1, acceptError).0;
      assert IsQueue(q1) by { AppendedIsQueue(q); }
      AcceptAscends(q1, clients - 1, acceptError);
      FreeRises(q);
      assert all[|q|] == q1[|q|] == f;
    }
  }

  lemma AppendedIsQueue(q: Queue)
    requires IsQueue(q) && FreeFrom(q, 0) < MAX_CONNECTIONS
    ensures IsQueue(q + [FreeFrom(q, 0)])
  {
  }

  /** There is a free slot if and only if fewer connections are queued than there are slots. */
  lemma FreeIff(q: Queue)
    requires IsQueue(q)
    ensures FreeFrom(q, 0) < MAX_CONNECTIONS <==> |q| < MAX_CONNECTIONS
  {
    var f := FreeFrom(q, 0);
    if f < MAX_CONNECTIONS {
      assert forall i, j :: 0 <= i < j < |q + [f]| ==> (q + [f])[i] != (q + [f])[j];
      QueueIsShort(q + [f]);
    } else {
      CoversSlots(q, Slots(MAX_CONNECTIONS));
    }
  }

  /** All waiting clients are accepted, or as many as there are free slots. */
  lemma {:induction false} AcceptFills(q: Queue, clients: nat, acceptError: int)
    requires IsQueue(q)
    ensures var (q', ret) := Accept(q, clients, acceptError); var n := |q| + clients;
            if n <= MAX_CONNECTIONS then |q'| == n && ret == acceptError
            else |q'| == MAX_CONNECTIONS && ret == -EBUSY
    decreases clients
  {
    hide IsQueue, FreeFrom;
    QueueIsShort(q);
    FreeIff(q);
    if clients > 0 && |q| < MAX_CONNECTIONS {
      AppendedIsQueue(q);
      AcceptFills(q + [FreeFrom(q, 0)], clients - 1, acceptError);
    }
  }

  /** What the fairness claim does not give: an iio_step steps nobody if and only if more clients wait
      than slots are free, or accepting failed, or there is no connection at all. */
  lemma StepsNobodyIff(q: Queue, ev: Event)
    requires IsQueue(q) && ev.acceptError < 0
    ensures StepQueue(q, ev).1 == None <==>
            |q| + ev.clients > MAX_CONNECTIONS || ev.acceptError != -EAGAIN || |q| + ev.clients == 0
  {
    AcceptFills(q, ev.clients, ev.acceptError);
  }

  /** In the first case the free slots are filled all the same, behind those queued, and the code says so. */
  lemma TooManyClients(q: Queue, ev: Event)
    requires IsQueue(q) && |q| + ev.clients > MAX_CONNECTIONS
    ensures var (q', stepped, ret) := StepQueue(q, ev);
            stepped == None && ret == -EBUSY && q <= q' && |q'| == MAX_CONNECTIONS
  {
    AcceptFills(q, ev.clients, ev.acceptError);
    AcceptAppends(q, ev.clients, ev.acceptError);
  }

  /** So with all slots in use a client that waits keeps everything as it is. */
  lemma FullPoolStepsNobody(q: Queue, ev: Event)
    requires IsQueue(q) && |q| == MAX_CONNECTIONS && ev.clients > 0
    ensures StepQueue(q, ev) == (q, None, -EBUSY)
  {
    TooManyClients(q, ev);
    var q' := StepQueue(q, ev).0;
    assert q' == q'[..|q|] == q;
  }

  /* ---------- Which slots are in use ---------- */

  /** The free slots below `x`. */
  function FreeBelow(used: seq<bool>, x: nat): nat
    requires x <= |used|
  {
    if x == 0 then 0 else FreeBelow(used, x - 1) + if used[x - 1] then 0 else 1
  }

  /** `n` clients get the lowest free slots. */
  predicate Granted(used: seq<bool>, n: nat, x: nat)
    requires x < |used|
  {
    !used[x] && FreeBelow(used, x) < n
  }

  /** The flags say what is queued. */
  ghost predicate Flags(used: seq<bool>, q: Queue) {
    |used| == MAX_CONNECTIONS && forall i :: 0 <= i < MAX_CONNECTIONS ==> (used[i] <==> i in q)
  }

  lemma {:induction false} FreeBelowSet(used: seq<bool>, f: nat, x: nat)
    requires f < |used| && x <= |used| && !used[f]
    ensures FreeBelow(used[f := true], x) == FreeBelow(used, x) - if f < x then 1 else 0
  {
    if x > 0 {
      FreeBelowSet(used, f, x - 1);
    }
  }

  lemma {:induction false} NoneBelow(used: seq<bool>, x: nat)
    requires x <= |used| && forall i :: 0 <= i < x ==> used[i]
    ensures FreeBelow(used, x) == 0
  {
    if x > 0 {
      NoneBelow(used, x - 1);
    }
  }

  lemma {:induction false} SomeBelow(used: seq<bool>, f: nat, x: nat)
    requires f < x <= |used| && !used[f]
    ensures FreeBelow(used, x) > 0
  {
    if f < x - 1 {
      SomeBelow(used, f, x - 1);
    }
  }

  /** What accepting clients does to the flags. */
  lemma {:induction false} AcceptGrants(q: Queue, used: seq<bool>, clients: nat, acceptError: int, x: nat)
    requires IsQueue(q) && Flags(used, q) && x < MAX_CONNECTIONS
    ensures x in Accept(q, clients, acceptError).0 <==> used[x] || Granted(used, clients, x)
    decreases clients
  {
    hide IsQueue, FreeBelow;
    var f := FreeFrom(q, 0);
    if f == MAX_CONNECTIONS {
      assert used[x];
    } else if clients > 0 {
      AppendedIsQueue(q);
      NoneBelow(used, f);
      if f < x {
        SomeBelow(used, f, x);
      }
      FreeBelowSet(used, f, x);
      AcceptGrants(q + [f], used[f := true], clients - 1, acceptError, x);
    }
  }

  /** One iio_step and the queue: the connection that is stepped is the first, or one just accepted when
      there was none.  It goes to the end of the queue if and only if its step did not return -ENOTCONN;
      all others that were queued keep their order, in front of those accepted now. */
  lemma StepRequeues(q: Queue, ev: Event)
    requires IsQueue(q) && ev.acceptError < 0
    ensures var (q', stepped, ret) := StepQueue(q, ev);
            match stepped
            case None => q <= q'
            case Some(x) =>
              && ret == ev.result
              && (q != [] ==> x == q[0] && q[1..] <= q')
              && (if ev.result != -ENOTCONN then |q'| == |q| + ev.clients && q'[|q'| - 1] == x
                  else |q'| == |q| + ev.clients - 1 && x !in q')
  {
    AcceptFills(q, ev.clients, ev.acceptError);
    AcceptAppends(q, ev.clients, ev.acceptError);
  }

  /** One iio_step and the flags: the waiting clients get the lowest free slots, and the slot of the stepped
      connection is freed if and only if its step returned -ENOTCONN. */
  ghost predicate Transition(used: seq<bool>, used': seq<bool>, ev: Event, stepped: Option<Word>) {
    && |used| == |used'| == MAX_CONNECTIONS
    && (forall x :: 0 <= x < MAX_CONNECTIONS ==>
          (used'[x] <==> (used[x] || Granted(used, ev.clients, x))
                         && !(stepped == Some(x) && ev.result == -ENOTCONN)))
    && (stepped.Some? ==>
          stepped.value < MAX_CONNECTIONS
          && (used[stepped.value] || Granted(used, ev.clients, stepped.value)))
  }

  lemma StepFlags(q: Queue, used: seq<bool>, used': seq<bool>, ev: Event)
    requires IsQueue(q) && ev.acceptError < 0 && Flags(used, q) && Flags(used', StepQueue(q, ev).0)
    ensures Transition(used, used', ev, StepQueue(q, ev).1)
  {
    hide Accept, Granted;
    forall x | 0 <= x < MAX_CONNECTIONS
      ensures x in Accept(q, ev.clients, ev.acceptError).0 <==> used[x] || Granted(used, ev.clients, x)
    {
      AcceptGrants(q, used, ev.clients, ev.acceptError, x);
    }
    AcceptAppends(q, ev.clients, ev.acceptError);
  }

  /** A run as it is seen from outside: the flags before and after every step, and who was stepped. */
  ghost predicate IsRun(used: seq<seq<bool>>, stepped: seq<Option<Word>>, events: seq<Event>) {
    && |used| == |events| + 1 && |stepped| == |events|
    && (forall i :: 0 <= i <= |events| ==> |used[i]| == MAX_CONNECTIONS)
    && forall i :: 0 <= i < |events| ==> Transition(used[i], used[i + 1], events[i], stepped[i])
  }

  /** Step `i` closes the connection in slot `x`. */
  predicate Closes(stepped: seq<Option<Word>>, events: seq<Event>, x: nat, i: nat)
    requires i < |events| == |stepped|
  {
    stepped[i] == Some(x) && events[i].result == -ENOTCONN
  }

  /** Over every run a slot in use stays in use until the first step of it that returns -ENOTCONN, and that
      step frees it. */
  lemma {:induction false} InUseUntilClosed(used: seq<seq<bool>>, stepped: seq<Option<Word>>, events: seq<Event>,
                                            x: nat, i: nat, j: nat)
    requires IsRun(used, stepped, events) && x < MAX_CONNECTIONS && i <= j <= |events| && used[i][x]
    requires forall k :: i <= k < j ==> !Closes(stepped, events, x, k)
    ensures used[j][x] && (j < |events| && Closes(stepped, events, x, j) ==> !used[j + 1][x])
    decreases j
  {
    hide Granted;
    if i < j {
      InUseUntilClosed(used, stepped, events, x, i, j - 1);
      assert Transition(used[j - 1], used[(j - 1) + 1], events[j - 1], stepped[j - 1]);
      assert !Closes(stepped, events, x, j - 1);
    }
    assert j < |events| ==> Transition(used[j], used[j + 1], events[j], stepped[j]);
  }

  /* ---------- The implementation ---------- */

  /** The part of struct iio_desc and struct iiod_desc the scheduler works on: the FIFO of
      connection ids and the `used` flags of the connection slots. */
  class IioDesc {
    const conns: CircularBuffer
    const used: array<bool>

    ghost predicate Valid()
      reads this, conns, conns.buff, used
    {
      && conns.Valid() && !conns.write.asyncStarted && !conns.read.asyncStarted
      && conns.size == WORD * (MAX_CONNECTIONS + 1)
      && used.Length == MAX_CONNECTIONS
    }

    /** The buffer holds the queue `q`, and exactly the queued slots are in use. */
    ghost predicate Holds(q: Queue)
      reads this, conns, conns.buff, used
    {
      && Valid() && IsQueue(q)
      && conns.bytes[conns.consumed..] == EncodeAll(q)
      && (forall i :: 0 <= i < MAX_CONNECTIONS ==> (used[i] <==> i in q))
    }

    lemma UsedAreQueued(q: Queue)
      requires Holds(q)
      ensures Flags(used[..], q)
    {
    }

    constructor ()
      ensures Holds([]) && fresh(conns) && fresh(conns.buff) && fresh(used)
    {
      conns := new CircularBuffer(WORD * (MAX_CONNECTIONS + 1));
      used := new bool[MAX_CONNECTIONS](_ => false);
    }

    /** iiod_conn_add: takes the first slot that is not in use. */
    method ConnAdd(ghost q: Queue) returns (ret: int, id: Word)
      requires Holds(q)
      modifies used
      ensures conns.Valid()
      ensures var f := FreeFrom(q, 0);
              if f == MAX_CONNECTIONS then ret == -EBUSY && used[..] == old(used[..])
              else ret == 0 && id == f && used[..] == old(used[..])[f := true]
    {
      id := 0;
      ghost var f := FreeFrom(q, 0);
      for i := 0 to MAX_CONNECTIONS
        invariant i <= f && forall j :: 0 <= j < i ==> used[j]
        invariant used[..] == old(used[..])
      {
        if !used[i] {
          used[i] := true;
          return 0, i;
        }
        assert i in q && i != f;
      }
      ret := -EBUSY;
    }

    /** iiod_conn_remove.  The id MAX_CONNECTIONS passes the check of the source, which then reads behind
        its slots. */
    method ConnRemove(id: Word) returns (ret: int)
      requires used.Length == MAX_CONNECTIONS && id != MAX_CONNECTIONS
      modifies used
      ensures ret == if id < MAX_CONNECTIONS && old(used[id]) then 0 else -EINVAL
      ensures used[..] == if ret == 0 then old(used[..])[id := false] else old(used[..])
    {
      if id > MAX_CONNECTIONS || !used[id] {
        return -EINVAL;
      }
      used[id] := false;
      ret := 0;
    }

    /** _push_conn. */
    method PushConn(id: Word, ghost q: Queue) returns (ret: int)
      requires Valid() && conns.bytes[conns.consumed..] == EncodeAll(q)
      modifies conns, conns.buff
      ensures Valid() && ret == 0
      ensures conns.bytes[conns.consumed..] == EncodeAll(q + [id])
    {
      hide CircularBuffer.Valid;
      ghost var s := conns.Abs();
      ret := conns.Write(Encode(id));
      EncodeAllAppend(q, id);
      assert conns.Abs() == s.(bytes := s.bytes + Encode(id));
      assert conns.bytes[conns.consumed..] == s.bytes[s.consumed..] + Encode(id);
    }

    /** _pop_conn. */
    method PopConn(ghost q: Queue) returns (ret: int, id: Word)
      requires Valid() && conns.bytes[conns.consumed..] == EncodeAll(q) && |q| <= MAX_CONNECTIONS
      modifies conns
      ensures Valid()
      ensures if q == [] then ret == -EAGAIN && conns.bytes[conns.consumed..] == []
              else ret == 0 && id == q[0] && conns.bytes[conns.consumed..] == EncodeAll(q[1..])
    {
      hide SizeAt, FaithfulFor, CircularBuffer.StandsAt, CircularBuffer.HoldsTail;
      id := 0;
      ghost var s := conns.Abs();
      NotLappedIsFaithful(s.size, |s.bytes|, s.consumed);
      SizeFaithfulIff(s.size, |s.bytes|, s.consumed);
      var stored;
      ret, stored := conns.Size();
      if stored < WORD {
        return -EAGAIN, id;
      }
      var word;
      ret, word := conns.Read(WORD);
      assert word == s.bytes[s.consumed..s.consumed + WORD] == s.bytes[s.consumed..][..WORD];
      assert word == Encode(q[0]);
      assert conns.bytes[conns.consumed..] == s.bytes[s.consumed..][WORD..] == EncodeAll(q[1..]);
      DecodeEncode(q[0]);
      id := Decode(word);
    }

    /** The body of the accept loop: a slot and a place in the queue for one client. */
    method AcceptClient(ghost q: Queue) returns (ret: int)
      requires Holds(q)
      modifies conns, conns.buff, used
      ensures var f := FreeFrom(q, 0);
              if f == MAX_CONNECTIONS then ret == -EBUSY && Holds(q) else ret == 0 && Holds(q + [f])
    {
      hide CircularBuffer.Valid;
      var id;
      ret, id := ConnAdd(q);
      if ret < 0 {
        return ret;
      }
      ret := PushConn(id, q);
    }

    /** accept_network_clients: every waiting client gets a slot and a place in the queue, until
        socket_accept fails or no slot is left. */
    method AcceptNetworkClients(clients: nat, acceptError: int, ghost q: Queue) returns (ret: int)
      requires Holds(q) && acceptError < 0
      modifies conns, conns.buff, used
      ensures Holds(Accept(q, clients, acceptError).0) && ret == Accept(q, clients, acceptError).1
    {
      hide Holds, Valid;
      var waiting := clients;
      ghost var now: Queue := q;
      while waiting > 0
        invariant Holds(now)
        invariant Accept(now, waiting, acceptError) == Accept(q, clients, acceptError)
      {
        ret := AcceptClient(now);
        if ret < 0 {
          return ret;
        }
        now := now + [FreeFrom(now, 0)];
        waiting := waiting - 1;
      }
      ret := acceptError;
    }

    /** iio_step with a server socket.  `stepped` is the connection passed to iiod_conn_step. */
    method IioStep(ev: Event, ghost q: Queue) returns (ret: int, stepped: Option<Word>)
      requires Holds(q) && ev.acceptError < 0
      modifies conns, conns.buff, used
      ensures var r := StepQueue(q, ev); Holds(r.0) && stepped == r.1 && ret == r.2
      ensures Transition(old(used[..]), used[..], ev, stepped) && used.Length == MAX_CONNECTIONS
    {
      hide CircularBuffer.Valid, Transition;
      ghost var before := used[..];
      UsedAreQueued(q);
      stepped := None;
      ret := AcceptNetworkClients(ev.clients, ev.acceptError, q);
      if ret < 0 && ret != -EAGAIN {
        Stepped(q, before, ev);
        return ret, None;
      }
      AcceptAppends(q, ev.clients, ev.acceptError);
      ghost var queued := Accept(q, ev.clients, ev.acceptError).0;
      QueueIsShort(queued);
      var id;
      ret, id := PopConn(queued);
      if ret < 0 {
        Stepped(q, before, ev);
        return ret, None;
      }
      stepped := Some(id);
      ret := ev.result;
      if ret == -ENOTCONN {
        var _ := ConnRemove(id);
      } else {
        var _ := PushConn(id, queued[1..]);
      }
      Stepped(q, before, ev);
    }

    lemma Stepped(q: Queue, before: seq<bool>, ev: Event)
      requires IsQueue(q) && Flags(before, q) && ev.acceptError < 0 && Holds(StepQueue(q, ev).0)
      ensures Transition(before, used[..], ev, StepQueue(q, ev).1)
    {
      hide StepQueue, Transition, IsQueue;
      UsedAreQueued(StepQueue(q, ev).0);
      StepFlags(q, before, used[..], ev);
    }
  }

  /** The connections of those steps that stepped one. */
  function Pops(stepped: seq<Option<Word>>): seq<Word> {
    if stepped == [] then []
    else Pops(stepped[..|stepped| - 1]) + Traced(stepped[|stepped| - 1])
  }

  /** Any run of the scheduler, from no connection on: who is stepped, in the order of the plain queue, and
      the slots in use before and after every step, at the end exactly those queued. */
  method RunScheduler(events: seq<Event>) returns (stepped: seq<Option<Word>>, used: seq<seq<bool>>)
    requires forall ev :: ev in events ==> ev.acceptError < 0
    ensures Pops(stepped) == Run([], events).1
    ensures IsRun(used, stepped, events) && forall i :: 0 <= i < MAX_CONNECTIONS ==> !used[0][i]
    ensures Flags(used[|events|], Run([], events).0)
  {
    hide IioDesc.Holds, StepQueue, IsQueue, Transition, Flags;
    var desc := new IioDesc();
    desc.UsedAreQueued([]);
    stepped, used := [], [desc.used[..]];
    Unused(used[0]);
    for i := 0 to |events|
      invariant desc.Holds(Run([], events[..i]).0) && Pops(stepped) == Run([], events[..i]).1
      invariant |used| == i + 1 && |stepped| == i && used[i] == desc.used[..]
      invariant forall j :: 0 <= j <= i ==> |used[j]| == MAX_CONNECTIONS
      invariant |used[0]| == MAX_CONNECTIONS && forall j :: 0 <= j < MAX_CONNECTIONS ==> !used[0][j]
      invariant forall j :: 0 <= j < i ==> Transition(used[j], used[j + 1], events[j], stepped[j])
      invariant fresh(desc.conns) && fresh(desc.conns.buff) && fresh(desc.used)
    {
      assert events[..i + 1][..i] == events[..i];
      var _, id := desc.IioStep(events[i], Run([], events[..i]).0);
      stepped, used := stepped + [id], used + [desc.used[..]];
      assert stepped[..i] + [id] == stepped;
    }
    assert events[..|events|] == events;
    desc.UsedAreQueued(Run([], events).0);
  }

  lemma Unused(used: seq<bool>)
    requires Flags(used, [])
    ensures |used| == MAX_CONNECTIONS && forall i :: 0 <= i < MAX_CONNECTIONS ==> !used[i]
  {
  }
}
