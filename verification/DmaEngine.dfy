/**
 The scatter-gather engine of drivers/api/no_os_dma.c: one channel of a DMA controller keeps its
 transfers in a list; an interrupt per finished transfer takes the next one.  The platform's
 operations and the interrupt controller are seen through the trace of calls made to them.
 */
module DmaEngine {
  import opened Basics
  import opened Errno
  import opened LinkedLists
  import opened Sequences

  /** enum no_os_dma_xfer_type; `Other` stands for every value outside the enumeration. */
  datatype XferType = MemToMem | MemToDev | DevToMem | Other

  /** struct no_os_dma_xfer_desc, named by its address. */
  datatype Xfer = Xfer(address: nat, kind: XferType, hasCallback: bool, irqPriority: nat)

  datatype Call =
    | ConfigXfer(xfer: Xfer)
    | StartXfer
    | AbortXfer
    | IrqEnable
    | IrqDisable
    | IrqRegister
    | IrqPriority(level: nat)
    | Complete(finished: Xfer, next: Option<Xfer>)

  /* ---------- The specification ---------- */

  /** The visible state of a channel: waiting transfers, the free flag and the calls made. */
  datatype Channel = Channel(queue: seq<Xfer>, free: bool, calls: seq<Call>)

  function Head(q: seq<Xfer>): Option<Xfer> { if q == [] then None else Some(q[0]) }

  /** The calls of no_os_dma_xfer_start with an interrupt controller. */
  const START_CALLS: seq<Call> := [IrqEnable, StartXfer]

  /** One completion interrupt, default_sg_callback. */
  function Interrupt(c: Channel): Channel {
    if c.queue == [] then
      c.(calls := c.calls + [IrqDisable, AbortXfer])
    else
      var x, rest := c.queue[0], c.queue[1..];
      Channel(rest, c.free || rest == [], c.calls + Report(x, rest) + GoOn(rest))
  }

  function Interrupts(c: Channel, n: nat): Channel {
    if n == 0 then c else Interrupt(Interrupts(c, n - 1))
  }

  /** The transfers handed to the hardware, and the completions reported, in order. */
  function Configured(calls: seq<Call>): seq<Xfer> {
    if calls == [] then []
    else Configured(calls[..|calls| - 1]) +
         if calls[|calls| - 1].ConfigXfer? then [calls[|calls| - 1].xfer] else []
  }

  function Completed(calls: seq<Call>): seq<(Xfer, Option<Xfer>)> {
    if calls == [] then []
    else Completed(calls[..|calls| - 1]) +
         if calls[|calls| - 1].Complete? then [(calls[|calls| - 1].finished, calls[|calls| - 1].next)] else []
  }

  /** The completions the first `k` of the transfers `xs` owe: each with its successor. */
  function Owed(xs: seq<Xfer>, k: nat): seq<(Xfer, Option<Xfer>)>
    requires k <= |xs|
  {
    if k == 0 then []
    else Owed(xs, k - 1) + if xs[k - 1].hasCallback then [(xs[k - 1], Head(xs[k..]))] else []
  }

  lemma {:induction false} CallsConcat(a: seq<Call>, b: seq<Call>)
    ensures Configured(a + b) == Configured(a) + Configured(b)
    ensures Completed(a + b) == Completed(a) + Completed(b)
  {
    if b == [] {
      assert a + b == a;
    } else {
      assert (a + b)[..|a + b| - 1] == a + b[..|b| - 1];
      CallsConcat(a, b[..|b| - 1]);
    }
  }

  lemma ShortCalls(c: Call)
    ensures Configured([c]) == if c.ConfigXfer? then [c.xfer] else []
    ensures Completed([c]) == if c.Complete? then [(c.finished, c.next)] else []
    ensures Configured(START_CALLS) == [] && Completed(START_CALLS) == []
  {
    assert [c][..0] == [];
    assert START_CALLS == [IrqEnable] + [StartXfer];
    assert [IrqEnable][..0] == [] && [StartXfer][..0] == [];
    CallsConcat([IrqEnable], [StartXfer]);
  }

  /** The calls that report a finished transfer, and those that go on with the next one. */
  function Report(x: Xfer, rest: seq<Xfer>): seq<Call> {
    if x.hasCallback then [Complete(x, Head(rest))] else []
  }

  function GoOn(rest: seq<Xfer>): seq<Call> {
    if rest == [] then [IrqDisable] else [ConfigXfer(rest[0])] + START_CALLS
  }

  lemma ReportAndGoOn(x: Xfer, rest: seq<Xfer>)
    ensures Configured(Report(x, rest)) == []
    ensures Completed(Report(x, rest)) == if x.hasCallback then [(x, Head(rest))] else []
    ensures Configured(GoOn(rest)) == if rest == [] then [] else [rest[0]]
    ensures Completed(GoOn(rest)) == []
  {
    ShortCalls(Complete(x, Head(rest)));
    ShortCalls(IrqDisable);
    if rest != [] {
      ShortCalls(ConfigXfer(rest[0]));
      CallsConcat([ConfigXfer(rest[0])], START_CALLS);
    }
  }

  /** What one interrupt adds to the configurations and completions. */
  lemma InterruptAdds(c: Channel)
    requires c.queue != []
    ensures var c' := Interrupt(c); var x, rest := c.queue[0], c.queue[1..];
            && c'.queue == rest && c'.free == (c.free || rest == [])
            && Configured(c'.calls) == Configured(c.calls) + (if rest == [] then [] else [rest[0]])
            && Completed(c'.calls) == Completed(c.calls) + (if x.hasCallback then [(x, Head(rest))] else [])
  {
    hide Configured, Completed;
    var x, rest := c.queue[0], c.queue[1..];
    ReportAndGoOn(x, rest);
    CallsConcat(c.calls, Report(x, rest));
    CallsConcat(c.calls + Report(x, rest), GoOn(rest));
  }

  /** A channel whose first transfer is configured and running: after `k` interrupts exactly the
      transfers up to the next one were configured, once each and in order, the first `k`
      completions were reported with their successors, and the channel becomes free exactly at the
      interrupt of the last transfer. */
  lemma {:induction false} ScatterGather(c: Channel, xs: seq<Xfer>, k: nat)
    requires c.queue == xs && 0 < |xs| && k <= |xs| && !c.free
    ensures var c' := Interrupts(c, k);
            && c'.queue == xs[k..]
            && (c'.free <==> k == |xs|)
            && Configured(c'.calls) == Configured(c.calls) + xs[1..if k == |xs| then k else k + 1]
            && Completed(c'.calls) == Completed(c.calls) + Owed(xs, k)
  {
    hide Interrupt, Configured, Completed;
    var cf, cp := Configured(c.calls), Completed(c.calls);
    if k == 0 {
      assert cf + xs[1..1] == cf && cp + [] == cp;
    } else {
      ScatterGather(c, xs, k - 1);
      InterruptAdds(Interrupts(c, k - 1));
      assert xs[k - 1..][1..] == xs[k..] && xs[k - 1..][0] == xs[k - 1];
      Slide(cf, xs, k);
      Associative(cp, Owed(xs, k - 1), if xs[k - 1].hasCallback then [(xs[k - 1], Head(xs[k..]))] else []);
    }
  }

  lemma Slide(a: seq<Xfer>, xs: seq<Xfer>, k: nat)
    requires 0 < k <= |xs|
    ensures a + xs[1..k] + (if k == |xs| then [] else [xs[k]]) == a + xs[1..if k == |xs| then k else k + 1]
  {
  }

  /* ---------- The hardware's view of the calls ---------- */

  /** How often a transfer was started. */
  function Starts(calls: seq<Call>): nat {
    if calls == [] then 0 else Starts(calls[..|calls| - 1]) + if calls[|calls| - 1] == StartXfer then 1 else 0
  }

  /** How a call may follow those before it, when the transfers `xs` are to be made.  The next transfer is
      configured when all configured ones were started; the one configured is started, once, with the
      interrupt enabled directly before; a completion is that of the transfer started last, and not
      reported while another is configured and waits to be started. */
  predicate Fits(before: seq<Call>, x: Call, xs: seq<Xfer>) {
    var configured, started := |Configured(before)|, Starts(before);
    match x
    case ConfigXfer(y) => configured == started < |xs| && y == xs[configured]
    case IrqEnable => configured == started + 1
    case StartXfer => configured == started + 1 && before != [] && before[|before| - 1] == IrqEnable
    case Complete(y, next) =>
      && configured == started && 0 < started <= |xs| && y == xs[started - 1]
      && next == if started < |xs| then Some(xs[started]) else None
    case IrqDisable => configured == started == |xs|
    case AbortXfer => false
    case _ => true
  }

  ghost predicate Orderly(calls: seq<Call>, xs: seq<Xfer>) {
    forall k :: 0 <= k < |calls| ==> Fits(calls[..k], calls[k], xs)
  }

  /** `n` of the transfers are configured and started. */
  ghost predicate Running(calls: seq<Call>, xs: seq<Xfer>, n: nat) {
    Orderly(calls, xs) && |Configured(calls)| == Starts(calls) == n && IrqDisable !in calls
  }

  lemma OneCall(calls: seq<Call>, x: Call, xs: seq<Xfer>)
    requires Orderly(calls, xs) && Fits(calls, x, xs)
    ensures Orderly(calls + [x], xs)
    ensures Configured(calls + [x]) == Configured(calls) + if x.ConfigXfer? then [x.xfer] else []
    ensures Starts(calls + [x]) == Starts(calls) + if x == StartXfer then 1 else 0
  {
    var all := calls + [x];
    assert all[..|calls|] == calls;
    forall k | 0 <= k < |all| ensures Fits(all[..k], all[k], xs) {
      if k < |calls| {
        assert all[..k] == calls[..k];
      }
    }
  }

  /** Configuring, enabling and starting the next transfer. */
  lemma NextStarted(calls: seq<Call>, xs: seq<Xfer>, n: nat)
    requires Running(calls, xs, n) && n < |xs|
    ensures Running(calls + ([ConfigXfer(xs[n])] + START_CALLS), xs, n + 1)
  {
    hide Configured, Starts, Orderly;
    var a := calls + [ConfigXfer(xs[n])];
    var b := a + [IrqEnable];
    OneCall(calls, ConfigXfer(xs[n]), xs);
    OneCall(a, IrqEnable, xs);
    OneCall(b, StartXfer, xs);
    assert b + [StartXfer] == calls + ([ConfigXfer(xs[n])] + START_CALLS);
  }

  /** One interrupt of a running channel. */
  lemma InterruptOrderly(c: Channel, xs: seq<Xfer>, n: nat)
    requires 0 < n <= |xs| && c.queue == xs[n - 1..] && Running(c.calls, xs, n)
    ensures var c' := Interrupt(c);
            if n < |xs| then Running(c'.calls, xs, n + 1)
            else Orderly(c'.calls, xs) && |Configured(c'.calls)| == Starts(c'.calls) == n && Disabled(c'.calls)
  {
    hide Configured, Starts, Orderly;
    var x, rest := c.queue[0], c.queue[1..];
    assert x == xs[n - 1] && rest == xs[n..];
    var reported := c.calls + Report(x, rest);
    if x.hasCallback {
      OneCall(c.calls, Complete(x, Head(rest)), xs);
    } else {
      assert reported == c.calls;
    }
    assert Running(reported, xs, n);
    if n < |xs| {
      NextStarted(reported, xs, n);
    } else {
      OneCall(reported, IrqDisable, xs);
    }
  }

  /** The interrupt is disabled at the end, and never before. */
  predicate Disabled(calls: seq<Call>) {
    calls != [] && calls[|calls| - 1] == IrqDisable && IrqDisable !in calls[..|calls| - 1]
  }

  /** After any number of interrupts of a channel that was started with its first transfer. */
  lemma {:induction false} InterruptsOrderly(c: Channel, xs: seq<Xfer>, k: nat)
    requires c.queue == xs && k <= |xs| && xs != [] && !c.free && Running(c.calls, xs, 1)
    ensures var calls := Interrupts(c, k).calls;
            && Orderly(calls, xs) && |Configured(calls)| == Starts(calls) == Min(k + 1, |xs|)
            && if k < |xs| then IrqDisable !in calls else Disabled(calls)
  {
    hide Interrupt, Configured, Completed, Starts, Orderly, Disabled;
    if k > 0 {
      InterruptsOrderly(c, xs, k - 1);
      ScatterGather(c, xs, k - 1);
      InterruptOrderly(Interrupts(c, k - 1), xs, k);
    }
  }

  /** `waiting` is the end of a repetition of `xs`: the empty list is, and so is the list of the very
      transfers that are handed over again. */
  predicate Repeats(waiting: seq<Xfer>, xs: seq<Xfer>)
    requires xs != []
  {
    var n, m := |xs|, |waiting|;
    if m <= n then waiting == xs[n - m..] else waiting[m - n..] == xs && Repeats(waiting[..m - n], xs)
  }

  /** A failed configuration removes as many transfers from the front as it had added at the end.
      That restores the list exactly when the waiting transfers repeat the new ones. */
  lemma {:induction false} FailedConfigureRestoresIff(waiting: seq<Xfer>, xs: seq<Xfer>)
    requires xs != []
    ensures (waiting + xs)[|xs|..] == waiting <==> Repeats(waiting, xs)
    decreases |waiting|
  {
    var n, m := |xs|, |waiting|;
    if m <= n {
      assert (waiting + xs)[n..] == xs[n - m..];
    } else {
      var front, back := waiting[..m - n], waiting[m - n..];
      FailedConfigureRestoresIff(front, xs);
      assert waiting == front + back;
      assert (waiting + xs)[n..] == (front + back)[n..] + xs;
      SameParts((front + back)[n..], xs, front, back);
    }
  }

  lemma SameParts<T>(a: seq<T>, b: seq<T>, c: seq<T>, d: seq<T>)
    requires |a| == |c|
    ensures a + b == c + d <==> a == c && b == d
  {
    if a + b == c + d {
      assert a == (a + b)[..|a|] && b == (a + b)[|a|..] && c == (c + d)[..|c|] && d == (c + d)[|c|..];
    }
  }

  /** So the condition does not say that nothing was waiting: the same transfer handed over twice. */
  lemma SameTransferTwice(x: Xfer)
    ensures Repeats([x], [x]) && ([x] + [x])[1..] == [x]
  {
  }

  /* ---------- The implementation ---------- */

  /** struct no_os_dma_ch with the part of struct no_os_dma_desc it uses. */
  class DmaChannel {
    const sgList: List<Xfer>
    const hasIrqCtrl: bool
    var free: bool
    var calls: seq<Call>

    ghost predicate Valid()
      reads sgList, sgList.elems
    {
      sgList.Valid()
    }

    ghost function Abs(): Channel
      reads this, sgList
    {
      Channel(sgList.contents, free, calls)
    }

    /** A channel as it leaves acquisition: not free, with an empty list. */
    constructor (hasIrqCtrl: bool)
      ensures Valid() && this.hasIrqCtrl == hasIrqCtrl && Abs() == Channel([], false, [])
      ensures fresh(sgList) && sgList.elems == [] && fresh(sgList.lIt)
    {
      sgList := new List((x: Xfer, y: Xfer) => x.address - y.address);
      this.hasIrqCtrl := hasIrqCtrl;
      free, calls := false, [];
    }

    /** The queue of waiting transfers loses its first element. */
    method TakeFirst() returns (ret: int, x: Option<Xfer>)
      requires Valid()
      modifies sgList, sgList.elems`prev, sgList.elems`next
      ensures Valid() && sgList.lIt == old(sgList.lIt)
      ensures var q := old(sgList.contents);
              if q == [] then ret == -1 && x == None && sgList.contents == []
              else ret == 0 && x == Some(q[0]) && sgList.contents == q[1..]
      ensures |sgList.elems| == |sgList.contents|
      ensures forall i :: 0 <= i < |sgList.elems| ==> sgList.elems[i] in old(sgList.elems)
    {
      if sgList.contents != [] {
        RemovedIsSlices(sgList.contents, 0);
        assert sgList.contents[..0] + sgList.contents[1..] == sgList.contents[1..];
      }
      ret, x := sgList.GetFirst();
    }

    /** The queue of waiting transfers grows at its end. */
    method Append(x: Xfer)
      requires Valid()
      modifies sgList, sgList.elems`prev, sgList.elems`next
      ensures Valid() && sgList.lIt == old(sgList.lIt) && sgList.contents == old(sgList.contents) + [x]
      ensures forall i :: 0 <= i < |sgList.elems| ==> sgList.elems[i] in old(sgList.elems) || fresh(sgList.elems[i])
    {
      InsertedIsSlices(sgList.contents, |sgList.contents|, x);
      var _ := sgList.AddLast(x);
    }

    /** The calls a configuration makes for its first transfer. */
    static function ArmCalls(x: Xfer, configRet: int, registerRet: int): seq<Call> {
      if x.kind == Other then []
      else if configRet != 0 then [ConfigXfer(x)]
      else if registerRet != 0 then [ConfigXfer(x), IrqRegister]
      else [ConfigXfer(x), IrqRegister, IrqPriority(x.irqPriority)]
    }

    /** The part of no_os_dma_config_xfer that needs the interrupt controller. */
    method Arm(x: Xfer, configRet: int, registerRet: int) returns (ret: int)
      modifies `calls
      ensures ret == if x.kind == Other then -EINVAL else if configRet != 0 then configRet else registerRet
      ensures calls == old(calls) + ArmCalls(x, configRet, registerRet)
    {
      if x.kind == Other {
        return -EINVAL;
      }
      calls := calls + [ConfigXfer(x)];
      if configRet != 0 {
        return configRet;
      }
      calls := calls + [IrqRegister];
      if registerRet != 0 {
        return registerRet;
      }
      calls := calls + [IrqPriority(x.irqPriority)];
      ret := 0;
    }

    /** no_os_dma_config_xfer; the platform and the interrupt controller answer with the two codes. */
    method Configure(xfers: seq<Xfer>, configRet: int, registerRet: int) returns (ret: int)
      requires Valid()
      modifies `calls, sgList, sgList.elems`prev, sgList.elems`next
      ensures Valid() && sgList.lIt == old(sgList.lIt)
      ensures forall i :: 0 <= i < |sgList.elems| ==> sgList.elems[i] in old(sgList.elems) || fresh(sgList.elems[i])
      ensures ret == if xfers == [] then -EINVAL
                     else if !hasIrqCtrl then 0
                     else if xfers[0].kind == Other then -EINVAL
                     else if configRet != 0 then configRet else registerRet
      ensures sgList.contents ==
              if xfers == [] then old(sgList.contents)
              else if ret == 0 then old(sgList.contents) + xfers
              else (old(sgList.contents) + xfers)[|xfers|..]
      ensures xfers != [] && ret != 0 ==>
                (sgList.contents == old(sgList.contents) <==> Repeats(old(sgList.contents), xfers))
      ensures calls == old(calls) +
              if xfers == [] || !hasIrqCtrl then [] else ArmCalls(xfers[0], configRet, registerRet)
    {
      hide Repeats;
      if xfers == [] {
        return -EINVAL;
      }
      ghost var waiting := sgList.contents;
      for i := 0 to |xfers|
        invariant Valid() && sgList.lIt == old(sgList.lIt)
        invariant sgList.contents == waiting + xfers[..i] && calls == old(calls)
        invariant forall j :: 0 <= j < |sgList.elems| ==> sgList.elems[j] in old(sgList.elems) || fresh(sgList.elems[j])
      {
        Append(xfers[i]);
      }
      assert xfers[..|xfers|] == xfers;
      if !hasIrqCtrl {
        assert calls == calls + [];
        return 0;
      }
      ret := Arm(xfers[0], configRet, registerRet);
      ghost var armed := calls;
      if ret == 0 {
        return;
      }
      FailedConfigureRestoresIff(waiting, xfers);
      for i := 0 to |xfers|
        invariant Valid() && sgList.lIt == old(sgList.lIt)
        invariant sgList.contents == (waiting + xfers)[i..] && calls == armed
        invariant forall j :: 0 <= j < |sgList.elems| ==> sgList.elems[j] in old(sgList.elems) || fresh(sgList.elems[j])
      {
        var _, _ := TakeFirst();
      }
    }

    /** no_os_dma_xfer_start; the platform answers with `startRet`. */
    method Start(startRet: int) returns (ret: int)
      modifies `calls
      ensures ret == startRet
      ensures calls == old(calls) + if hasIrqCtrl then START_CALLS else [StartXfer]
    {
      if hasIrqCtrl {
        calls := calls + [IrqEnable];
      }
      calls := calls + [StartXfer];
      ret := startRet;
    }

    /** no_os_dma_xfer_abort: nothing stays scheduled. */
    method Abort(abortRet: int) returns (ret: int)
      requires Valid()
      modifies this, sgList, sgList.elems`prev, sgList.elems`next
      ensures Valid() && ret == abortRet && sgList.lIt == old(sgList.lIt)
      ensures Abs() == Channel([], old(free), old(calls) + if hasIrqCtrl then [IrqDisable, AbortXfer] else [AbortXfer])
      ensures forall i :: 0 <= i < |sgList.elems| ==> sgList.elems[i] in old(sgList.elems)
    {
      if hasIrqCtrl {
        calls := calls + [IrqDisable];
      }
      ghost var before := calls;
      var code, discard := TakeFirst();
      while code == 0
        invariant Valid() && sgList.lIt == old(sgList.lIt) && calls == before && free == old(free)
        invariant code != 0 ==> sgList.contents == []
        invariant forall i :: 0 <= i < |sgList.elems| ==> sgList.elems[i] in old(sgList.elems)
        decreases |sgList.contents|, code == 0
      {
        code, discard := TakeFirst();
      }
      calls := calls + [AbortXfer];
      ret := abortRet;
    }

    /** default_sg_callback, the completion interrupt; it is registered only when there is an
        interrupt controller. */
    method SgCallback(configRet: int, startRet: int, abortRet: int)
      requires Valid() && hasIrqCtrl
      modifies this, sgList, sgList.elems`prev, sgList.elems`next
      ensures Valid() && Abs() == Interrupt(old(Abs())) && sgList.lIt == old(sgList.lIt)
      ensures old(sgList.contents) == [] ==> Abs() == Channel([], old(free), old(calls) + [IrqDisable, AbortXfer])
      ensures forall i :: 0 <= i < |sgList.elems| ==> sgList.elems[i] in old(sgList.elems)
    {
      var ret, finished := TakeFirst();
      if ret != 0 {
        ret := Abort(abortRet);
        return;
      }
      var _, next := sgList.ReadFirst();
      if finished.value.hasCallback {
        calls := calls + [Complete(finished.value, next)];
      }
      if sgList.nbElements == 0 {
        calls := calls + [IrqDisable];
        free := true;
        return;
      }
      calls := calls + [ConfigXfer(next.value)];
      ret := Start(startRet);
    }
  }

  /** A fresh channel with the transfers configured and the first one started. */
  method Launch(xfers: seq<Xfer>) returns (ch: DmaChannel)
    requires xfers != [] && xfers[0].kind != Other
    ensures ch.Valid() && ch.hasIrqCtrl && ch.Abs().queue == xfers && !ch.free
    ensures Configured(ch.calls) == [xfers[0]] && Completed(ch.calls) == [] && Running(ch.calls, xfers, 1)
    ensures ch.calls == [ConfigXfer(xfers[0]), IrqRegister, IrqPriority(xfers[0].irqPriority), IrqEnable, StartXfer]
    ensures fresh(ch) && fresh(ch.sgList) && fresh(ch.sgList.lIt)
    ensures forall j :: 0 <= j < |ch.sgList.elems| ==> fresh(ch.sgList.elems[j])
  {
    hide DmaChannel.Valid, Configured, Completed, Running;
    ch := new DmaChannel(true);
    var _ := ch.Configure(xfers, 0, 0);
    var _ := ch.Start(0);
    StartedCalls(xfers[0]);
    StartedRuns(xfers);
    assert ch.calls == [ConfigXfer(xfers[0]), IrqRegister, IrqPriority(xfers[0].irqPriority), IrqEnable, StartXfer];
  }

  /** Launches the transfers and serves one interrupt each: every transfer is configured and started
      once, in order, every completion is reported once, in order and with the following transfer, and
      the channel is free, with its interrupt disabled, after the last interrupt and not before. */
  method RunTransfers(xfers: seq<Xfer>) returns (calls: seq<Call>, freeAfter: seq<bool>)
    requires xfers != [] && xfers[0].kind != Other
    ensures Configured(calls) == xfers
    ensures Completed(calls) == Owed(xfers, |xfers|)
    ensures Starts(calls) == |xfers| && Orderly(calls, xfers) && Disabled(calls)
    ensures |freeAfter| == |xfers| && forall i :: 0 <= i < |xfers| ==> (freeAfter[i] <==> i == |xfers| - 1)
  {
    hide DmaChannel.Valid, Interrupt, Configured, Completed, Owed, Running, Orderly, Disabled, Starts;
    var ch := Launch(xfers);
    ghost var c := ch.Abs();
    freeAfter := [];
    for i := 0 to |xfers|
      invariant ch.Valid() && ch.Abs() == Interrupts(c, i)
      invariant fresh(ch) && fresh(ch.sgList) && fresh(ch.sgList.lIt)
      invariant forall j :: 0 <= j < |ch.sgList.elems| ==> fresh(ch.sgList.elems[j])
      invariant |freeAfter| == i && forall j :: 0 <= j < i ==> (freeAfter[j] <==> j == |xfers| - 1)
    {
      ch.SgCallback(0, 0, 0);
      ScatterGather(c, xfers, i + 1);
      freeAfter := freeAfter + [ch.free];
    }
    ScatterGather(c, xfers, |xfers|);
    InterruptsOrderly(c, xfers, |xfers|);
    calls := ch.calls;
    assert [xfers[0]] + xfers[1..] == xfers;
    assert [] + Owed(xfers, |xfers|) == Owed(xfers, |xfers|);
  }

  lemma StartedRuns(xs: seq<Xfer>)
    requires xs != []
    ensures Running([ConfigXfer(xs[0]), IrqRegister, IrqPriority(xs[0].irqPriority), IrqEnable, StartXfer], xs, 1)
  {
    hide Orderly;
    NoCallYet(xs);
    var a := [ConfigXfer(xs[0])];
    var b := a + [IrqRegister];
    var c := b + [IrqPriority(xs[0].irqPriority)];
    var d := c + [IrqEnable];
    assert [] + a == a;
    OneCall([], ConfigXfer(xs[0]), xs);
    hide Configured, Starts;
    OneCall(a, IrqRegister, xs);
    OneCall(b, IrqPriority(xs[0].irqPriority), xs);
    OneCall(c, IrqEnable, xs);
    OneCall(d, StartXfer, xs);
    assert d + [StartXfer] == [ConfigXfer(xs[0]), IrqRegister, IrqPriority(xs[0].irqPriority), IrqEnable, StartXfer];
  }

  lemma NoCallYet(xs: seq<Xfer>)
    ensures Orderly([], xs) && Configured([]) == [] && Starts([]) == 0
  {
  }

  /** The calls of a successful configuration and start configure one transfer, complete none. */
  lemma StartedCalls(x: Xfer)
    ensures var calls := [] + [ConfigXfer(x), IrqRegister, IrqPriority(x.irqPriority)] + START_CALLS;
            Configured(calls) == [x] && Completed(calls) == []
  {
    hide Configured, Completed;
    var a := [ConfigXfer(x)] + [IrqRegister];
    var b := a + [IrqPriority(x.irqPriority)];
    var c := b + [IrqEnable];
    ShortCalls(ConfigXfer(x));
    ShortCalls(IrqRegister);
    ShortCalls(IrqPriority(x.irqPriority));
    ShortCalls(IrqEnable);
    ShortCalls(StartXfer);
    CallsConcat([ConfigXfer(x)], [IrqRegister]);
    CallsConcat(a, [IrqPriority(x.irqPriority)]);
    CallsConcat(b, [IrqEnable]);
    CallsConcat(c, [StartXfer]);
    assert [] + [ConfigXfer(x), IrqRegister, IrqPriority(x.irqPriority)] + START_CALLS == c + [StartXfer];
  }
}
