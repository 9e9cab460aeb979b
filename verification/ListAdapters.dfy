/**
 The queue, stack and priority adapters of util/no_os_list.c: a list descriptor whose push and pop
 are chosen once.  Their order guarantees are proved on runs of pushes and pops.
 */
module ListAdapters {
  import opened Basics
  import opened LinkedLists
  import opened Sequences

  datatype AdapterType = Default | Queue | Stack | PriorityList

  datatype Op<D> = Push(data: D) | Pop

  /* ---------- The specification ---------- */

  function Pushed<D>(kind: AdapterType, cmp: (D, D) -> int, s: seq<D>, x: D): seq<D> {
    var k := if kind == PriorityList then FirstGreater(s, cmp, x, 0) else |s|;
    s[..k] + [x] + s[k..]
  }

  function Popped<D>(kind: AdapterType, s: seq<D>): (seq<D>, Option<D>) {
    if s == [] then (s, None)
    else if kind == PriorityList || kind == Queue then (s[1..], Some(s[0]))
    else (s[..|s| - 1], Some(s[|s| - 1]))
  }

  /** A run from contents `s`: the final contents and the result of every pop. */
  function Run<D>(kind: AdapterType, cmp: (D, D) -> int, s: seq<D>, ops: seq<Op<D>>): (seq<D>, seq<Option<D>>) {
    if ops == [] then (s, [])
    else
      var (s1, out) := Run(kind, cmp, s, ops[..|ops| - 1]);
      match ops[|ops| - 1]
      case Push(x) => (Pushed(kind, cmp, s1, x), out)
      case Pop => var (s2, x) := Popped(kind, s1); (s2, out + [x])
  }

  /** The data pushed in a run, and the data its pops returned. */
  function Pushes<D>(ops: seq<Op<D>>): seq<D> {
    if ops == [] then []
    else Pushes(ops[..|ops| - 1]) + if ops[|ops| - 1].Push? then [ops[|ops| - 1].data] else []
  }

  function Returned<D>(out: seq<Option<D>>): seq<D> {
    if out == [] then []
    else Returned(out[..|out| - 1]) + if out[|out| - 1].Some? then [out[|out| - 1].value] else []
  }

  lemma ReturnedAppend<D>(out: seq<Option<D>>, x: Option<D>)
    ensures Returned(out + [x]) == Returned(out) + if x.Some? then [x.value] else []
  {
    assert (out + [x])[..|out|] == out;
  }

  /* ---------- First in, first out; last in, first out ---------- */

  /** A queue gives back everything in the order it came. */
  lemma {:induction false} QueueIsFifo<D>(cmp: (D, D) -> int, ops: seq<Op<D>>)
    ensures var (s, out) := Run(Queue, cmp, [], ops); Returned(out) + s == Pushes(ops)
  {
    if ops != [] {
      QueueIsFifo(cmp, ops[..|ops| - 1]);
      var (s, out) := Run(Queue, cmp, [], ops[..|ops| - 1]);
      ReturnedAppend(out, Popped(Queue, s).1);
    }
  }

  /** A stack run that never pops from an empty list leaves what lies below alone. */
  lemma {:induction false} StackFrame<D>(kind: AdapterType, cmp: (D, D) -> int, s: seq<D>, ops: seq<Op<D>>)
    requires kind == Stack || kind == Default
    requires None !in Run(kind, cmp, [], ops).1
    ensures Run(kind, cmp, s, ops) == (s + Run(kind, cmp, [], ops).0, Run(kind, cmp, [], ops).1)
  {
    if ops == [] {
      assert s + [] == s;
    } else {
      hide Pushed, Popped;
      var init := ops[..|ops| - 1];
      var (t, out) := Run(kind, cmp, [], init);
      assert forall x :: x in out ==> x in Run(kind, cmp, [], ops).1;
      StackFrame(kind, cmp, s, init);
      if ops[|ops| - 1].Pop? {
        assert (out + [Popped(kind, t).1])[|out|] == Popped(kind, t).1;
        PopAbove(kind, s, t);
      } else {
        PushAbove(kind, cmp, s, t, ops[|ops| - 1].data);
      }
    }
  }

  lemma PopAbove<D>(kind: AdapterType, s: seq<D>, t: seq<D>)
    requires (kind == Stack || kind == Default) && Popped(kind, t).1 != None
    ensures Popped(kind, s + t) == (s + Popped(kind, t).0, Popped(kind, t).1)
  {
    assert (s + t)[..|s + t| - 1] == s + t[..|t| - 1];
  }

  lemma PushAbove<D>(kind: AdapterType, cmp: (D, D) -> int, s: seq<D>, t: seq<D>, x: D)
    requires kind == Stack || kind == Default
    ensures Pushed(kind, cmp, s + t, x) == s + Pushed(kind, cmp, t, x)
  {
    assert s + t + [x] == s + (t + [x]);
  }

  lemma {:induction false} RunConcat<D>(kind: AdapterType, cmp: (D, D) -> int, s: seq<D>, a: seq<Op<D>>, b: seq<Op<D>>)
    ensures var (s1, out1) := Run(kind, cmp, s, a); var (s2, out2) := Run(kind, cmp, s1, b);
            Run(kind, cmp, s, a + b) == (s2, out1 + out2)
  {
    if b == [] {
      assert a + b == a && Run(kind, cmp, s, a).1 + [] == Run(kind, cmp, s, a).1;
    } else {
      assert (a + b)[..|a + b| - 1] == a + b[..|b| - 1];
      RunConcat(kind, cmp, s, a, b[..|b| - 1]);
      var (s1, out1) := Run(kind, cmp, s, a);
      var (s2, out2) := Run(kind, cmp, s1, b[..|b| - 1]);
      Associative(out1, out2, [Popped(kind, s2).1]);
    }
  }

  /** A pop returns the matching push: whatever balanced run lies between, and whatever lies below. */
  lemma StackIsLifo<D>(kind: AdapterType, cmp: (D, D) -> int, s: seq<D>, x: D, between: seq<Op<D>>)
    requires kind == Stack || kind == Default
    requires Run(kind, cmp, [], between).0 == [] && None !in Run(kind, cmp, [], between).1
    ensures Run(kind, cmp, s, [Push(x)] + between + [Pop]) == (s, Run(kind, cmp, [], between).1 + [Some(x)])
  {
    var out := Run(kind, cmp, [], between).1;
    assert Run(kind, cmp, s, [Push(x)]) == (s + [x], []) by {
      assert [Push(x)][..0] == [];
      assert s[..|s|] + [x] + s[|s|..] == s + [x];
    }
    StackFrame(kind, cmp, s + [x], between);
    RunConcat(kind, cmp, s, [Push(x)], between);
    assert ([Push(x)] + between + [Pop])[..1 + |between|] == [Push(x)] + between;
    assert Run(kind, cmp, s, [Push(x)] + between) == (s + [x] + [], [] + out);
    assert s + [x] + [] == s + [x] && [] + out == out;
  }

  /* ---------- The priority list ---------- */

  /** A comparator that orders like the difference of two numbers. */
  ghost predicate TotalPreorder<D(!new)>(cmp: (D, D) -> int) {
    && (forall a, b :: cmp(a, b) > 0 <==> cmp(b, a) < 0)
    && (forall a, b, c :: cmp(a, b) <= 0 && cmp(b, c) <= 0 ==> cmp(a, c) <= 0)
  }

  ghost predicate Sorted<D>(s: seq<D>, cmp: (D, D) -> int) {
    forall i, j :: 0 <= i < j < |s| ==> cmp(s[i], s[j]) <= 0
  }

  /** The elements of `s` that compare equal to `y`, in order. */
  ghost function Class<D>(s: seq<D>, cmp: (D, D) -> int, y: D): seq<D> {
    if s == [] then []
    else Class(s[..|s| - 1], cmp, y) + if cmp(s[|s| - 1], y) == 0 then [s[|s| - 1]] else []
  }

  lemma {:induction false} ClassConcat<D>(a: seq<D>, b: seq<D>, cmp: (D, D) -> int, y: D)
    ensures Class(a + b, cmp, y) == Class(a, cmp, y) + Class(b, cmp, y)
  {
    if b == [] {
      assert a + b == a;
    } else {
      assert (a + b)[..|a + b| - 1] == a + b[..|b| - 1];
      ClassConcat(a, b[..|b| - 1], cmp, y);
    }
  }

  lemma {:induction false} ClassEmpty<D>(s: seq<D>, cmp: (D, D) -> int, y: D)
    requires forall x :: x in s ==> cmp(x, y) != 0
    ensures Class(s, cmp, y) == []
  {
    if s != [] {
      ClassEmpty(s[..|s| - 1], cmp, y);
    }
  }

  /** From the insertion point on everything is greater than the new element. */
  lemma GreaterFrom<D(!new)>(cmp: (D, D) -> int, s: seq<D>, x: D)
    requires TotalPreorder(cmp) && Sorted(s, cmp)
    ensures forall j :: FirstGreater(s, cmp, x, 0) <= j < |s| ==> cmp(s[j], x) > 0
  {
    var k := FirstGreater(s, cmp, x, 0);
    forall j | k <= j < |s|
      ensures cmp(s[j], x) > 0
    {
      if k < j {
        assert cmp(s[k], s[j]) <= 0;
      }
    }
  }

  lemma {:induction false} PushKeepsSorted<D(!new)>(cmp: (D, D) -> int, s: seq<D>, x: D)
    requires TotalPreorder(cmp) && Sorted(s, cmp)
    ensures Sorted(Pushed(PriorityList, cmp, s, x), cmp)
  {
    GreaterFrom(cmp, s, x);
    var k, r := FirstGreater(s, cmp, x, 0), Pushed(PriorityList, cmp, s, x);
    hide FirstGreater, Pushed;
    assert |r| == |s| + 1;
    assert forall i :: 0 <= i < |r| ==> r[i] == if i < k then s[i] else if i == k then x else s[i - 1];
    forall i, j | 0 <= i < j < |r|
      ensures cmp(r[i], r[j]) <= 0
    {
      if i == k {
        assert cmp(s[j - 1], x) > 0;
      }
    }
  }

  /** A push puts the element last among its equals. */
  lemma PushIsStable<D(!new)>(cmp: (D, D) -> int, s: seq<D>, x: D, y: D)
    requires TotalPreorder(cmp) && Sorted(s, cmp)
    ensures Class(Pushed(PriorityList, cmp, s, x), cmp, y) == Class(s, cmp, y) + Class([x], cmp, y)
  {
    hide Class;
    GreaterFrom(cmp, s, x);
    var k := FirstGreater(s, cmp, x, 0);
    var a, b := s[..k], s[k..];
    assert a + b == s;
    ClassConcat(a + [x], b, cmp, y);
    ClassConcat(a, [x], cmp, y);
    ClassConcat(a, b, cmp, y);
    if cmp(x, y) == 0 {
      forall z | z in b
        ensures cmp(z, y) != 0
      {
        assert cmp(y, x) <= 0;
      }
      ClassEmpty(b, cmp, y);
    } else {
      ClassEmpty([x], cmp, y);
    }
    SwapEmpty(Class(a, cmp, y), Class([x], cmp, y), Class(b, cmp, y));
  }

  lemma SwapEmpty<T>(a: seq<T>, b: seq<T>, c: seq<T>)
    requires b == [] || c == []
    ensures a + b + c == a + c + b
  {
    assert a + [] == a;
  }

  lemma PopKeepsSorted<D>(cmp: (D, D) -> int, s: seq<D>)
    requires Sorted(s, cmp)
    ensures Sorted(Popped(PriorityList, s).0, cmp)
  {
  }

  /** A pop takes the first of its class. */
  lemma PopTakesFirst<D>(cmp: (D, D) -> int, s: seq<D>, out: seq<Option<D>>, y: D)
    ensures var (s', x) := Popped(PriorityList, s);
            Class(Returned(out + [x]), cmp, y) + Class(s', cmp, y) == Class(Returned(out), cmp, y) + Class(s, cmp, y)
  {
    hide Class, Returned;
    ReturnedAppend(out, Popped(PriorityList, s).1);
    if s == [] {
      assert Returned(out) + [] == Returned(out);
    } else {
      assert [s[0]] + s[1..] == s;
      ClassConcat(Returned(out), [s[0]], cmp, y);
      ClassConcat([s[0]], s[1..], cmp, y);
      Associative(Class(Returned(out), cmp, y), Class([s[0]], cmp, y), Class(s[1..], cmp, y));
    }
  }

  /** Over every run of a priority list: it stays sorted, nothing is lost or invented, and elements
      that compare equal leave in the order they came. */
  lemma {:induction false} PriorityIsStable<D(!new)>(cmp: (D, D) -> int, ops: seq<Op<D>>, y: D)
    requires TotalPreorder(cmp)
    ensures var (s, out) := Run(PriorityList, cmp, [], ops);
            && Sorted(s, cmp)
            && Class(Returned(out), cmp, y) + Class(s, cmp, y) == Class(Pushes(ops), cmp, y)
  {
    if ops != [] {
      var init, last := ops[..|ops| - 1], ops[|ops| - 1];
      PriorityIsStable(cmp, init, y);
      var (s, out) := Run(PriorityList, cmp, [], init);
      match last
      case Push(x) =>
        hide Class, Pushed, TotalPreorder, Sorted;
        PushKeepsSorted(cmp, s, x);
        PushIsStable(cmp, s, x, y);
        ClassConcat(Pushes(init), [x], cmp, y);
        Associative(Class(Returned(out), cmp, y), Class(s, cmp, y), Class([x], cmp, y));
      case Pop =>
        hide Class, Pushed, TotalPreorder, Sorted;
        PopKeepsSorted(cmp, s);
        PopTakesFirst(cmp, s, out, y);
        assert Pushes(ops) == Pushes(init) + [] == Pushes(init);
    }
  }

  lemma PopReturnsLeast<D(!new)>(cmp: (D, D) -> int, ops: seq<Op<D>>)
    requires TotalPreorder(cmp)
    ensures var s := Run(PriorityList, cmp, [], ops).0;
            var x := Popped(PriorityList, s).1;
            && (x == None <==> s == [])
            && (x.Some? ==> x.value in s && forall z :: z in s ==> cmp(x.value, z) <= 0)
  {
    var s := Run(PriorityList, cmp, [], ops).0;
    if s != [] {
      PriorityIsStable(cmp, ops, s[0]);
      assert cmp(s[0], s[0]) <= 0;
    }
  }

  /* ---------- The implementation ---------- */

  /** struct no_os_list_desc: the list and the operations no_os_set_adapter selects for it. */
  class ListDesc<D> {
    const kind: AdapterType
    const list: List<D>

    constructor (kind: AdapterType, comparator: (D, D) -> int)
      ensures this.kind == kind && list.comparator == comparator
      ensures fresh(list) && list.Valid() && list.elems == [] && list.contents == [] && fresh(list.lIt)
    {
      this.kind := kind;
      list := new List(comparator);
    }

    method Push(data: D) returns (ret: int)
      requires list.Valid()
      modifies list, list.lIt, list.elems`prev, list.elems`next
      ensures list.Valid() && list.lIt == old(list.lIt) && ret == 0
      ensures list.contents == Pushed(kind, list.comparator, old(list.contents), data)
      ensures forall i :: 0 <= i < |list.elems| ==> list.elems[i] in old(list.elems) || fresh(list.elems[i])
    {
      ghost var k := if kind == PriorityList then FirstGreater(list.contents, list.comparator, data, 0)
                     else |list.contents|;
      InsertedIsSlices(list.contents, k, data);
      hide List.Valid;
      match kind
      case PriorityList =>
        ret := list.AddFind(data);
      case Queue =>
        ret := list.AddLast(data);
      case Default =>
        ret := list.AddLast(data);
      case Stack =>
        ret := list.AddLast(data);
    }

    method Pop() returns (ret: int, data: Option<D>)
      requires list.Valid()
      modifies list, list.elems`prev, list.elems`next
      ensures list.Valid() && list.lIt == old(list.lIt)
      ensures (list.contents, data) == Popped(kind, old(list.contents))
      ensures ret == if data == None then -1 else 0
      ensures forall i :: 0 <= i < |list.elems| ==> list.elems[i] in old(list.elems)
    {
      if list.contents != [] {
        RemovedIsSlices(list.contents, 0);
        assert list.contents[..0] + list.contents[1..] == list.contents[1..];
        assert list.contents[..|list.contents| - 1] + list.contents[|list.contents|..]
            == list.contents[..|list.contents| - 1];
        RemovedIsSlices(list.contents, |list.contents| - 1);
      }
      assert list.contents == [] <==> list.elems == [];
      hide List.Valid;
      match kind
      case PriorityList =>
        ret, data := list.GetFirst();
      case Queue =>
        ret, data := list.GetFirst();
      case Default =>
        ret, data := list.GetLast();
      case Stack =>
        ret, data := list.GetLast();
    }
  }

  /** A run on a real list returns what the run on the sequence returns. */
  method Execute<D>(kind: AdapterType, cmp: (D, D) -> int, ops: seq<Op<D>>) returns (out: seq<Option<D>>)
    ensures out == Run(kind, cmp, [], ops).1
  {
    hide Pushed, Popped;
    var desc := new ListDesc(kind, cmp);
    out := [];
    for i := 0 to |ops|
      invariant desc.list.Valid() && Run(kind, cmp, [], ops[..i]) == (desc.list.contents, out)
      invariant fresh(desc.list) && fresh(desc.list.lIt)
      invariant forall k :: 0 <= k < |desc.list.elems| ==> fresh(desc.list.elems[k])
    {
      assert ops[..i + 1][..i] == ops[..i];
      match ops[i]
      case Push(x) =>
        var _ := desc.Push(x);
      case Pop =>
        var _, x := desc.Pop();
        out := out + [x];
    }
    assert ops[..|ops|] == ops;
  }
}
