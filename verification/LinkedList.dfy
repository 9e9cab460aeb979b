/**
 The doubly linked list of util/no_os_list.c: a heap of elements with mutually inverse links, a
 descriptor with both ends and a count, and iterators that insert and remove in the middle.
 Every operation is specified on the sequence of data the list stands for.
 */
module LinkedLists {

  import opened Basics

  /* ---------- Sequences ---------- */

  ghost function Inserted<T>(s: seq<T>, k: nat, x: T): (r: seq<T>)
    requires k <= |s|
    ensures |r| == |s| + 1
    ensures forall i :: 0 <= i < |r| ==> r[i] == if i < k then s[i] else if i == k then x else s[i - 1]
  {
    seq(|s| + 1, i requires 0 <= i <= |s| => if i < k then s[i] else if i == k then x else s[i - 1])
  }

  ghost function Removed<T>(s: seq<T>, k: nat): (r: seq<T>)
    requires k < |s|
    ensures |r| == |s| - 1 && forall i :: 0 <= i < |r| ==> r[i] == if i < k then s[i] else s[i + 1]
  {
    seq(|s| - 1, i requires 0 <= i < |s| - 1 => if i < k then s[i] else s[i + 1])
  }

  lemma InsertedIsSlices<T>(s: seq<T>, k: nat, x: T)
    requires k <= |s|
    ensures Inserted(s, k, x) == s[..k] + [x] + s[k..]
  {
  }

  lemma RemovedIsSlices<T>(s: seq<T>, k: nat)
    requires k < |s|
    ensures Removed(s, k) == s[..k] + s[k + 1..]
  {
  }

  ghost predicate Distinct<T>(s: seq<T>) {
    forall i, j :: 0 <= i < j < |s| ==> s[i] != s[j]
  }

  lemma InsertedDistinct<T>(s: seq<T>, k: nat, x: T)
    requires Distinct(s) && k <= |s| && x !in s
    ensures Distinct(Inserted(s, k, x))
  {
    var r := Inserted(s, k, x);
  }

  lemma RemovedDistinct<T>(s: seq<T>, k: nat)
    requires Distinct(s) && k < |s|
    ensures Distinct(Removed(s, k)) && s[k] !in Removed(s, k)
  {
    var r := Removed(s, k);
  }

  /** The first position from `i` on whose data compares equal to `x`; the length if there is none. */
  function FirstMatch<D>(s: seq<D>, cmp: (D, D) -> int, x: D, i: nat): (k: nat)
    requires i <= |s|
    ensures i <= k <= |s| && (k < |s| ==> cmp(s[k], x) == 0)
    ensures forall j :: i <= j < k ==> cmp(s[j], x) != 0
    decreases |s| - i
  {
    if i == |s| || cmp(s[i], x) == 0 then i else FirstMatch(s, cmp, x, i + 1)
  }

  /** The first position from `i` on whose data is greater than `x`; the length if there is none. */
  function FirstGreater<D>(s: seq<D>, cmp: (D, D) -> int, x: D, i: nat): (k: nat)
    requires i <= |s|
    ensures i <= k <= |s| && (k < |s| ==> cmp(s[k], x) > 0)
    ensures forall j :: i <= j < k ==> cmp(s[j], x) <= 0
    decreases |s| - i
  {
    if i == |s| || cmp(s[i], x) > 0 then i else FirstGreater(s, cmp, x, i + 1)
  }

  /* ---------- Elements and links ---------- */

  /** struct no_os_list_elem. */
  class Elem<D> {
    var data: D
    var prev: Elem?<D>
    var next: Elem?<D>

    /** create_element. */
    constructor (data: D, prev: Elem?<D>, next: Elem?<D>)
      ensures this.data == data && this.prev == prev && this.next == next
    {
      this.data, this.prev, this.next := data, prev, next;
    }
  }

  ghost function Singleton<D>(e: Elem?<D>): set<Elem<D>> {
    if e == null then {} else {e}
  }

  /** no_os_update_links: makes `elem`, or nothing, stand between `prev` and `next`. */
  method UpdateLinks<D>(prev: Elem?<D>, elem: Elem?<D>, next: Elem?<D>)
    requires elem != null ==> prev != elem && next != elem
    modifies Singleton(prev)`next, Singleton(elem)`prev, Singleton(elem)`next, Singleton(next)`prev
    ensures prev != null ==> prev.next == if elem != null then elem else next
    ensures elem != null ==> elem.prev == prev && elem.next == next
    ensures next != null ==> next.prev == if elem != null then elem else prev
  {
    if prev != null {
      prev.next := if elem != null then elem else next;
    }
    if elem != null {
      elem.prev := prev;
      elem.next := next;
    }
    if next != null {
      next.prev := if elem != null then elem else prev;
    }
  }

  /** The elements `s` are linked in this order, both ways. */
  ghost predicate Linked<D>(s: seq<Elem<D>>)
    reads s`prev, s`next
  {
    && (forall i {:trigger s[i].prev} :: 0 <= i < |s| ==> s[i].prev == if i == 0 then null else s[i - 1])
    && (forall i {:trigger s[i].next} :: 0 <= i < |s| ==> s[i].next == if i == |s| - 1 then null else s[i + 1])
  }

  /** The links once `e` was put between neighbours `k - 1` and `k` of the chain `s`. */
  ghost predicate LinksIn<D>(s: seq<Elem<D>>, k: nat, e: Elem<D>)
    requires k <= |s|
    reads s, e
  {
    && e.prev == (if k == 0 then null else s[k - 1])
    && e.next == (if k == |s| then null else s[k])
    && (forall i {:trigger s[i].next} :: 0 <= i < |s| ==>
          s[i].next == if i == k - 1 then e else if i == |s| - 1 then null else s[i + 1])
    && (forall i {:trigger s[i].prev} :: 0 <= i < |s| ==>
          s[i].prev == if i == k then e else if i == 0 then null else s[i - 1])
  }

  lemma LinkedInserted<D>(s: seq<Elem<D>>, k: nat, e: Elem<D>)
    requires k <= |s| && LinksIn(s, k, e)
    ensures Linked(Inserted(s, k, e))
  {
    var r := Inserted(s, k, e);
  }

  /** The links of the others once element `k` of the chain `s` was linked out. */
  ghost predicate LinksOut<D>(s: seq<Elem<D>>, k: nat)
    requires k < |s|
    reads s
  {
    && (forall i {:trigger s[i].next} :: 0 <= i < |s| && i != k ==>
          s[i].next == var j := if i == k - 1 then k + 1 else i + 1; if j == |s| then null else s[j])
    && (forall i {:trigger s[i].prev} :: 0 <= i < |s| && i != k ==>
          s[i].prev == var j := if i == k + 1 then k - 1 else i - 1; if j < 0 then null else s[j])
  }

  lemma LinkedRemoved<D>(s: seq<Elem<D>>, k: nat)
    requires k < |s| && LinksOut(s, k)
    ensures Linked(Removed(s, k))
  {
    var r := Removed(s, k);
  }

  /** UpdateLinks with a new element between two neighbours in the chain `s`. */
  method LinkIn<D>(data: D, prev: Elem?<D>, next: Elem?<D>, ghost s: seq<Elem<D>>, ghost k: nat)
    returns (e: Elem<D>)
    requires Distinct(s) && Linked(s) && k <= |s|
    requires prev == if k == 0 then null else s[k - 1]
    requires next == if k == |s| then null else s[k]
    modifies s`prev, s`next
    ensures fresh(e) && e.data == data && Distinct(Inserted(s, k, e)) && Linked(Inserted(s, k, e))
  {
    e := new Elem(data, prev, next);
    UpdateLinks(prev, e, next);
    LinkedInserted(s, k, e);
    InsertedDistinct(s, k, e);
  }

  /** UpdateLinks around element `k` of the chain `s`. */
  method LinkOut<D>(e: Elem<D>, ghost s: seq<Elem<D>>, ghost k: nat)
    requires Distinct(s) && Linked(s) && k < |s| && s[k] == e
    modifies s`prev, s`next
    ensures Distinct(Removed(s, k)) && Linked(Removed(s, k)) && e !in Removed(s, k)
    ensures e.prev == old(e.prev) && e.next == old(e.next)
  {
    UpdateLinks(e.prev, null, e.next);
    LinkedRemoved(s, k);
    RemovedDistinct(s, k);
  }

  /** The elements `s` carry the data `c`. */
  ghost predicate DataIs<D>(s: seq<Elem<D>>, c: seq<D>)
    reads s`data
  {
    |c| == |s| && forall i {:trigger s[i].data} :: 0 <= i < |s| ==> s[i].data == c[i]
  }

  lemma DataInserted<D>(s: seq<Elem<D>>, c: seq<D>, k: nat, e: Elem<D>)
    requires k <= |s| && DataIs(s, c)
    ensures DataIs(Inserted(s, k, e), Inserted(c, k, e.data))
    ensures var r := Inserted(s, k, e);
            && |r| == |s| + 1
            && r[0] == (if k == 0 then e else s[0])
            && r[|s|] == (if k == |s| then e else s[|s| - 1])
            && r[k] == e
  {
    var r, d := Inserted(s, k, e), Inserted(c, k, e.data);
    forall i | 0 <= i < |r|
      ensures r[i].data == d[i]
    {
      if i < k {
        assert r[i] == s[i];
      } else if i > k {
        assert r[i] == s[i - 1];
      }
    }
  }

  lemma DataRemoved<D>(s: seq<Elem<D>>, c: seq<D>, k: nat)
    requires k < |s| && DataIs(s, c)
    ensures DataIs(Removed(s, k), Removed(c, k)) && |Removed(s, k)| == |s| - 1
    ensures |s| > 1 ==>
              var r := Removed(s, k);
              && r[0] == s[if k == 0 then 1 else 0]
              && r[|r| - 1] == s[if k == |s| - 1 then |s| - 2 else |s| - 1]
  {
    var r, d := Removed(s, k), Removed(c, k);
    forall i | 0 <= i < |r|
      ensures r[i].data == d[i]
    {
      assert r[i] == if i < k then s[i] else s[i + 1];
    }
  }

  /* ---------- The list ---------- */

  /** struct _list_desc.  `elems` is the chain from `first` to `last`, `contents` its data. */
  class List<D> {
    var first: Elem?<D>
    var last: Elem?<D>
    var nbElements: nat
    /** The iterators made and not removed; the embedded one is not counted. */
    var nbIterators: nat
    const comparator: (D, D) -> int
    /** The iterator the operations by index and by value work with. */
    var lIt: Iterator?<D>
    ghost var elems: seq<Elem<D>>
    ghost var contents: seq<D>

    ghost predicate EndsAt(s: seq<Elem<D>>)
      reads `first, `last
    {
      && first == (if s == [] then null else s[0])
      && last == (if s == [] then null else s[|s| - 1])
    }

    ghost predicate Valid()
      reads this, elems
    {
      && Distinct(elems) && Linked(elems) && EndsAt(elems) && DataIs(elems, contents)
      && nbElements == |elems| && lIt != null && lIt.list == this
    }

    /** no_os_list_init, without the adapter. */
    constructor (comparator: (D, D) -> int)
      ensures Valid() && elems == [] && contents == []
      ensures this.comparator == comparator && nbIterators == 0 && fresh(lIt)
    {
      first, last, nbElements, nbIterators := null, null, 0, 0;
      this.comparator := comparator;
      elems, contents := [], [];
      lIt := null;
      new;
      lIt := new Iterator.Embedded(this);
    }

    /** no_os_update_desc. */
    method UpdateDesc(newFirst: Elem?<D>, newLast: Elem?<D>)
      modifies `first, `last
      ensures if newFirst == old(first) then
                last == newLast && first == (if newFirst == null || newLast == null then newLast else old(first))
              else
                first == newFirst && last == (if newLast == null || newFirst == null then newFirst else old(last))
    {
      if newFirst == first {
        last := newLast;
        if newFirst == null || newLast == null {
          first := newLast;
        }
      } else {
        first := newFirst;
        if newLast == null || newFirst == null {
          last := newFirst;
        }
      }
    }

    /** no_os_list_add_first. */
    method AddFirst(data: D) returns (ret: int)
      requires Valid()
      modifies this, elems`prev, elems`next
      ensures Valid() && ret == 0 && lIt == old(lIt)
      ensures elems != [] && elems == Inserted(old(elems), 0, elems[0]) && fresh(elems[0])
      ensures contents == Inserted(old(contents), 0, data)
    {
      hide Linked, Distinct, DataIs;
      var e := LinkIn(data, null, first, elems, 0);
      UpdateDesc(e, last);
      DataInserted(elems, contents, 0, e);
      elems, contents, nbElements := Inserted(elems, 0, e), Inserted(contents, 0, data), nbElements + 1;
      ret := 0;
    }

    /** no_os_list_add_last. */
    method AddLast(data: D) returns (ret: int)
      requires Valid()
      modifies this, elems`prev, elems`next
      ensures Valid() && ret == 0 && lIt == old(lIt)
      ensures elems != [] && fresh(elems[|elems| - 1])
      ensures elems == Inserted(old(elems), |old(elems)|, elems[|elems| - 1])
      ensures contents == Inserted(old(contents), |old(contents)|, data)
    {
      hide Linked, Distinct, DataIs;
      var e := LinkIn(data, last, null, elems, |elems|);
      UpdateDesc(first, e);
      DataInserted(elems, contents, |elems|, e);
      elems, contents, nbElements := Inserted(elems, |elems|, e), Inserted(contents, |contents|, data), nbElements + 1;
      ret := 0;
    }

    /** One element less is counted; its links and the descriptor were updated before. */
    method Shorten(ghost k: nat)
      requires k < |elems| == |contents| == nbElements && lIt != null && lIt.list == this
      requires var s := Removed(elems, k);
               Distinct(s) && Linked(s) && EndsAt(s) && DataIs(s, Removed(contents, k))
      modifies `elems, `contents, `nbElements
      ensures Valid() && elems == Removed(old(elems), k) && contents == Removed(old(contents), k)
    {
      hide Distinct, Linked, EndsAt, DataIs;
      elems, contents, nbElements := Removed(elems, k), Removed(contents, k), nbElements - 1;
    }

    /** no_os_list_get_first. */
    method GetFirst() returns (ret: int, data: Option<D>)
      requires Valid()
      modifies this, elems`prev, elems`next
      ensures Valid() && lIt == old(lIt)
      ensures if old(elems) == [] then ret == -1 && data == None && elems == [] && contents == []
              else ret == 0 && data == Some(old(contents)[0])
                   && elems == Removed(old(elems), 0) && contents == Removed(old(contents), 0)
    {
      if nbElements == 0 {
        return -1, None;
      }
      var e := first;
      var next := e.next;
      ret, data := 0, Some(e.data);
      assert next == if |elems| == 1 then null else elems[1];
      hide Linked, Distinct, DataIs, Removed;
      LinkOut(e, elems, 0);
      DataRemoved(elems, contents, 0);
      UpdateDesc(next, last);
      assert EndsAt(Removed(elems, 0));
      Shorten(0);
    }

    /** no_os_list_remove: only when no iterator is left, and then without any element. */
    method Remove() returns (ret: int)
      requires Valid()
      modifies this, elems`prev, elems`next
      ensures Valid() && lIt == old(lIt)
      ensures ret == if old(nbIterators) == 0 then 0 else -1
      ensures contents == if ret == 0 then [] else old(contents)
    {
      if nbIterators != 0 {
        return -1;
      }
      hide Linked, Distinct, DataIs;
      ret := 0;
      while ret == 0
        invariant Valid() && lIt == old(lIt)
        invariant forall i :: 0 <= i < |elems| ==> elems[i] in old(elems)
        invariant -1 <= ret <= 0 && |elems| == |contents| && (ret != 0 ==> contents == [])
        decreases |elems|, ret + 1
      {
        var data;
        ret, data := GetFirst();
      }
      ret := 0;
    }

    /** The descriptor without the last element. */
    method DropLast(prev: Elem?<D>, ghost s: seq<Elem<D>>)
      requires EndsAt(s) && s != [] && prev == if |s| == 1 then null else s[|s| - 2]
      modifies `first, `last
      ensures EndsAt(Removed(s, |s| - 1))
    {
      UpdateDesc(first, prev);
    }

    /** no_os_list_get_last. */
    method GetLast() returns (ret: int, data: Option<D>)
      requires Valid()
      modifies this, elems`prev, elems`next
      ensures Valid() && lIt == old(lIt)
      ensures if old(elems) == [] then ret == -1 && data == None && elems == [] && contents == []
              else var k := |old(elems)| - 1;
                   ret == 0 && data == Some(old(contents)[k])
                   && elems == Removed(old(elems), k) && contents == Removed(old(contents), k)
    {
      if nbElements == 0 {
        return -1, None;
      }
      var e := last;
      var prev := e.prev;
      ghost var k := |elems| - 1;
      ret, data := 0, Some(e.data);
      assert prev == if |elems| == 1 then null else elems[|elems| - 2];
      hide Linked, Distinct, DataIs, EndsAt, Removed;
      LinkOut(e, elems, k);
      DataRemoved(elems, contents, k);
      DropLast(prev, elems);
      Shorten(k);
    }

    /** Links a new element in strictly between two others, as no_os_iterator_insert does. */
    method LinkInside(data: D, prev: Elem<D>, next: Elem<D>, ghost k: nat)
      requires Valid() && 0 < k < |elems| && elems[k - 1] == prev && elems[k] == next
      modifies this, elems`prev, elems`next
      ensures Valid() && lIt == old(lIt)
      ensures k < |elems| && fresh(elems[k]) && elems == Inserted(old(elems), k, elems[k])
      ensures contents == Inserted(old(contents), k, data)
    {
      hide Linked, Distinct, DataIs, Inserted;
      var e := LinkIn(data, prev, next, elems, k);
      DataInserted(elems, contents, k, e);
      elems, contents, nbElements := Inserted(elems, k, e), Inserted(contents, k, data), nbElements + 1;
    }

    /** The descriptor after a removal through an iterator: `next` becomes first or `prev` last. */
    method DropEnd(e: Elem<D>, prev: Elem?<D>, next: Elem?<D>, ghost s: seq<Elem<D>>, ghost k: nat)
      requires Distinct(s) && EndsAt(s) && k < |s| && s[k] == e
      requires prev == if k == 0 then null else s[k - 1]
      requires next == if k == |s| - 1 then null else s[k + 1]
      modifies `first, `last
      ensures EndsAt(Removed(s, k)) && last != e
    {
      if e == first {
        UpdateDesc(next, last);
      } else if e == last {
        UpdateDesc(first, prev);
      }
    }

    /** Unlinks element `k`, as no_os_iterator_get does for the element under the iterator. */
    method Unlink(e: Elem<D>, ghost k: nat)
      requires Valid() && k < |elems| && elems[k] == e
      modifies this, elems`prev, elems`next
      ensures Valid() && lIt == old(lIt) && last != e
      ensures elems == Removed(old(elems), k) && contents == Removed(old(contents), k)
    {
      ghost var s := elems;
      var prev, next := e.prev, e.next;
      assert prev == (if k == 0 then null else s[k - 1]) && next == (if k == |s| - 1 then null else s[k + 1]);
      hide Linked, Distinct, DataIs, Removed;
      LinkOut(e, s, k);
      DataRemoved(s, contents, k);
      DropEnd(e, prev, next, s, k);
      Shorten(k);
    }

    /** no_os_list_edit_first; an empty list has no first element to edit. */
    method EditFirst(data: D) returns (ret: int)
      requires Valid() && elems != []
      modifies `contents, first`data
      ensures Valid() && ret == 0 && contents == old(contents)[0 := data]
    {
      contents := contents[0 := data];
      first.data := data;
      ret := 0;
    }

    /** no_os_list_edit_last. */
    method EditLast(data: D) returns (ret: int)
      requires Valid() && elems != []
      modifies `contents, last`data
      ensures Valid() && ret == 0 && contents == old(contents)[|contents| - 1 := data]
    {
      contents := contents[|contents| - 1 := data];
      last.data := data;
      ret := 0;
    }

    /** no_os_list_read_first. */
    method ReadFirst() returns (ret: int, data: Option<D>)
      requires Valid()
      ensures if contents == [] then ret == -1 && data == None else ret == 0 && data == Some(contents[0])
    {
      if first == null {
        return -1, None;
      }
      ret, data := 0, Some(first.data);
    }

    /** no_os_list_read_last. */
    method ReadLast() returns (ret: int, data: Option<D>)
      requires Valid()
      ensures if contents == [] then ret == -1 && data == None else ret == 0 && data == Some(contents[|contents| - 1])
    {
      if last == null {
        return -1, None;
      }
      ret, data := 0, Some(last.data);
    }

    /** Places the internal iterator at index `idx`, a uint32 that is passed on as int32. */
    method Seek(idx: nat) returns (ret: int)
      requires Valid() && idx < UINT32_MOD && ToInt32(idx) != INT32_MIN
      modifies lIt
      ensures Valid() && lIt.Valid()
      ensures if idx <= INT32_MAX && idx < |elems| then ret == 0 && lIt.elem == elems[idx] else ret == -1
    {
      hide Linked, DataIs;
      lIt.elem := first;
      ret := lIt.Move(ToInt32(idx));
    }

    /** no_os_list_add_idx.  An empty list takes the element whatever the index. */
    method AddIdx(data: D, idx: nat) returns (ret: int)
      requires Valid() && idx < UINT32_MOD
      requires ToInt32(idx) == INT32_MIN ==> elems == [] || |elems| == idx
      modifies this, lIt, elems`prev, elems`next
      ensures Valid() && lIt == old(lIt)
      ensures var n := |old(elems)|;
              if n == 0 || idx == 0 then ret == 0 && contents == Inserted(old(contents), 0, data)
              else if idx == n || (idx < n && idx <= INT32_MAX) then
                ret == 0 && contents == Inserted(old(contents), idx, data)
              else ret == -1 && elems == old(elems) && contents == old(contents)
    {
      if nbElements == 0 || idx == 0 {
        ret := AddFirst(data);
        return;
      }
      if nbElements == idx {
        ret := AddLast(data);
        return;
      }
      ret := Seek(idx);
      if ret != 0 {
        return -1;
      }
      PosIs(idx);
      hide Valid;
      ret := lIt.Insert(data, false);
    }

    /** The position of the internal iterator is unique. */
    lemma PosIs(k: nat)
      requires Valid() && k < |elems| && lIt.elem == elems[k]
      ensures lIt.Pos() == k
    {
    }

    /** no_os_list_get_idx. */
    method GetIdx(idx: nat) returns (ret: int, data: Option<D>)
      requires Valid() && idx < UINT32_MOD && ToInt32(idx) != INT32_MIN
      modifies this, lIt, elems`prev, elems`next
      ensures Valid() && lIt == old(lIt)
      ensures if idx < |old(elems)| && idx <= INT32_MAX then
                ret == 0 && data == Some(old(contents)[idx]) && contents == Removed(old(contents), idx)
              else ret == -1 && data == None && elems == old(elems) && contents == old(contents)
    {
      ret := Seek(idx);
      if ret != 0 {
        return -1, None;
      }
      PosIs(idx);
      hide Valid;
      ret, data := lIt.Get();
    }

    /** no_os_list_edit_idx. */
    method EditIdx(data: D, idx: nat) returns (ret: int)
      requires Valid() && idx < UINT32_MOD && ToInt32(idx) != INT32_MIN
      modifies `contents, lIt, elems`data
      ensures Valid() && lIt == old(lIt)
      ensures if idx < |contents| && idx <= INT32_MAX then ret == 0 && contents == old(contents)[idx := data]
              else ret == -1 && contents == old(contents)
    {
      ret := Seek(idx);
      if ret != 0 {
        return -1;
      }
      PosIs(idx);
      hide Valid;
      ret := lIt.Edit(data);
    }

    /** no_os_list_read_idx. */
    method ReadIdx(idx: nat) returns (ret: int, data: Option<D>)
      requires Valid() && idx < UINT32_MOD && (ToInt32(idx) == INT32_MIN ==> |elems| <= idx)
      modifies lIt
      ensures Valid() && lIt == old(lIt)
      ensures if idx < |contents| && idx <= INT32_MAX then ret == 0 && data == Some(contents[idx])
              else ret == -1 && data == None
    {
      if idx >= nbElements {
        return -1, None;
      }
      ret := Seek(idx);
      if ret != 0 {
        return -1, None;
      }
      PosIs(idx);
      hide Valid;
      ret, data := lIt.Read();
    }

    /** no_os_list_add_find: before the first greater element, after all equal ones. */
    method AddFind(data: D) returns (ret: int)
      requires Valid()
      modifies this, lIt, elems`prev, elems`next
      ensures Valid() && ret == 0 && lIt == old(lIt)
      ensures var k := FirstGreater(old(contents), comparator, data, 0);
              && contents == Inserted(old(contents), k, data)
              && k < |elems| && fresh(elems[k]) && elems == Inserted(old(elems), k, elems[k])
    {
      var e := first;
      ghost var k := 0;
      while e != null
        invariant k <= |elems| && e == if k < |elems| then elems[k] else null
        invariant FirstGreater(contents, comparator, data, 0) == FirstGreater(contents, comparator, data, k)
        decreases |elems| - k
      {
        if 0 < comparator(e.data, data) {
          break;
        }
        e := e.next;
        k := k + 1;
      }
      if e == null {
        lIt.elem := last;
        if elems != [] {
          PosIs(|elems| - 1);
        }
        hide Valid;
        ret := lIt.Insert(data, true);
      } else {
        lIt.elem := e;
        PosIs(k);
        hide Valid;
        ret := lIt.Insert(data, false);
      }
    }

    /** no_os_list_get_find. */
    method GetFind(x: D) returns (ret: int, data: Option<D>)
      requires Valid()
      modifies this, lIt, elems`prev, elems`next
      ensures Valid() && lIt == old(lIt)
      ensures var k := FirstMatch(old(contents), comparator, x, 0);
              if k < |old(contents)| then
                ret == 0 && data == Some(old(contents)[k]) && contents == Removed(old(contents), k)
              else ret == -1 && data == None && elems == old(elems) && contents == old(contents)
    {
      lIt.elem := first;
      ghost var k := FirstMatch(contents, comparator, x, 0);
      ret := lIt.Find(x);
      if ret != 0 {
        return -1, None;
      }
      PosIs(k);
      hide Valid;
      ret, data := lIt.Get();
    }

    /** no_os_list_edit_find. */
    method EditFind(data: D, x: D) returns (ret: int)
      requires Valid()
      modifies `contents, lIt, elems`data
      ensures Valid() && lIt == old(lIt)
      ensures var k := FirstMatch(old(contents), comparator, x, 0);
              if k < |old(contents)| then ret == 0 && contents == old(contents)[k := data]
              else ret == -1 && contents == old(contents)
    {
      lIt.elem := first;
      ghost var k := FirstMatch(contents, comparator, x, 0);
      ret := lIt.Find(x);
      if ret != 0 {
        return -1;
      }
      PosIs(k);
      hide Valid;
      ret := lIt.Edit(data);
    }

    /** no_os_list_read_find. */
    method ReadFind(x: D) returns (ret: int, data: Option<D>)
      requires Valid()
      modifies lIt
      ensures Valid() && lIt == old(lIt)
      ensures var k := FirstMatch(contents, comparator, x, 0);
              if k < |contents| then ret == 0 && data == Some(contents[k]) else ret == -1 && data == None
    {
      lIt.elem := first;
      ghost var k := FirstMatch(contents, comparator, x, 0);
      ret := lIt.Find(x);
      if ret != 0 {
        return -1, None;
      }
      PosIs(k);
      hide Valid;
      ret, data := lIt.Read();
    }
  }

  /* ---------- Iterators ---------- */

  /** struct no_os_iterator. */
  class Iterator<D> {
    const list: List<D>
    var elem: Elem?<D>

    /** no_os_iterator_init: on the first element or on the last. */
    constructor Init(list: List<D>, start: bool)
      requires list.Valid()
      modifies list`nbIterators
      ensures this.list == list && list.nbIterators == old(list.nbIterators) + 1
      ensures Valid() && (elem == null <==> list.elems == [])
      ensures elem != null ==> Pos() == if start then 0 else |list.elems| - 1
    {
      this.list := list;
      elem := if start then list.first else list.last;
      new;
      list.nbIterators := list.nbIterators + 1;
    }

    /** The iterator inside a list. */
    constructor Embedded(list: List<D>)
      ensures this.list == list && elem == null
    {
      this.list, elem := list, null;
    }

    /** no_os_iterator_remove. */
    method Remove()
      requires list.nbIterators > 0
      modifies list`nbIterators
      ensures list.nbIterators == old(list.nbIterators) - 1
    {
      list.nbIterators := list.nbIterators - 1;
    }

    ghost predicate Valid()
      reads this, list, list.elems
    {
      list.Valid() && (elem == null || elem in list.elems)
    }

    /** The index of the current element. */
    ghost function Pos(): (k: nat)
      requires elem != null && elem in list.elems
      reads this, list
      ensures k < |list.elems| && list.elems[k] == elem
    {
      var k :| 0 <= k < |list.elems| && list.elems[k] == elem; k
    }

    /** The loop of both move operations: `count` links from element `p`, forwards or backwards. */
    method Walk(from: Elem?<D>, forwards: bool, count: nat, ghost p: int) returns (e: Elem?<D>)
      requires list.Valid()
      requires from == if 0 <= p < |list.elems| then list.elems[p] else null
      requires -1 <= p <= |list.elems|
      ensures var t := if forwards then p + count else p - count;
              if from == null then e == null
              else e == if 0 <= t < |list.elems| then list.elems[t] else null
    {
      e := from;
      var steps := count;
      ghost var q := p;
      while steps > 0 && e != null
        invariant 0 <= steps <= count && -1 <= q <= |list.elems|
        invariant from != null ==> q == if forwards then p + count - steps else p - count + steps
        invariant from == null ==> e == null
        invariant e == if 0 <= q < |list.elems| then list.elems[q] else null
      {
        e := if forwards then e.next else e.prev;
        q := if forwards then q + 1 else q - 1;
        steps := steps - 1;
      }
    }

    /** no_os_iterator_move.  The absolute value of the least int32 is undefined in C. */
    method Move(steps: int) returns (ret: int)
      requires Valid() && INT32_MIN < steps <= INT32_MAX
      modifies `elem
      ensures old(elem) == null ==> ret == -1 && elem == null
      ensures old(elem) != null ==>
                var t := old(Pos()) + steps;
                if 0 <= t < |list.elems| then ret == 0 && elem == list.elems[t]
                else ret == -1 && elem == old(elem)
    {
      var count := if steps < 0 then -steps else steps;
      var e := Walk(elem, steps >= 0, count, if elem == null then -1 else Pos());
      if e == null {
        return -1;
      }
      elem := e;
      ret := 0;
    }

    /** no_os_iterator_move_to_idx: a negative index counts from the last element, which is index 0
        backwards, so -1 is the last but one. */
    method MoveToIdx(idx: int) returns (ret: int)
      requires list.Valid() && INT32_MIN < idx <= INT32_MAX
      modifies `elem
      ensures var t := if idx < 0 then |list.elems| - 1 + idx else idx;
              if 0 <= t < |list.elems| then ret == 0 && elem == list.elems[t]
              else ret == -1 && elem == old(elem)
    {
      var count := if idx < 0 then -idx else idx;
      var e := Walk(if idx < 0 then list.last else list.first, idx >= 0, count,
                    if idx < 0 then |list.elems| - 1 else 0);
      if e == null {
        return -1;
      }
      elem := e;
      ret := 0;
    }

    /** no_os_iterator_find: the first match, from the start of the list. */
    method Find(x: D) returns (ret: int)
      requires list.Valid()
      modifies `elem
      ensures var k := FirstMatch(list.contents, list.comparator, x, 0);
              if k < |list.elems| then ret == 0 && elem == list.elems[k] else ret == -1 && elem == old(elem)
    {
      var e := list.first;
      ghost var i := 0;
      while e != null
        invariant i <= |list.elems| && e == if i < |list.elems| then list.elems[i] else null
        invariant elem == old(elem)
        invariant FirstMatch(list.contents, list.comparator, x, 0) == FirstMatch(list.contents, list.comparator, x, i)
        decreases |list.elems| - i
      {
        if list.comparator(e.data, x) == 0 {
          elem := e;
          return 0;
        }
        e := e.next;
        i := i + 1;
      }
      ret := -1;
    }

    /** no_os_iterator_edit. */
    method Edit(data: D) returns (ret: int)
      requires Valid() && elem != null
      modifies elem`data, list`contents
      ensures Valid() && ret == 0
      ensures list.contents == old(list.contents)[Pos() := data]
    {
      list.contents := list.contents[Pos() := data];
      elem.data := data;
      ret := 0;
    }

    /** no_os_iterator_read. */
    method Read() returns (ret: int, data: Option<D>)
      requires Valid()
      ensures if elem == null then ret == -1 && data == None
              else ret == 0 && data == Some(list.contents[Pos()])
    {
      if elem == null {
        return -1, None;
      }
      ret, data := 0, Some(elem.data);
    }

    /** no_os_iterator_get.  The iterator moves to the following element; after the last element it
        points nowhere, not at the previous element as its comment says. */
    method Get() returns (ret: int, data: Option<D>)
      requires Valid()
      modifies `elem, list, list.elems`prev, list.elems`next
      ensures Valid() && list.lIt == old(list.lIt)
      ensures old(elem) == null ==>
                ret == -1 && data == None && elem == null
                && list.elems == old(list.elems) && list.contents == old(list.contents)
      ensures old(elem) != null ==>
                var k := old(Pos());
                && ret == 0 && data == Some(old(list.contents)[k])
                && list.elems == Removed(old(list.elems), k)
                && list.contents == Removed(old(list.contents), k)
                && elem == if k < |list.elems| then list.elems[k] else null
    {
      if elem == null {
        return -1, None;
      }
      ghost var k := Pos();
      var removed := elem;
      var prev, next := removed.prev, removed.next;
      ret, data := 0, Some(removed.data);
      assert next == if k == |list.elems| - 1 then null else list.elems[k + 1];
      hide List.Valid;
      list.Unlink(removed, k);
      elem := if removed == list.last then prev else next;
    }

    /** no_os_iterator_insert.  An iterator that points nowhere is only good for an empty list. */
    method Insert(data: D, after: bool) returns (ret: int)
      requires Valid() && (elem == null ==> list.elems == [])
      modifies list, list.elems`prev, list.elems`next
      ensures Valid() && ret == 0 && list.lIt == old(list.lIt)
      ensures var k := if elem == null then 0 else if after then old(Pos()) + 1 else old(Pos());
              && k < |list.elems| && fresh(list.elems[k])
              && list.elems == Inserted(old(list.elems), k, list.elems[k])
              && list.contents == Inserted(old(list.contents), k, data)
              && (elem != null ==> elem == list.elems[if after then k - 1 else k + 1])
    {
      ghost var k := if elem == null then 0 else Pos();
      assert elem == null <==> list.elems == [];
      assert elem == list.last <==> elem == null || k == |list.elems| - 1;
      assert elem == list.first <==> elem == null || k == 0;
      if after && elem == list.last {
        hide List.Valid;
        ret := list.AddLast(data);
        assert elem != null ==> elem == list.elems[k];
      } else if !after && elem == list.first {
        hide List.Valid;
        ret := list.AddFirst(data);
        assert elem != null ==> elem == list.elems[1];
      } else if after {
        var next := elem.next;
        assert next == list.elems[k + 1];
        hide List.Valid;
        list.LinkInside(data, elem, next, k + 1);
        assert elem == list.elems[k];
        ret := 0;
      } else {
        var prev := elem.prev;
        assert prev == list.elems[k - 1];
        hide List.Valid;
        list.LinkInside(data, prev, elem, k);
        assert elem == list.elems[k + 1];
        ret := 0;
      }
    }
  }
}
