/**
 The circular buffer of util/no_os_circular_buffer.c.

 The buffer keeps, for each side, an index and a 32-bit spin count instead of an unbounded
 position.  The specification is an unbounded byte stream (datatype `Stream`): the class
 `CircularBuffer` is proved to take exactly the steps of that stream, for every order in which
 its operations are called.
 */
module CircularBuffers {
  import opened Arithmetic
  import opened Basics
  import opened Errno

  type byte = x: int | 0 <= x < 256

  /* ---------- Positions: an unbounded count as an index and a number of spins ---------- */

  /** Index in a buffer of `size` bytes after `pos` bytes. */
  function Index(size: nat, pos: nat): (r: nat)
    requires 0 < size
    ensures r < size && r <= pos
  {
    if pos < size then pos else Index(size, pos - size)
  }

  /** How often the end of the buffer was passed after `pos` bytes. */
  function Spins(size: nat, pos: nat): nat
    requires 0 < size
  {
    if pos < size then 0 else 1 + Spins(size, pos - size)
  }

  /** Index and spins are remainder and quotient. */
  lemma {:induction false} PositionIsDivMod(size: nat, pos: nat)
    requires 0 < size
    ensures Index(size, pos) == pos % size && Spins(size, pos) == pos / size
  {
    if pos < size {
      DivisionIsUnique(pos, size, 0, pos);
    } else {
      PositionIsDivMod(size, pos - size);
      var q, r := (pos - size) / size, (pos - size) % size;
      assert pos - size == q * size + r;
      assert (q + 1) * size == q * size + size;
      DivisionIsUnique(pos, size, q + 1, r);
    }
  }

  /** Moving by at most the distance to the end of the buffer wraps at most once. */
  lemma {:induction false} Advance(size: nat, pos: nat, m: nat)
    requires 0 < size && m <= size - Index(size, pos)
    ensures Index(size, pos) + m < size ==>
              Index(size, pos + m) == Index(size, pos) + m && Spins(size, pos + m) == Spins(size, pos)
    ensures Index(size, pos) + m == size ==>
              Index(size, pos + m) == 0 && Spins(size, pos + m) == Spins(size, pos) + 1
  {
    if pos >= size {
      Advance(size, pos - size, m);
    }
  }

  /** The distance of two positions from their indices, when at most one spin lies between. */
  lemma {:induction false} Distance(size: nat, w: nat, r: nat)
    requires 0 < size && r <= w
    ensures Spins(size, r) <= Spins(size, w)
    ensures Spins(size, w) == Spins(size, r) ==> w - r == Index(size, w) - Index(size, r)
    ensures Spins(size, w) == Spins(size, r) + 1 ==> w - r == size + Index(size, w) - Index(size, r)
    ensures Spins(size, w) >= Spins(size, r) + 2 ==> w - r > size
  {
    if r >= size {
      Distance(size, w - size, r - size);
    } else if w >= size {
      Distance(size, w - size, 0);
    }
  }

  /** One full buffer behind the writer is one spin behind it, at the same index. */
  lemma Catchup(size: nat, w: nat)
    requires 0 < size <= w
    ensures Index(size, w - size) == Index(size, w)
    ensures Spins(size, w - size) % UINT32_MOD == (Spins(size, w) % UINT32_MOD - 1) % UINT32_MOD
  {
  }

  /* ---------- What no_os_cb_size reports ---------- */

  /** The answer of no_os_cb_size: the stored size, and whether an overrun is reported. */
  datatype Report = Report(overrun: bool, stored: nat)

  /** The 32-bit computation of no_os_cb_size on the two (spin count, index) pairs. */
  function SizeOf(size: nat, wSpin: nat, wIdx: nat, rSpin: nat, rIdx: nat): Report {
    var spins :=
      if wSpin > rSpin then wSpin - rSpin
      else (UINT32_MOD - 1 - rSpin + wSpin + 1) % UINT32_MOD;
    var stored := if spins > 0 then (size + wIdx - rIdx) % UINT32_MOD else (wIdx - rIdx) % UINT32_MOD;
    if stored > size then Report(true, size) else Report(false, stored)
  }

  /** SizeOf for a writer and a reader standing at unbounded positions `w` and `r`. */
  function SizeAt(size: nat, w: nat, r: nat): Report
    requires 0 < size
  {
    SizeOf(size, Spins(size, w) % UINT32_MOD, Index(size, w), Spins(size, r) % UINT32_MOD, Index(size, r))
  }

  /** What a caller wants to know: how much can be read, and whether older bytes were lost. */
  function TrueSize(size: nat, w: nat, r: nat): Report
    requires r <= w
  {
    Report(w - r > size, Min(w - r, size))
  }

  /** Exactly the positions for which no_os_cb_size tells the truth.  `k` is the number of spins
      the writer is ahead; every difference of two or more is treated by the code as one. */
  predicate Faithful(size: nat, w: nat, r: nat)
    requires 0 < size
  {
    FaithfulFor(size, Spins(size, w) - Spins(size, r), Index(size, w), Index(size, r), w - r)
  }

  predicate FaithfulFor(size: nat, k: int, wi: nat, ri: nat, ahead: int) {
    if k == 0 then true
    else if k == 1 then ahead < UINT32_MOD
    else if k % UINT32_MOD != 0 then ri < wi && size + wi - ri < UINT32_MOD
    else wi < ri && ri - wi < UINT32_MOD - size
  }

  lemma SpinDifference(ws: nat, rs: nat)
    requires rs <= ws
    ensures var w, r := ws % UINT32_MOD, rs % UINT32_MOD;
            (if w > r then w - r else (UINT32_MOD - 1 - r + w + 1) % UINT32_MOD) == (ws - rs) % UINT32_MOD
  {
    var w, r := ws % UINT32_MOD, rs % UINT32_MOD;
    assert ws == (ws / UINT32_MOD) * UINT32_MOD + w;
    assert rs == (rs / UINT32_MOD) * UINT32_MOD + r;
  }

  /** no_os_cb_size tells the truth exactly when `Faithful` holds. */
  lemma SizeFaithfulIff(size: nat, w: nat, r: nat)
    requires 0 < size < UINT32_MOD && r <= w
    ensures SizeAt(size, w, r) == TrueSize(size, w, r) <==> Faithful(size, w, r)
  {
    Distance(size, w, r);
    FaithfulCases(size, Spins(size, w), Index(size, w), Spins(size, r), Index(size, r), w - r);
  }

  /** The case analysis behind SizeFaithfulIff, on spin counts and indices. */
  lemma FaithfulCases(size: nat, ws: nat, wi: nat, rs: nat, ri: nat, ahead: nat)
    requires wi < size < UINT32_MOD && ri < size && rs <= ws
    requires ws == rs ==> ahead == wi - ri
    requires ws == rs + 1 ==> ahead == size + wi - ri
    requires ws >= rs + 2 ==> ahead > size
    ensures SizeOf(size, ws % UINT32_MOD, wi, rs % UINT32_MOD, ri) == Report(ahead > size, Min(ahead, size)) <==>
            FaithfulFor(size, ws - rs, wi, ri, ahead)
  {
    SpinDifference(ws, rs);
  }

  /** There is no false alarm, and no byte is reported that was never written. */
  lemma ReportIsSafe(size: nat, w: nat, r: nat)
    requires 0 < size < UINT32_MOD && r <= w
    ensures SizeAt(size, w, r).overrun ==> w - r > size && SizeAt(size, w, r).stored == size
    ensures SizeAt(size, w, r).stored <= Min(size, w - r)
  {
    Distance(size, w, r);
    SpinDifference(Spins(size, w), Spins(size, r));
  }

  /** A reader that is never lapped always gets the truth; this needs no bound on the totals. */
  lemma NotLappedIsFaithful(size: nat, w: nat, r: nat)
    requires 0 < size < UINT32_MOD && r <= w <= r + size
    ensures SizeAt(size, w, r) == Report(false, w - r)
  {
    Distance(size, w, r);
    SizeFaithfulIff(size, w, r);
  }

  /** The limit of the reader's protection: two spins ahead at the same index, the whole content
      was overwritten twice, yet the code reports a full buffer and no overrun. */
  lemma TwoSpinsAheadIsMissed(size: nat, r: nat)
    requires 0 < size < UINT32_MOD
    ensures SizeAt(size, r + 2 * size, r) == Report(false, size)
    ensures TrueSize(size, r + 2 * size, r) == Report(true, size)
  {
    assert Spins(size, r + 2 * size) == 1 + Spins(size, r + size) == 2 + Spins(size, r);
    assert Index(size, r + 2 * size) == Index(size, r + size) == Index(size, r);
    SpinDifference(Spins(size, r) + 2, Spins(size, r));
  }

  /* ---------- The unbounded stream ---------- */

  /** Byte `i` of the stream, zero before its beginning (the buffer starts zeroed). */
  function ByteAt(s: seq<byte>, i: int): byte
    requires i < |s|
  {
    if 0 <= i then s[i] else 0
  }

  /** The window of a writer becomes the end of the stream. */
  lemma WindowCommitted(size: nat, ring: seq<byte>, was: seq<byte>, idx: nat, n: nat, bytes: seq<byte>, idx': nat)
    requires |ring| == size && idx <= |was| && idx + n <= size && bytes == was + ring[idx..idx + n]
    requires forall off | 0 <= off < idx :: ring[off] == was[|was| - idx + off]
    requires forall off | idx + n <= off < size :: ring[off] == ByteAt(was, |was| - idx + off - size)
    requires idx' == idx + n || (idx' == 0 && idx + n == size)
    ensures forall off | 0 <= off < idx' :: ring[off] == bytes[|bytes| - idx' + off]
    ensures forall off | idx' <= off < size :: ring[off] == ByteAt(bytes, |bytes| - idx' + off - size)
  {
    forall off | idx <= off < idx + n ensures ring[off] == bytes[|was| - idx + off] {
      assert bytes[|was| + (off - idx)] == ring[idx..idx + n][off - idx];
    }
  }

  datatype Step =
    | PrepareWrite(n: nat)
    | Store(k: nat, b: byte)
    | EndWrite
    | PrepareRead(m: nat)
    | EndRead

  /** The abstract buffer: everything ever committed, the reader's position in it, the contents of
      the open write window and the length of the open read window. */
  datatype Stream = Stream(size: nat, bytes: seq<byte>, consumed: nat,
                           staged: Option<seq<byte>>, window: Option<nat>)
  {
    ghost predicate Valid() {
      && 0 < size < UINT32_MOD
      && consumed <= |bytes|
      && (staged.Some? ==> |staged.value| <= size - Index(size, |bytes|))
      && (window.Some? ==> window.value <= |bytes| - consumed)
    }

    /** Bytes of free space the open write window has claimed. */
    function Claimed(): nat { if staged.Some? then |staged.value| else 0 }

    /** The reader is not lapped, not even by the write in progress. */
    predicate Fits() { |bytes| + Claimed() <= consumed + size }

    function WriteRoom(n: nat): nat
      requires 0 < size
    {
      Min(n, size - Index(size, |bytes|))
    }

    /** A fresh window shows what was stored there one revolution ago. */
    function OneRevolutionAgo(m: nat): seq<byte>
      requires m <= size
    {
      seq<byte>(m, j requires 0 <= j < m => ByteAt(bytes, |bytes| + j - size))
    }

    /** Where the reader stands after the overrun check of a read. */
    function ReadBase(): nat
      requires Valid()
    {
      ReportIsSafe(size, |bytes|, consumed);
      if SizeAt(size, |bytes|, consumed).overrun then |bytes| - size else consumed
    }

    /** One step: the new stream, the return code and the bytes handed to the reader. */
    function Apply(step: Step): (r: (Stream, int, seq<byte>))
      requires Valid()
      requires step.Store? ==> staged.Some? && step.k < |staged.value|
    {
      match step
      case PrepareWrite(n) =>
        if staged.Some? then (this, -EBUSY, [])
        else (this.(staged := Some(OneRevolutionAgo(WriteRoom(n)))), 0, [])
      case Store(k, b) =>
        (this.(staged := Some(staged.value[k := b])), 0, [])
      case EndWrite =>
        if staged.None? then (this, -1, [])
        else (this.(bytes := bytes + staged.value, staged := None), 0, [])
      case PrepareRead(n) =>
        if window.Some? then (this, -EBUSY, [])
        else
          var report := SizeAt(size, |bytes|, consumed);
          var base := ReadBase();
          if report.stored == 0 then (this.(consumed := base), 0, [])
          else if n == 0 then (this.(consumed := base), -EAGAIN, [])
          else
            (this.(consumed := base, window := Some(Min(Min(n, report.stored), size - Index(size, base)))),
             if report.overrun then -EOVERRUN else 0, [])
      case EndRead =>
        if window.None? then (this, -1, [])
        else (this.(consumed := consumed + window.value, window := None), 0,
              bytes[consumed..consumed + window.value])
    }
  }

  /* ---------- Runs: any interleaving of one writer and one reader ---------- */

  /** A step the two users may take: stores stay inside the open window, and a prepared write fits
      into the free space. */
  ghost predicate Allowed(s: Stream, step: Step)
    requires s.Valid()
  {
    match step
    case Store(k, _) => s.staged.Some? && k < |s.staged.value|
    case PrepareWrite(n) => s.staged.Some? || |s.bytes| + s.WriteRoom(n) <= s.consumed + s.size
    case _ => true
  }

  ghost predicate Disciplined(size: nat, steps: seq<Step>)
    requires 0 < size < UINT32_MOD
    decreases |steps|, 0
  {
    steps != [] ==>
      var init := steps[..|steps| - 1];
      Disciplined(size, init) && Allowed(After(size, init).0, steps[|steps| - 1])
  }

  /** The stream after a run from an empty buffer, the return codes, and all bytes delivered. */
  ghost function After(size: nat, steps: seq<Step>): (r: (Stream, seq<int>, seq<byte>))
    requires 0 < size < UINT32_MOD && Disciplined(size, steps)
    ensures r.0.Valid() && r.0.size == size
    decreases |steps|, 1
  {
    if steps == [] then (Stream(size, [], 0, None, None), [], [])
    else
      var (s, codes, delivered) := After(size, steps[..|steps| - 1]);
      ApplyValid(s, steps[|steps| - 1]);
      var (s', code, out) := s.Apply(steps[|steps| - 1]);
      (s', codes + [code], delivered + out)
  }

  lemma ApplyValid(s: Stream, step: Step)
    requires s.Valid() && Allowed(s, step)
    ensures s.Apply(step).0.Valid()
  {
    hide SizeOf, SizeAt, Spins;
    ReportIsSafe(s.size, |s.bytes|, s.consumed);
  }

  /** One allowed step delivers exactly the bytes it moves the reader over, and never laps it. */
  lemma StepDeliversNext(s: Stream, step: Step)
    requires s.Valid() && s.Fits() && Allowed(s, step)
    ensures var (s', code, out) := s.Apply(step);
            && s'.Fits() && code != -EOVERRUN
            && s'.bytes[..s'.consumed] == s.bytes[..s.consumed] + out
  {
    hide SizeOf, SizeAt, Spins, Index;
    NotLappedIsFaithful(s.size, |s.bytes|, s.consumed);
    var (s', code, out) := s.Apply(step);
    if step.EndRead? && s.window.Some? {
      assert s'.bytes[..s'.consumed] == s.bytes[..s.consumed] + out;
    } else {
      assert out == [] && s'.bytes[..s'.consumed] == s.bytes[..s.consumed];
    }
  }

  /** In every disciplined run the reader gets the committed bytes: all of them up to its position,
      each once, in order; it never meets an overrun, and no unread byte is ever claimed. */
  lemma {:induction false} RunDeliversPrefix(size: nat, steps: seq<Step>)
    requires 0 < size < UINT32_MOD && Disciplined(size, steps)
    ensures var (s, codes, delivered) := After(size, steps);
            && delivered == s.bytes[..s.consumed]
            && s.Fits()
            && -EOVERRUN !in codes
    decreases |steps|
  {
    hide SizeOf, SizeAt, Spins, Index, Stream.Apply, Allowed;
    if steps != [] {
      RunDeliversPrefix(size, steps[..|steps| - 1]);
      StepDeliversNext(After(size, steps[..|steps| - 1]).0, steps[|steps| - 1]);
    }
  }

  lemma {:induction false} DisciplinedPrefix(size: nat, steps: seq<Step>, i: nat)
    requires 0 < size < UINT32_MOD && Disciplined(size, steps) && i <= |steps|
    ensures Disciplined(size, steps[..i])
    decreases |steps|
  {
    if i < |steps| {
      DisciplinedPrefix(size, steps[..|steps| - 1], i);
      assert steps[..|steps| - 1][..i] == steps[..i];
    } else {
      assert steps[..i] == steps;
    }
  }

  /** Executes a run on a real ring; the ring behaves as the unbounded stream does. */
  method Execute(size: nat, steps: seq<Step>) returns (codes: seq<int>, delivered: seq<byte>)
    requires 0 < size < UINT32_MOD && Disciplined(size, steps)
    ensures (codes, delivered) == (After(size, steps).1, After(size, steps).2)
    ensures delivered == After(size, steps).0.bytes[..After(size, steps).0.consumed]
  {
    hide Index, Spins, SizeOf, SizeAt, CircularBuffer.StandsAt, CircularBuffer.HoldsTail, CircularBuffer.Valid;
    var ring := new CircularBuffer(size);
    codes, delivered := [], [];
    DisciplinedPrefix(size, steps, 0);
    for i := 0 to |steps|
      invariant ring.Valid() && fresh(ring) && fresh(ring.buff) && ring.size == size
      invariant Disciplined(size, steps[..i])
      invariant After(size, steps[..i]) == (ring.Abs(), codes, delivered)
    {
      DisciplinedPrefix(size, steps, i + 1);
      assert steps[..i + 1][..i] == steps[..i];
      RunDeliversPrefix(size, steps[..i]);
      var code, out := ring.Perform(steps[i]);
      codes, delivered := codes + [code], delivered + out;
    }
    assert steps[..|steps|] == steps;
    RunDeliversPrefix(size, steps);
  }

  /* ---------- Blocking reads on the stream ---------- */

  /** One round of the read loop takes stream `s` to `s'`.  `kept` is what the previous round copied:
      when nothing is stored the round copies it again. */
  ghost predicate ChunkRead(s: Stream, n: nat, kept: seq<byte>, code: int, chunk: seq<byte>, s': Stream)
    requires s.Valid()
  {
    var report := SizeAt(s.size, |s.bytes|, s.consumed);
    ReportIsSafe(s.size, |s.bytes|, s.consumed);
    if report.stored == 0 then
      code == 0 && chunk == kept && s' == s
    else
      && code == (if report.overrun then -EOVERRUN else 0)
      && |chunk| == Min(Min(n, report.stored), s.size - Index(s.size, s.ReadBase()))
      && s' == s.(consumed := s.ReadBase() + |chunk|)
      && (|s.bytes| + s.Claimed() <= s.ReadBase() + s.size ==>
            chunk == s.bytes[s.ReadBase()..s.ReadBase() + |chunk|])
  }

  /** A round is a preparation, with the window copied when there is one, and an end. */
  lemma ReadRound(s: Stream, n: nat, kept: seq<byte>, ready: Stream, chunk: seq<byte>)
    requires s.Valid() && s.window == None && n > 0 && ready == s.Apply(PrepareRead(n)).0
    requires if ready.window == None then chunk == kept else |chunk| == ready.window.value
    requires ready.window.Some? && |ready.bytes| + ready.Claimed() <= ready.consumed + ready.size ==>
               ready.consumed + |chunk| <= |ready.bytes|
               && chunk == ready.bytes[ready.consumed..ready.consumed + |chunk|]
    ensures ready.Valid() && ready.Apply(EndRead).0.window == None
    ensures ChunkRead(s, n, kept, s.Apply(PrepareRead(n)).1, chunk, ready.Apply(EndRead).0)
  {
    hide Index, Spins, SizeOf, SizeAt;
    ReportIsSafe(s.size, |s.bytes|, s.consumed);
  }

  /** The size is known exactly, and no write in progress touches what is about to be read. */
  ghost predicate Tracked(s: Stream)
    requires s.Valid()
  {
    && Faithful(s.size, |s.bytes|, s.consumed)
    && |s.bytes| + s.Claimed() <= s.ReadBase() + s.size
  }

  /** The length of the last window when everything stored is read: what lies behind the end of the
      ring, or everything when nothing does. */
  function LastWindow(s: Stream): (n: nat)
    requires s.Valid()
    ensures n <= s.size && (SizeAt(s.size, |s.bytes|, s.consumed).stored > 0 ==> n > 0)
  {
    ReportIsSafe(s.size, |s.bytes|, s.consumed);
    var stored, room := SizeAt(s.size, |s.bytes|, s.consumed).stored, s.size - Index(s.size, s.ReadBase());
    if stored <= room then stored else stored - room
  }

  /** Where rounds of `last` bytes, from `i` on, first reach `n`. */
  function Filled(i: nat, last: nat, n: nat): nat
    requires last > 0
    decreases n - i
  {
    if i >= n then i else Filled(i + last, last, n)
  }

  /** The last round fills up to the next multiple, so it goes beyond what was asked for by this. */
  lemma {:induction false} FilledExceeds(i: nat, last: nat, n: nat)
    requires last > 0 && i <= n
    ensures Filled(i, last, n) == n + (i - n) % last
    decreases n - i
  {
    var x := i - n;
    if i + last <= n {
      FilledExceeds(i + last, last, n);
      assert x == x / last * last + x % last;
      assert (x / last + 1) * last == x / last * last + last;
      DivisionIsUnique(x + last, last, x / last + 1, x % last);
    } else if i < n {
      DivisionIsUnique(x, last, -1, x + last);
    }
  }

  /** After what is stored, the last window is copied over and over. */
  ghost predicate Repeated(out: seq<byte>, stored: nat, last: nat) {
    forall j | stored <= j < |out| && last <= j :: out[j] == out[j - last]
  }

  /** After `i` bytes of a blocking read of `n` bytes that started in `s`, the last round having copied
      `kept` bytes. */
  ghost predicate ReadProgress(s: Stream, n: nat, i: nat, out: seq<byte>, kept: nat, overrun: bool, now: Stream)
    requires s.Valid()
  {
    var report := SizeAt(s.size, |s.bytes|, s.consumed);
    var base := s.ReadBase();
    var got := Min(i, report.stored);
    if i == 0 then now == s && !overrun && out == []
    else
      && report.stored > 0 && overrun == report.overrun
      && base + report.stored == |s.bytes|
      && now == s.(consumed := base + got)
      && i == |out| && out[..got] == s.bytes[base..base + got]
      && 0 < kept <= i && (n <= report.stored ==> i <= n)
      && (i < report.stored && i < n ==> i == s.size - Index(s.size, base))
      && (i >= report.stored && n > report.stored ==>
            && kept == LastWindow(s) && Repeated(out, report.stored, kept)
            && Filled(i, kept, n) == Filled(report.stored, kept, n))
  }

  lemma {:induction false} ReadProgressFirst(s: Stream, n: nat, code: int, chunk: seq<byte>, now: Stream)
    requires s.Valid() && Tracked(s) && 0 < n
    requires ChunkRead(s, n, [], code, chunk, now)
    ensures chunk == [] ==> ReadOutcome(s, n, -1, [], now)
    ensures chunk != [] ==> ReadProgress(s, n, |chunk|, chunk, |chunk|, code == -EOVERRUN, now)
  {
    hide Index, Spins, SizeOf, SizeAt, Faithful, FaithfulFor, Filled;
    SizeFaithfulIff(s.size, |s.bytes|, s.consumed);
  }

  /** The next round, as long as there is something stored: a window of its own. */
  lemma {:induction false} ReadProgressStored(s: Stream, n: nat, i: nat, out: seq<byte>, overrun: bool, now: Stream,
                                              kept: seq<byte>, code: int, chunk: seq<byte>, now': Stream)
    requires s.Valid() && now.Valid() && Tracked(s) && 0 < i < n
    requires i < SizeAt(s.size, |s.bytes|, s.consumed).stored
    requires ReadProgress(s, n, i, out, |kept|, overrun, now)
    requires ChunkRead(now, n - i, kept, code, chunk, now')
    ensures chunk != [] && code == 0
    ensures ReadProgress(s, n, i + |chunk|, out + chunk, |chunk|, overrun, now')
  {
    hide Index, Spins, SizeOf, SizeAt, Faithful, FaithfulFor, Filled;
    NotLappedIsFaithful(s.size, |s.bytes|, now.consumed);
    Advance(s.size, s.ReadBase(), i);
    assert out[..i] == out;
    assert now.ReadBase() == s.ReadBase() + i;
    assert s.bytes[s.ReadBase()..s.ReadBase() + i + |chunk|] == out + chunk;
  }

  /** The next round when there is nothing stored any more: the last window again. */
  lemma {:induction false} ReadProgressStale(s: Stream, n: nat, i: nat, out: seq<byte>, overrun: bool, now: Stream,
                                             kept: seq<byte>, code: int, chunk: seq<byte>, now': Stream)
    requires s.Valid() && now.Valid() && Tracked(s) && 0 < i < n && |kept| <= |out| && kept == out[|out| - |kept|..]
    requires i >= SizeAt(s.size, |s.bytes|, s.consumed).stored
    requires ReadProgress(s, n, i, out, |kept|, overrun, now)
    requires ChunkRead(now, n - i, kept, code, chunk, now')
    ensures chunk != [] && code == 0
    ensures ReadProgress(s, n, i + |chunk|, out + chunk, |chunk|, overrun, now')
  {
    hide Index, Spins, SizeOf, SizeAt, Faithful, FaithfulFor, Filled, LastWindow, Repeated;
    NotLappedIsFaithful(s.size, |s.bytes|, now.consumed);
    var stored := SizeAt(s.size, |s.bytes|, s.consumed).stored;
    FilledOn(i, |kept|, n);
    assert (out + chunk)[..stored] == out[..stored];
    RepeatedOn(out, stored, kept);
  }

  lemma FilledOn(i: nat, last: nat, n: nat)
    requires last > 0 && i < n
    ensures Filled(i, last, n) == Filled(i + last, last, n)
  {
  }

  lemma RepeatedOn(out: seq<byte>, stored: nat, kept: seq<byte>)
    requires stored <= |out| && |kept| <= |out| && kept == out[|out| - |kept|..] && Repeated(out, stored, |kept|)
    ensures Repeated(out + kept, stored, |kept|)
  {
    forall j | stored <= j < |out + kept| && |kept| <= j
      ensures (out + kept)[j] == (out + kept)[j - |kept|]
    {
      if j >= |out| {
        assert (out + kept)[j] == kept[j - |out|] == out[j - |kept|];
      }
    }
  }

  lemma ReadProgressStarts(s: Stream, n: nat)
    requires s.Valid()
    ensures ReadProgress(s, n, 0, [], 0, false, s)
    ensures forall overrun, now :: ReadProgress(s, n, 0, [], 0, overrun, now) ==> now == s && !overrun
  {
  }

  /** Any round. */
  lemma {:induction false} ReadProgressOn(s: Stream, n: nat, out: seq<byte>, overrun: bool, now: Stream,
                                          kept: seq<byte>, code: int, chunk: seq<byte>, now': Stream)
    requires s.Valid() && now.Valid() && Tracked(s) && |out| < n && |kept| <= |out| && kept == out[|out| - |kept|..]
    requires ReadProgress(s, n, |out|, out, |kept|, overrun, now)
    requires ChunkRead(now, n - |out|, kept, code, chunk, now')
    ensures if chunk == [] then ReadOutcome(s, n, -1, out, now')
            else ReadProgress(s, n, |out + chunk|, out + chunk, |chunk|, overrun || code == -EOVERRUN, now')
  {
    hide ReadProgress, ReadOutcome, ChunkRead, Tracked, SizeAt;
    if out == [] {
      ReadProgressStarts(s, n);
      ReadProgressFirst(s, n, code, chunk, now');
      assert out + chunk == chunk;
    } else {
      if |out| < SizeAt(s.size, |s.bytes|, s.consumed).stored {
        ReadProgressStored(s, n, |out|, out, overrun, now, kept, code, chunk, now');
      } else {
        ReadProgressStale(s, n, |out|, out, overrun, now, kept, code, chunk, now');
      }
    }
  }

  /** What a read of `n` bytes returns and leaves.  When more is asked for than is stored, the last window
      is copied on until its repetitions reach `n`, or go beyond. */
  ghost predicate ReadOutcome(s: Stream, n: nat, ret: int, out: seq<byte>, now: Stream)
    requires s.Valid()
  {
    ReportIsSafe(s.size, |s.bytes|, s.consumed);
    var report := SizeAt(s.size, |s.bytes|, s.consumed);
    var base, got := s.ReadBase(), Min(n, report.stored);
    && ret == (if report.stored == 0 then -1 else if report.overrun then -EOVERRUN else 0)
    && now == s.(consumed := base + got)
    && got <= |out| && out[..got] == s.bytes[base..base + got]
    && (n <= report.stored || report.stored == 0 ==> |out| == got)
    && (n > report.stored > 0 ==>
          && Repeated(out, report.stored, LastWindow(s))
          && |out| == n + (report.stored - n) % LastWindow(s))
  }

  /** When the loop ends. */
  lemma ReadProgressEnds(s: Stream, n: nat, out: seq<byte>, kept: nat, overrun: bool, now: Stream)
    requires s.Valid() && 0 < n <= |out| && Tracked(s) && ReadProgress(s, n, |out|, out, kept, overrun, now)
    ensures ReadOutcome(s, n, if overrun then -EOVERRUN else 0, out, now)
  {
    hide Index, Spins, SizeOf, SizeAt, Faithful, FaithfulFor;
    ReportIsSafe(s.size, |s.bytes|, s.consumed);
    var stored := SizeAt(s.size, |s.bytes|, s.consumed).stored;
    if n > stored {
      FilledExceeds(stored, LastWindow(s), n);
    }
  }

  /** So it copies more than it was asked for exactly when the missing bytes are not whole windows. */
  lemma ReadsTooMuchIff(s: Stream, n: nat, ret: int, out: seq<byte>, now: Stream)
    requires s.Valid() && ReadOutcome(s, n, ret, out, now)
    ensures var stored := SizeAt(s.size, |s.bytes|, s.consumed).stored;
            |out| > n <==> n > stored > 0 && (n - stored) % LastWindow(s) != 0
  {
    hide Index, Spins, SizeOf, SizeAt;
    var stored := SizeAt(s.size, |s.bytes|, s.consumed).stored;
    if n > stored > 0 {
      var last := LastWindow(s);
      var q, r := (n - stored) / last, (n - stored) % last;
      assert n - stored == q * last + r;
      assert (-q) * last == -(q * last) && (-q - 1) * last == -(q * last) - last;
      DivisionIsUnique(stored - n, last, if r == 0 then -q else -q - 1, if r == 0 then 0 else last - r);
    }
  }

  /* ---------- The ring ---------- */

  /** One side of the buffer, struct no_os_cb_ptr. */
  datatype Cursor = Cursor(idx: nat, spinCount: nat, asyncStarted: bool, asyncSize: nat)

  class CircularBuffer {
    const size: nat
    const buff: array<byte>
    var write: Cursor
    var read: Cursor
    /** Every byte committed since the buffer was created, and the reader's position among them. */
    ghost var bytes: seq<byte>
    ghost var consumed: nat

    /** `c` stands at stream position `pos`. */
    ghost predicate StandsAt(c: Cursor, pos: nat)
      requires 0 < size
    {
      && c.idx == Index(size, pos)
      && c.spinCount == Spins(size, pos) % UINT32_MOD
      && c.asyncSize <= (if c.asyncStarted then size - c.idx else 0)
    }

    /** Outside the open write window the ring holds the last `size` bytes of the stream. */
    ghost predicate HoldsTail()
      requires 0 < size && buff.Length == size && StandsAt(write, |bytes|)
      reads `write, `bytes, buff
    {
      && (forall off | 0 <= off < write.idx :: buff[off] == bytes[|bytes| - write.idx + off])
      && (forall off | write.idx + write.asyncSize <= off < size ::
            buff[off] == ByteAt(bytes, |bytes| - write.idx + off - size))
    }

    ghost predicate Valid()
      reads this, buff
    {
      && 0 < size < UINT32_MOD && buff.Length == size
      && consumed <= |bytes|
      && StandsAt(write, |bytes|) && StandsAt(read, consumed)
      && read.asyncSize <= |bytes| - consumed
      && HoldsTail()
    }

    ghost function Abs(): (s: Stream)
      reads this, buff
      requires Valid()
      ensures s.Valid() && s.Claimed() == write.asyncSize && buff.Length == size
    {
      Stream(size, bytes, consumed,
             if write.asyncStarted then Some(buff[write.idx..write.idx + write.asyncSize]) else None,
             if read.asyncStarted then Some(read.asyncSize) else None)
    }

    /** no_os_cb_init: a zeroed buffer. */
    constructor (size: nat)
      requires 0 < size < UINT32_MOD
      ensures Valid() && fresh(buff) && this.size == size
      ensures Abs() == Stream(size, [], 0, None, None)
    {
      this.size := size;
      buff := new byte[size](_ => 0);
      write := Cursor(0, 0, false, 0);
      read := Cursor(0, 0, false, 0);
      bytes, consumed := [], 0;
    }

    /** no_os_cb_size. */
    method Size() returns (ret: int, stored: nat)
      requires Valid()
      ensures var report := SizeAt(size, |bytes|, consumed);
              stored == report.stored && ret == if report.overrun then -EOVERRUN else 0
    {
      var spins;
      if write.spinCount > read.spinCount {
        spins := write.spinCount - read.spinCount;
      } else {
        spins := (UINT32_MOD - 1 - read.spinCount + write.spinCount + 1) % UINT32_MOD;
      }
      if spins > 0 {
        stored := (size + write.idx - read.idx) % UINT32_MOD;
      } else {
        stored := (write.idx - read.idx) % UINT32_MOD;
      }
      ret := 0;
      if stored > size {
        stored := size;
        ret := -EOVERRUN;
      }
    }

    /** no_os_cb_prepare_async_write.  `window` is the offset and length handed to the caller; None
        means that the call returned before writing its out-parameters. */
    method PrepareAsyncWrite(requested: nat) returns (ret: int, window: Option<(nat, nat)>)
      requires Valid()
      modifies `write
      ensures Valid()
      ensures Abs() == old(Abs()).Apply(PrepareWrite(requested)).0
      ensures ret == old(Abs()).Apply(PrepareWrite(requested)).1
      ensures window == if ret == 0 then Some((write.idx, write.asyncSize)) else None
      ensures ret == (if old(write.asyncStarted) then -EBUSY else 0) && write.idx == old(write.idx)
      ensures ret == 0 ==> IsWholeWindow(requested, window.value)
    {
      hide Index, Spins;
      if write.asyncStarted {
        return -EBUSY, None;
      }
      write := write.(asyncSize := Min(requested, size - write.idx), asyncStarted := true);
      assert buff[write.idx..write.idx + write.asyncSize] == old(Abs()).OneRevolutionAgo(write.asyncSize);
      ret, window := 0, Some((write.idx, write.asyncSize));
    }

    /** A window has the length that was asked for, or reaches the end of the ring. */
    predicate IsWholeWindow(wanted: nat, window: (nat, nat)) {
      && window.1 <= wanted && window.0 + window.1 <= size
      && (window.1 == wanted || window.0 + window.1 == size)
    }

    /** The first half of a prepared read: after an overrun the reader is moved to the oldest byte
        that is still stored. */
    method SizeAndCatchUp() returns (ret: int, available: nat)
      requires Valid() && !read.asyncStarted
      modifies `read, `consumed
      ensures Valid() && Abs() == old(Abs()).(consumed := old(Abs()).ReadBase())
      ensures var report := SizeAt(size, old(|bytes|), old(consumed));
              available == report.stored && ret == if report.overrun then -EOVERRUN else 0
      ensures !read.asyncStarted && available <= |bytes| - consumed
    {
      hide Index, Spins, SizeOf, SizeAt;
      ReportIsSafe(size, |bytes|, consumed);
      ret, available := Size();
      if ret == -EOVERRUN {
        Catchup(size, |bytes|);
        read := read.(spinCount := (write.spinCount - 1) % UINT32_MOD, idx := write.idx);
        consumed := |bytes| - size;
      }
    }

    /** no_os_cb_prepare_async_read. */
    method PrepareAsyncRead(requested: nat) returns (ret: int, window: Option<(nat, nat)>)
      requires Valid()
      modifies `read, `consumed
      ensures Valid()
      ensures Abs() == old(Abs()).Apply(PrepareRead(requested)).0
      ensures ret == old(Abs()).Apply(PrepareRead(requested)).1
      ensures window == if old(read.asyncStarted) || !read.asyncStarted then None
                        else Some((read.idx, read.asyncSize))
      ensures window.Some? ==> window.value.0 + window.value.1 <= size
      ensures var report := SizeAt(size, old(|bytes|), old(consumed));
              if old(read.asyncStarted) then ret == -EBUSY
              else if report.stored == 0 then ret == 0 && window == None
              else if requested == 0 then ret == -EAGAIN && window == None
              else
                && ret == (if report.overrun then -EOVERRUN else 0)
                && window.Some? && IsWholeWindow(Min(requested, report.stored), window.value)
    {
      hide Index, Spins, SizeOf, SizeAt;
      if read.asyncStarted {
        return -EBUSY, None;
      }
      var available;
      ret, available := SizeAndCatchUp();
      if available == 0 {
        return 0, None;
      }
      var request := Min(requested, available);
      if request == 0 {
        return -EAGAIN, None;
      }
      read := read.(asyncSize := Min(request, size - read.idx), asyncStarted := true);
      window := Some((read.idx, read.asyncSize));
    }

    /** The owner of the write window fills it, one byte at a time. */
    method StoreByte(k: nat, b: byte)
      requires Valid() && k < write.asyncSize
      modifies buff
      ensures Valid() && Abs() == old(Abs()).Apply(Store(k, b)).0
    {
      buff[write.idx + k] := b;
    }

    /** The index and spin count after `c.asyncSize` more bytes, as both end operations compute them. */
    method Advanced(c: Cursor, ghost pos: nat) returns (c': Cursor)
      requires 0 < size < UINT32_MOD && StandsAt(c, pos) && c.asyncStarted
      ensures StandsAt(c', pos + c.asyncSize) && !c'.asyncStarted
      ensures c'.idx == c.idx + c.asyncSize || (c'.idx == 0 && c.idx + c.asyncSize == size)
    {
      Advance(size, pos, c.asyncSize);
      var newVal, spinCount := c.idx + c.asyncSize, c.spinCount;
      if newVal >= size {
        spinCount := (spinCount + 1) % UINT32_MOD;
        DivisionIsUnique(newVal, size, 1, 0);
        newVal := newVal % size;
      }
      c' := Cursor(newVal, spinCount, false, 0);
    }

    /** no_os_cb_end_async_write. */
    method EndAsyncWrite() returns (ret: int)
      requires Valid()
      modifies `write, `bytes
      ensures Valid()
      ensures Abs() == old(Abs()).Apply(EndWrite).0 && ret == old(Abs()).Apply(EndWrite).1
      ensures ret == (if old(write.asyncStarted) then 0 else -1) && !write.asyncStarted
      ensures bytes == old(bytes) + if ret == 0 then old(buff[write.idx..write.idx + write.asyncSize]) else []
    {
      hide Index, Spins;
      if !write.asyncStarted {
        return -1;
      }
      var moved := Advanced(write, |bytes|);
      Commit(moved);
      ret := 0;
    }

    /** The window becomes the end of the stream, the writer standing behind it. */
    method Commit(moved: Cursor)
      requires Valid() && write.asyncStarted && !moved.asyncStarted
      requires StandsAt(moved, |bytes| + write.asyncSize)
      requires moved.idx == write.idx + write.asyncSize || (moved.idx == 0 && write.idx + write.asyncSize == size)
      modifies `write, `bytes
      ensures Valid() && write == moved
      ensures bytes == old(bytes) + buff[old(write).idx..old(write).idx + old(write).asyncSize]
    {
      hide Index, Spins;
      ghost var was, idx, n := bytes, write.idx, write.asyncSize;
      bytes := bytes + buff[idx..idx + n];
      write := moved;
      WindowCommitted(size, buff[..], was, idx, n, bytes, moved.idx);
    }

    /** no_os_cb_end_async_read. */
    method EndAsyncRead() returns (ret: int)
      requires Valid()
      modifies `read, `consumed
      ensures Valid()
      ensures Abs() == old(Abs()).Apply(EndRead).0 && ret == old(Abs()).Apply(EndRead).1
      ensures ret == (if old(read.asyncStarted) then 0 else -1) && !read.asyncStarted
      ensures consumed == old(consumed) + if ret == 0 then old(read.asyncSize) else 0
    {
      hide Index, Spins;
      if !read.asyncStarted {
        return -1;
      }
      var moved := Advanced(read, consumed);
      consumed := consumed + read.asyncSize;
      read := moved;
      ret := 0;
    }

    /** As long as the reader is not lapped, its open window shows the stream, whatever the writer
        does to its own window in the meantime. */
    lemma WindowIsStream()
      requires Valid() && |bytes| + write.asyncSize <= consumed + size
      ensures read.idx + read.asyncSize <= buff.Length
      ensures buff[read.idx..read.idx + read.asyncSize] == bytes[consumed..consumed + read.asyncSize]
    {
      hide Index, Spins;
      Distance(size, |bytes|, consumed);
      forall off | read.idx <= off < read.idx + read.asyncSize
        ensures buff[off] == bytes[consumed + off - read.idx]
      {
      }
    }

    /** ... because the two windows never share a byte. */
    lemma WindowsDisjoint()
      requires Valid() && |bytes| + write.asyncSize <= consumed + size
      ensures write.asyncSize == 0 || read.asyncSize == 0
              || write.idx + write.asyncSize <= read.idx || read.idx + read.asyncSize <= write.idx
    {
      hide Index, Spins;
      Distance(size, |bytes|, consumed);
    }

    /** The two cursors are the totals, reduced: index modulo the size, spins modulo 2^32. */
    lemma CursorsAreTotals()
      requires Valid()
      ensures write.idx == |bytes| % size && write.spinCount == (|bytes| / size) % UINT32_MOD
      ensures read.idx == consumed % size && read.spinCount == (consumed / size) % UINT32_MOD
    {
      PositionIsDivMod(size, |bytes|);
      PositionIsDivMod(size, consumed);
    }

    /** One step of a run.  A reader that ends its transfer has copied its window out before. */
    method Perform(step: Step) returns (code: int, out: seq<byte>)
      requires Valid() && Abs().Fits() && Allowed(Abs(), step)
      modifies this, buff
      ensures Valid() && Abs() == old(Abs()).Apply(step).0
      ensures code == old(Abs()).Apply(step).1 && out == old(Abs()).Apply(step).2
    {
      hide Valid, StandsAt, HoldsTail, Index, Spins, SizeOf, SizeAt;
      out := [];
      match step
      case PrepareWrite(n) =>
        var window;
        code, window := PrepareAsyncWrite(n);
      case Store(k, b) =>
        StoreByte(k, b);
        code := 0;
      case EndWrite =>
        code := EndAsyncWrite();
      case PrepareRead(n) =>
        var window;
        code, window := PrepareAsyncRead(n);
      case EndRead =>
        WindowIsStream();
        if read.asyncStarted {
          out := buff[read.idx..read.idx + read.asyncSize];
        }
        code := EndAsyncRead();
    }

    /** The memcpy into an open write window. */
    method CopyIn(data: seq<byte>)
      requires Valid() && write.asyncStarted && |data| == write.asyncSize
      modifies buff
      ensures Valid() && Abs() == old(Abs()).(staged := Some(data))
    {
      forall j | 0 <= j < |data| {
        buff[write.idx + j] := data[j];
      }
      assert buff[write.idx..write.idx + write.asyncSize] == data;
    }

    /** One round of the loop in no_os_cb_operation, writing: as much as fits up to the end. */
    method WriteChunk(data: seq<byte>) returns (written: nat)
      requires Valid() && !write.asyncStarted && data != []
      modifies `write, `bytes, buff
      ensures Valid() && !write.asyncStarted && 0 < written <= |data|
      ensures Abs() == old(Abs()).(bytes := old(Abs()).bytes + data[..written])
    {
      hide Valid, StandsAt, HoldsTail, Index, Spins;
      var code, window := PrepareAsyncWrite(|data|);
      written := window.value.1;
      CopyIn(data[..written]);
      code := EndAsyncWrite();
    }

    /** no_os_cb_write: the blocking write never looks at the reader. */
    method Write(data: seq<byte>) returns (ret: int)
      requires Valid() && !write.asyncStarted
      modifies `write, `bytes, buff
      ensures Valid() && !write.asyncStarted
      ensures ret == if data == [] then -EINVAL else 0
      ensures Abs() == old(Abs()).(bytes := old(Abs()).bytes + data)
    {
      if data == [] {
        return -EINVAL;
      }
      hide Valid, StandsAt, HoldsTail, Index, Spins;
      ghost var s := Abs();
      var i := 0;
      while i < |data|
        invariant Valid() && !write.asyncStarted
        invariant 0 <= i <= |data|
        invariant Abs() == s.(bytes := s.bytes + data[..i])
      {
        var written := WriteChunk(data[i..]);
        assert s.bytes + data[..i] + data[i..][..written] == s.bytes + data[..i + written];
        i := i + written;
      }
      assert data[..i] == data;
      ret := 0;
    }

    /** One round of the loop in no_os_cb_operation, reading.  `start` and `available` are the
        out-parameters of the prepare call: when nothing is left they keep their last values. */
    method ReadChunk(n: nat, start: nat, available: nat)
      returns (code: int, start': nat, available': nat, chunk: seq<byte>)
      requires Valid() && !read.asyncStarted && n > 0 && start + available <= size
      modifies `read, `consumed
      ensures Valid() && !read.asyncStarted && start' + available' <= size && |chunk| == available'
      ensures chunk == buff[start'..start' + available']
      ensures ChunkRead(old(Abs()), n, old(buff[start..start + available]), code, chunk, Abs())
    {
      hide Valid, StandsAt, Index, Spins, SizeOf, SizeAt, HoldsTail, ChunkRead, Stream.Apply;
      ghost var s := Abs();
      start', available' := start, available;
      var window;
      code, window := PrepareAsyncRead(n);
      ghost var ready := Abs();
      if window.Some? {
        start', available' := window.value.0, window.value.1;
        if |bytes| + write.asyncSize <= consumed + size {
          WindowIsStream();
        }
      }
      chunk := buff[start'..start' + available'];
      ReadRound(s, n, buff[start..start + available], ready, chunk);
      var _ := EndAsyncRead();
    }

    /** no_os_cb_read. */
    method Read(n: nat) returns (ret: int, out: seq<byte>)
      requires Valid() && !read.asyncStarted
      modifies `read, `consumed
      ensures Valid() && !read.asyncStarted
      ensures n == 0 ==> ret == -EINVAL && out == [] && Abs() == old(Abs())
      ensures n > 0 && Tracked(old(Abs())) ==> ReadOutcome(old(Abs()), n, ret, out, Abs())
    {
      hide Valid, StandsAt, HoldsTail, SizeAt, Faithful, Tracked, ChunkRead, ReadOutcome, ReadProgress;
      out := [];
      if n == 0 {
        return -EINVAL, [];
      }
      ghost var s := Abs();
      var start: nat, available: nat, stickyOverrun, i := 0, 0, false, 0;
      ReadProgressStarts(s, n);
      while i < n
        invariant Valid() && !read.asyncStarted && start + available <= size
        invariant (i > 0 <==> available > 0) && i == |out| >= available
        invariant buff[start..start + available] == out[|out| - available..]
        invariant Tracked(s) ==> ReadProgress(s, n, |out|, out, available, stickyOverrun, Abs())
      {
        ghost var now, kept := Abs(), buff[start..start + available];
        var code, chunk;
        code, start, available, chunk := ReadChunk(n - i, start, available);
        if Tracked(s) {
          ReadProgressOn(s, n, out, stickyOverrun, now, kept, code, chunk, Abs());
        }
        if code == -EOVERRUN {
          stickyOverrun := true;
        }
        if available == 0 {
          return -1, out;
        }
        out := out + chunk;
        i := i + available;
      }
      ret := if stickyOverrun then -EOVERRUN else 0;
      if Tracked(s) {
        ReadProgressEnds(s, n, out, available, stickyOverrun, Abs());
      }
    }

    /** A writer that lapped the reader by less than two spins: the next read says so, delivers the
        oldest bytes still stored, in order, and leaves an ordinary buffer behind. */
    method ReadAfterOverrun(n: nat) returns (ret: int, out: seq<byte>, later: int, left: nat)
      requires Valid() && !read.asyncStarted && !write.asyncStarted && 0 < n <= size
      requires consumed + size < |bytes| < consumed + UINT32_MOD
      requires Spins(size, |bytes|) == Spins(size, consumed) + 1
      modifies `read, `consumed
      ensures Valid() && consumed == |bytes| - size + n
      ensures ret == -EOVERRUN && out == bytes[|bytes| - size..|bytes| - size + n]
      ensures later == 0 && left == size - n
    {
      hide Index, Spins, SizeOf, SizeAt, StandsAt, HoldsTail;
      SizeFaithfulIff(size, |bytes|, consumed);
      ret, out := Read(n);
      NotLappedIsFaithful(size, |bytes|, |bytes| - size + n);
      later, left := Size();
    }
  }

  /** The same on a new ring, from its first bytes on. */
  method OverrunRecovery(size: nat, before: seq<byte>, after: seq<byte>, n: nat)
    returns (ret: int, out: seq<byte>, later: int, left: nat)
    requires 0 < size < UINT32_MOD && 0 < |before| <= size && 0 < n <= size
    requires size < |after| < UINT32_MOD
    requires Spins(size, |before + after|) == Spins(size, |before|) + 1
    ensures ret == -EOVERRUN && out == after[|after| - size..|after| - size + n]
    ensures later == 0 && left == size - n
  {
    hide Index, Spins, SizeOf, SizeAt, CircularBuffer.StandsAt, CircularBuffer.HoldsTail, CircularBuffer.Valid;
    var ring := new CircularBuffer(size);
    ret := ring.Write(before);
    NotLappedIsFaithful(size, |before|, 0);
    SizeFaithfulIff(size, |before|, 0);
    ret, out := ring.Read(|before|);
    ret := ring.Write(after);
    ret, out, later, left := ring.ReadAfterOverrun(n);
  }
}
