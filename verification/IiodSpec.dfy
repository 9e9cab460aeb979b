/**
 What a connection of the iiod server (iio/iiod.c) owes to its client, independently of how the
 transport splits the bytes.

 `Finish` takes a connection in any state of its state machine and says what the world will look like
 when the current command is completed, as if every send and receive were unlimited.  `Session` does
 the same for everything that is still to come.  The implementation in IiodConn is proved to leave
 both unchanged at every step, whatever the transport does.
 */
module IiodSpec {
  import opened Basics
  import opened Decimal
  import opened Errno
  import opened Sequences

  /** IIOD_PARSER_MAX_BUF_SIZE - 1: the longest line, its newline included. */
  const LINE_MAX := 127

  datatype Kind = Help | Exit | Print | Version | Timeout | Open | Close | Read | Write
                | ReadBuf | WriteBuf | GetTrig | SetTrig | Set

  /** struct comand_desc: the command, its byte count and mask; `line` stands for the texts in it. */
  datatype Cmd = Cmd(kind: Kind, bytes: nat, mask: nat, line: string)

  /** The result of parsing a line.  A failed parse may have set the command already. */
  datatype Parsed = Parsed(ok: bool, cmd: Cmd)

  /** Answer of the application to one operation: a code, and data for the reading operations. */
  datatype Answer = Answer(code: Int32, data: string)

  datatype Call = DeviceOp(cmd: Cmd) | AttrRead(cmd: Cmd) | AttrWrite(cmd: Cmd, data: string) | Refill | Push

  /** The surroundings of a connection: bytes still to be received, bytes sent, answers still to be
      given by the application, calls made to it, the bytes its read_buffer produced and its
      write_buffer took, and the mask of the opened buffer. */
  datatype World = World(inbox: string, wire: string, answers: seq<Answer>, calls: seq<Call>,
                         produced: string, delivered: string, mask: nat)

  datatype Env = Env(parse: string -> Parsed, payloadLen: nat, xml: string)

  /** The states of iiod_run_state, IIOD_READING_WRITE_DATA twice: Oversized is the one in which the
      attribute does not fit the payload buffer.  Overrun is where the model ends: the source has
      written past that buffer. */
  datatype Phase = ReadingLine | RunningCmd | WritingResult | RwBuf | ReadingWriteData | Oversized | Overrun | LineDone

  /** The state of a connection.  `staged` is nb_buf with its index, `res` the payload of a result. */
  datatype Conn = Conn(phase: Phase, cmd: Cmd, partial: string, staged: string, idx: nat,
                       val: Int32, writeVal: bool, res: string, resIdx: nat)

  const NO_CMD := Cmd(Help, 0, 0, "")
  const FRESH := Conn(ReadingLine, NO_CMD, "", "", 0, 0, false, "", 0)
  const VERSION_TEXT := "1.1.0000000"

  datatype End = Done | Failed(err: int) | Blocked | Overflow
  datatype Outcome = Outcome(end: End, w: World)

  /* ---------- Lines ---------- */

  datatype Line = Line(text: string, rest: string) | TooLong(rest: string) | NeedMore

  /** Splits a line off the input, `partial` being what was collected of it already. */
  function SplitLine(partial: string, inbox: string): Line
    decreases |inbox|
  {
    if |partial| >= LINE_MAX then TooLong(inbox)
    else if inbox == "" then NeedMore
    else
      var c := inbox[0];
      if partial == "" && (c == '\n' || c == '\r') then SplitLine("", inbox[1..])
      else if c == '\n' then Line(partial + [c], inbox[1..])
      else SplitLine(partial + [c], inbox[1..])
  }

  /** The first position of a newline; the length if there is none. */
  function NewlineAt(s: string): (k: nat)
    ensures k <= |s| && '\n' !in s[..k] && (k < |s| ==> s[k] == '\n')
  {
    if s == "" || s[0] == '\n' then 0 else 1 + NewlineAt(s[1..])
  }

  function WithoutLeadingEnds(s: string): string {
    if s != "" && (s[0] == '\n' || s[0] == '\r') then WithoutLeadingEnds(s[1..]) else s
  }

  /** The one-shot splitter: leading line endings are skipped, then everything up to the first newline
      is the line, unless no newline comes within LINE_MAX bytes. */
  function OneShot(input: string): Line {
    var s := WithoutLeadingEnds(input);
    var k := NewlineAt(s);
    if k < |s| && k < LINE_MAX then Line(s[..k + 1], s[k + 1..])
    else if |s| >= LINE_MAX then TooLong(s[LINE_MAX..])
    else NeedMore
  }

  /** A line begun: at most LINE_MAX bytes, no newline, and no line ending at its start. */
  predicate IsPartial(s: string) {
    |s| <= LINE_MAX && '\n' !in s && (s != "" ==> s[0] != '\r')
  }

  lemma {:induction false} NewlineAfter(a: string, b: string)
    requires '\n' !in a
    ensures NewlineAt(a + b) == |a| + NewlineAt(b)
  {
    if a == "" {
      assert a + b == b;
    } else {
      assert (a + b)[1..] == a[1..] + b;
      NewlineAfter(a[1..], b);
    }
  }

  /** However far a line was collected already, the outcome is that of splitting the whole input. */
  lemma {:induction false} SplitLineIsOneShot(partial: string, inbox: string)
    requires IsPartial(partial)
    ensures SplitLine(partial, inbox) == OneShot(partial + inbox)
    decreases |inbox|
  {
    hide OneShot;
    if |partial| >= LINE_MAX || inbox == "" {
      StopsThere(partial, inbox);
    } else {
      var c, rest := inbox[0], inbox[1..];
      assert [c] + rest == inbox;
      if partial == "" && (c == '\n' || c == '\r') {
        assert "" + inbox == inbox && "" + rest == rest;
        SkipsLineEnd(inbox);
        SplitLineIsOneShot("", rest);
      } else if c == '\n' {
        EndsAtNewline(partial, inbox);
      } else {
        SplitLineIsOneShot(partial + [c], rest);
        Associative(partial, [c], rest);
      }
    }
  }

  lemma StopsThere(partial: string, inbox: string)
    requires IsPartial(partial) && (|partial| == LINE_MAX || inbox == "")
    ensures OneShot(partial + inbox) == if |partial| == LINE_MAX then TooLong(inbox) else NeedMore
  {
    NewlineAfter(partial, inbox);
    assert partial != "" ==> WithoutLeadingEnds(partial + inbox) == partial + inbox;
  }

  lemma SkipsLineEnd(s: string)
    requires s != "" && (s[0] == '\n' || s[0] == '\r')
    ensures OneShot(s) == OneShot(s[1..])
  {
  }

  lemma EndsAtNewline(partial: string, inbox: string)
    requires IsPartial(partial) && partial != "" && |partial| < LINE_MAX && inbox != "" && inbox[0] == '\n'
    ensures OneShot(partial + inbox) == Line(partial + ['\n'], inbox[1..])
  {
    NewlineAfter(partial, inbox);
    assert (partial + inbox)[..|partial| + 1] == partial + ['\n'];
    assert (partial + inbox)[|partial| + 1..] == inbox[1..];
  }

  /* ---------- The rest of a command, over an ideal transport ---------- */

  /** The next answer of the application; a device that has none left is not ready. */
  function NextAnswer(w: World): Answer {
    if w.answers == [] then Answer(-EAGAIN, "") else w.answers[0]
  }

  function Answered(w: World): World {
    w.(answers := if w.answers == [] then [] else w.answers[1..])
  }

  /** The data of a reading operation, limited to the buffer it was given. */
  function Given(a: Answer, limit: nat): string {
    a.data[..Min(|a.data|, limit)]
  }

  /** do_read_buff with nothing staged and `count` bytes to go. */
  function FinishReadBuf(env: Env, count: nat, w: World): Outcome
    decreases |w.answers|
  {
    if w.answers == [] then Outcome(Blocked, w)
    else
      var a, w1 := NextAnswer(w), Answered(w);
      if a.code == -EAGAIN then FinishReadBuf(env, count, w1)
      else if a.code < 0 then Outcome(Failed(a.code), w1)
      else
        var data := Given(a, Min(env.payloadLen, count));
        var w2 := w1.(wire := w1.wire + data, produced := w1.produced + data);
        if data == "" || |data| == count then Outcome(Done, w2)
        else FinishReadBuf(env, count - |data|, w2)
  }

  /** do_read_buff when a chunk of `len` bytes was sent. */
  function FinishSent(env: Env, count: nat, len: nat, w: World): Outcome
    requires len <= count
  {
    if len == count then Outcome(Done, w) else FinishReadBuf(env, count - len, w)
  }

  /** The reply after all data of a WRITEBUF went to the device: push_buffer, and the count left, 0. */
  function FinishPush(w: World): Outcome {
    var w1 := Answered(w).(calls := w.calls + [Push]);
    if NextAnswer(w).code < 0 then Outcome(Done, w1)
    else Outcome(Done, w1.(wire := w1.wire + "0\n"))
  }

  /** do_write_buff with a complete chunk staged. */
  function FinishChunk(env: Env, chunk: string, count: nat, w: World): Outcome
    requires |chunk| <= count
    decreases |w.answers|, 0
  {
    if w.answers == [] then Outcome(Blocked, w)
    else
      var a, w1 := NextAnswer(w), Answered(w);
      if a.code == -EAGAIN then FinishChunk(env, chunk, count, w1)
      else if a.code < 0 then Outcome(Failed(a.code), w1)
      else
        var w2 := w1.(delivered := w1.delivered + chunk);
        if |chunk| == count then FinishPush(w2) else FinishWriteBuf(env, count - |chunk|, w2)
  }

  /** do_write_buff with nothing staged and `count` bytes to go. */
  function FinishWriteBuf(env: Env, count: nat, w: World): Outcome
    decreases |w.answers|, 1
  {
    var n := Min(env.payloadLen, count);
    if |w.inbox| < n then Outcome(Blocked, w.(inbox := ""))
    else FinishChunk(env, w.inbox[..n], count, w.(inbox := w.inbox[n..]))
  }

  /** do_write_buff with `got` of a chunk received and `missing` bytes of it to come. */
  function FinishGather(env: Env, got: string, missing: nat, count: nat, w: World): Outcome
    requires |got| + missing <= count
  {
    if |w.inbox| < missing then Outcome(Blocked, w.(inbox := ""))
    else FinishChunk(env, got + w.inbox[..missing], count, w.(inbox := w.inbox[missing..]))
  }

  /** After the reply `text`: done, or the data phase of READBUF and WRITEBUF. */
  function FinishReply(env: Env, cmd: Cmd, text: string, w: World): Outcome {
    var w1 := w.(wire := w.wire + text);
    if cmd.kind == ReadBuf then FinishReadBuf(env, cmd.bytes, w1)
    else if cmd.kind == WriteBuf then FinishWriteBuf(env, cmd.bytes, w1)
    else Outcome(Done, w1)
  }

  /** The reply of a command: the result and a newline, then a non-empty payload and a newline. */
  function ReplyText(writeVal: bool, val: Int32, payload: string): string {
    (if writeVal then Dec(val) + "\n" else "") + if payload == "" then "" else payload + "\n"
  }

  /** What running a command leaves to be written: val, whether to write it, and the payload. */
  datatype Result = Result(val: Int32, writeVal: bool, payload: string)

  /** iiod_run_cmd for every command but EXIT; `attr` is the received attribute of a WRITE. */
  function RunCmd(env: Env, cmd: Cmd, attr: string, w: World): (Result, World) {
    var a, w1 := NextAnswer(w), Answered(w);
    match cmd.kind
    case Help => (Result(-EINVAL, true, ""), w)
    case Print => (Result(ToInt32(|env.xml| % UINT32_MOD), true, env.xml), w)
    case Version => (Result(0, false, VERSION_TEXT), w)
    case Read => AttributeRead(env, cmd, w)
    case GetTrig => AttributeRead(env, cmd, w)
    case Write => (Result(a.code, true, ""), w1.(calls := w1.calls + [AttrWrite(cmd, attr)]))
    case ReadBuf =>
      (if a.code < 0 then Result(a.code, true, "")
       else Result(ToInt32(cmd.bytes % UINT32_MOD), true, Hex(w.mask, 8)),
       w1.(calls := w1.calls + [Refill]))
    case WriteBuf => (Result(ToInt32(cmd.bytes % UINT32_MOD), true, ""), w)
    case Open => (Result(a.code, true, ""), w1.(calls := w1.calls + [DeviceOp(cmd)], mask := cmd.mask))
    case _ => (Result(a.code, true, ""), w1.(calls := w1.calls + [DeviceOp(cmd)]))
  }

  function AttributeRead(env: Env, cmd: Cmd, w: World): (Result, World) {
    var a, w1 := NextAnswer(w), Answered(w).(calls := w.calls + [AttrRead(cmd)]);
    if a.code < 0 then (Result(a.code, true, ""), w1)
    else (Result(ToInt32(|Given(a, env.payloadLen)| % UINT32_MOD), true, Given(a, env.payloadLen)), w1)
  }

  function FinishRun(env: Env, cmd: Cmd, attr: string, w: World): Outcome {
    if cmd.kind == Exit then Outcome(Failed(-ENOTCONN), w)
    else
      var (r, w1) := RunCmd(env, cmd, attr, w);
      FinishReply(env, cmd, ReplyText(r.writeVal, r.val, r.payload), w1)
  }

  /** The attribute of a WRITE, of which `got` was received already and `missing` bytes are to come. */
  function FinishAttr(env: Env, cmd: Cmd, got: string, missing: nat, w: World): Outcome {
    if |w.inbox| < missing then Outcome(Blocked, w.(inbox := ""))
    else FinishRun(env, cmd, got + w.inbox[..missing], w.(inbox := w.inbox[missing..]))
  }

  /** An attribute must leave room for a zero behind it. */
  predicate TooLarge(env: Env, cmd: Cmd) {
    cmd.kind == Write && cmd.bytes >= env.payloadLen
  }

  /** The attribute of a WRITE that does not fit, of which `got` bytes were received.  A count above the
      range of int32 is a negative length, which any reception completes. */
  function FinishOversized(env: Env, cmd: Cmd, got: nat, w: World): Outcome {
    Outcome(if cmd.bytes > INT32_MAX || got + |w.inbox| >= Min(cmd.bytes, env.payloadLen + 1) then Overflow
            else Blocked,
            w.(inbox := ""))
  }

  function FinishLine(env: Env, line: Line, w: World): Outcome {
    match line
    case NeedMore => Outcome(Blocked, w.(inbox := ""))
    case TooLong(rest) => Outcome(Failed(-EIO), w.(inbox := rest))
    case Line(text, rest) =>
      var p, w1 := env.parse(text), w.(inbox := rest);
      if !p.ok then FinishReply(env, p.cmd, ReplyText(true, -EINVAL, ""), w1)
      else if TooLarge(env, p.cmd) then FinishOversized(env, p.cmd, 0, w1)
      else if p.cmd.kind == Write then FinishAttr(env, p.cmd, "", p.cmd.bytes, w1)
      else FinishRun(env, p.cmd, "", w1)
  }

  /** What is left of the result in state WRITING_CMD_RESULT.  A staged result whose last digit was
      sent has no newline left to send. */
  function ResultLeft(c: Conn): string
    requires c.idx <= |c.staged|
  {
    if !c.writeVal then ""
    else if c.staged == "" then Dec(c.val) + "\n"
    else if c.idx < |c.staged| then c.staged[c.idx..] + "\n"
    else ""
  }

  /** What is left of the payload of the result. */
  function PayloadLeft(c: Conn): string
    requires c.resIdx <= |c.res|
  {
    if c.resIdx < |c.res| then c.res[c.resIdx..] + "\n" else ""
  }

  predicate NoResult(c: Conn) {
    c.res == "" && !c.writeVal && c.val == 0
  }

  predicate ConnOk(env: Env, c: Conn) {
    && c.idx <= |c.staged| && c.resIdx <= |c.res|
    && match c.phase
       case ReadingLine => |c.partial| < LINE_MAX && c == FRESH.(partial := c.partial)
       case ReadingWriteData => c.cmd.kind == Write && |c.staged| == c.cmd.bytes && NoResult(c)
       case RunningCmd => (if c.cmd.kind == Write then c.idx == |c.staged| else c.staged == "") && NoResult(c)
       case WritingResult => true
       case RwBuf =>
         if c.cmd.kind == ReadBuf then |c.staged| <= c.cmd.bytes && (c.staged != "" ==> c.idx < |c.staged|)
         else c.cmd.kind == WriteBuf && (c.staged != "" ==> |c.staged| == Min(env.payloadLen, c.cmd.bytes))
       case Oversized => TooLarge(env, c.cmd) && c.idx == |c.staged| <= Min(env.payloadLen, c.cmd.bytes) && NoResult(c)
       case Overrun => true
       case LineDone => true
  }

  /** The outcome of the current command of a connection in any state. */
  function Finish(env: Env, c: Conn, w: World): Outcome
    requires ConnOk(env, c)
  {
    match c.phase
    case ReadingLine => FinishLine(env, SplitLine(c.partial, w.inbox), w)
    case ReadingWriteData => FinishAttr(env, c.cmd, c.staged[..c.idx], |c.staged| - c.idx, w)
    case RunningCmd => FinishRun(env, c.cmd, c.staged, w)
    case WritingResult => FinishReply(env, c.cmd, ResultLeft(c) + PayloadLeft(c), w)
    case RwBuf =>
      if c.cmd.kind == ReadBuf then
        if c.staged == "" then FinishReadBuf(env, c.cmd.bytes, w)
        else FinishSent(env, c.cmd.bytes, |c.staged|, w.(wire := w.wire + c.staged[c.idx..]))
      else if c.staged == "" then FinishWriteBuf(env, c.cmd.bytes, w)
      else
        FinishGather(env, c.staged[..c.idx], |c.staged| - c.idx, c.cmd.bytes, w)
    case Oversized => FinishOversized(env, c.cmd, c.idx, w)
    case Overrun => Outcome(Overflow, w.(inbox := ""))
    case LineDone => Outcome(Done, w)
  }

  /* ---------- What READBUF and WRITEBUF move ---------- */

  /** A successful read_buffer returns nothing before `count` bytes were read. */
  predicate RunsDry(env: Env, count: nat, answers: seq<Answer>)
    decreases |answers|
  {
    if answers == [] then false
    else
      var a, rest := answers[0], answers[1..];
      if a.code == -EAGAIN then RunsDry(env, count, rest)
      else if a.code < 0 then false
      else
        var n := |Given(a, Min(env.payloadLen, count))|;
        n < count && (n == 0 || RunsDry(env, count - n, rest))
  }

  /** `t` continues `a` with the very text with which `u` continues `b`. */
  ghost predicate SameTail(a: string, t: string, b: string, u: string) {
    a <= t && b <= u && t[|a|..] == u[|b|..]
  }

  lemma SameTailLonger(a: string, d: string, t: string, b: string, u: string)
    requires SameTail(a + d, t, b + d, u)
    ensures SameTail(a, t, b, u)
  {
    assert t[|a|..] == d + t[|a + d|..] && u[|b|..] == d + u[|b + d|..];
  }

  /** READBUF sends exactly what read_buffer produced, in that order, never more than was asked for;
      when it is done exactly that much was sent if and only if no read ran dry before. */
  lemma {:induction false} ReadBufMovesExactly(env: Env, count: nat, w: World)
    ensures var o := FinishReadBuf(env, count, w);
            && SameTail(w.wire, o.w.wire, w.produced, o.w.produced)
            && |w.wire| <= |o.w.wire| <= |w.wire| + count
            && (o.end == Done ==> (|o.w.wire| == |w.wire| + count <==> !RunsDry(env, count, w.answers)))
            && o.w.inbox == w.inbox && o.w.delivered == w.delivered
    decreases |w.answers|
  {
    hide SameTail;
    if w.answers == [] {
      SameTailAt(w.wire, "", w.produced);
    } else {
      var a, w1 := NextAnswer(w), Answered(w);
      if a.code == -EAGAIN {
        ReadBufMovesExactly(env, count, w1);
      } else if a.code < 0 {
        SameTailAt(w.wire, "", w.produced);
      } else {
        var data := Given(a, Min(env.payloadLen, count));
        if data == "" || |data| == count {
          SameTailAt(w.wire, data, w.produced);
        } else {
          var w2 := w1.(wire := w1.wire + data, produced := w1.produced + data);
          ReadBufMovesExactly(env, count - |data|, w2);
          var o := FinishReadBuf(env, count - |data|, w2);
          SameTailLonger(w.wire, data, o.w.wire, w.produced, o.w.produced);
        }
      }
    }
  }

  lemma SameTailAt(a: string, d: string, b: string)
    ensures SameTail(a, a + d, b, b + d) && SameTail(a, a, b, b)
  {
  }

  /** Devices that always return something never run dry. */
  lemma {:induction false} GenerousNeverDry(env: Env, count: nat, answers: seq<Answer>)
    requires env.payloadLen > 0
    requires forall i :: 0 <= i < |answers| && answers[i].code >= 0 ==> answers[i].data != ""
    ensures !RunsDry(env, count, answers)
    decreases |answers|
  {
    if answers != [] && (answers[0].code == -EAGAIN || answers[0].code >= 0) {
      var n := if answers[0].code < 0 then 0 else |Given(answers[0], Min(env.payloadLen, count))|;
      GenerousNeverDry(env, count - n, answers[1..]);
    }
  }

  /** A read of nothing ends the command early, whatever came before it. */
  lemma {:induction false} DryReadEndsEarly(env: Env, count: nat, w: World)
    requires RunsDry(env, count, w.answers)
    ensures var o := FinishReadBuf(env, count, w); o.end == Done && |o.w.wire| < |w.wire| + count
    decreases |w.answers|
  {
    ReadBufMovesExactly(env, count, w);
    var a, w1 := NextAnswer(w), Answered(w);
    if a.code == -EAGAIN {
      DryReadEndsEarly(env, count, w1);
    } else {
      var data := Given(a, Min(env.payloadLen, count));
      if data != "" {
        DryReadEndsEarly(env, count - |data|, w1.(wire := w1.wire + data, produced := w1.produced + data));
      }
    }
  }

  /** WRITEBUF hands the device exactly the next `count` bytes of input, in order, and leaves the rest;
      what it writes is at most the final reply. */
  lemma {:induction false} WriteBufMovesExactly(env: Env, count: nat, w: World)
    requires env.payloadLen > 0
    ensures var o := FinishWriteBuf(env, count, w);
            o.end == Done ==>
              && count <= |w.inbox|
              && o.w.delivered == w.delivered + w.inbox[..count] && o.w.inbox == w.inbox[count..]
              && (o.w.wire == w.wire || o.w.wire == w.wire + "0\n")
    decreases |w.answers|, 1
  {
    var n := Min(env.payloadLen, count);
    if |w.inbox| >= n {
      ChunkMovesExactly(env, w.inbox[..n], count, w.(inbox := w.inbox[n..]));
      assert w.inbox[..n] + w.inbox[n..] == w.inbox;
    }
  }

  lemma {:induction false} ChunkMovesExactly(env: Env, chunk: string, count: nat, w: World)
    requires env.payloadLen > 0 && |chunk| <= count
    ensures var o := FinishChunk(env, chunk, count, w); var input := chunk + w.inbox;
            o.end == Done ==>
              && count <= |input|
              && o.w.delivered == w.delivered + input[..count] && o.w.inbox == input[count..]
              && (o.w.wire == w.wire || o.w.wire == w.wire + "0\n")
    decreases |w.answers|, 0
  {
    if w.answers != [] {
      var a, w1 := NextAnswer(w), Answered(w);
      if a.code == -EAGAIN {
        ChunkMovesExactly(env, chunk, count, w1);
      } else if a.code >= 0 {
        if |chunk| == count {
          assert (chunk + w.inbox)[..count] == chunk && (chunk + w.inbox)[count..] == w.inbox;
        } else {
          WriteBufMovesExactly(env, count - |chunk|, w1.(delivered := w1.delivered + chunk));
          if count - |chunk| <= |w.inbox| {
            assert (chunk + w.inbox)[..count] == chunk + w.inbox[..count - |chunk|];
            assert (chunk + w.inbox)[count..] == w.inbox[count - |chunk|..];
          }
        }
      }
    }
  }

  /* ---------- The rest of a session ---------- */

  /** `w'` comes after `w`: input was consumed, output appended. */
  ghost predicate Later(w: World, w': World) {
    && |w'.inbox| <= |w.inbox| && w.wire <= w'.wire && w.produced <= w'.produced && w.delivered <= w'.delivered
    && w.calls <= w'.calls
  }

  lemma {:induction false} ReadBufLater(env: Env, count: nat, w: World)
    ensures Later(w, FinishReadBuf(env, count, w).w)
    decreases |w.answers|
  {
    if w.answers != [] {
      var a, w1 := NextAnswer(w), Answered(w);
      if a.code == -EAGAIN {
        ReadBufLater(env, count, w1);
      } else if a.code >= 0 {
        var data := Given(a, Min(env.payloadLen, count));
        if data != "" && |data| != count {
          ReadBufLater(env, count - |data|, w1.(wire := w1.wire + data, produced := w1.produced + data));
        }
      }
    }
  }

  lemma {:induction false} ChunkLater(env: Env, chunk: string, count: nat, w: World)
    requires |chunk| <= count
    ensures Later(w, FinishChunk(env, chunk, count, w).w)
    decreases |w.answers|, 0
  {
    if w.answers != [] {
      var a, w1 := NextAnswer(w), Answered(w);
      if a.code == -EAGAIN {
        ChunkLater(env, chunk, count, w1);
      } else if a.code >= 0 && |chunk| != count {
        WriteBufLater(env, count - |chunk|, w1.(delivered := w1.delivered + chunk));
      }
    }
  }

  lemma {:induction false} WriteBufLater(env: Env, count: nat, w: World)
    ensures Later(w, FinishWriteBuf(env, count, w).w)
    decreases |w.answers|, 1
  {
    var n := Min(env.payloadLen, count);
    if |w.inbox| >= n {
      ChunkLater(env, w.inbox[..n], count, w.(inbox := w.inbox[n..]));
    }
  }

  lemma ReplyLater(env: Env, cmd: Cmd, text: string, w: World)
    ensures Later(w, FinishReply(env, cmd, text, w).w)
  {
    hide FinishReadBuf, FinishWriteBuf;
    var w1 := w.(wire := w.wire + text);
    ReadBufLater(env, cmd.bytes, w1);
    WriteBufLater(env, cmd.bytes, w1);
  }

  lemma RunLater(env: Env, cmd: Cmd, attr: string, w: World)
    ensures Later(w, FinishRun(env, cmd, attr, w).w)
  {
    hide FinishReply, ReplyText;
    if cmd.kind != Exit {
      var (r, w1) := RunCmd(env, cmd, attr, w);
      ReplyLater(env, cmd, ReplyText(r.writeVal, r.val, r.payload), w1);
    }
  }

  lemma AttrLater(env: Env, cmd: Cmd, got: string, missing: nat, w: World)
    ensures Later(w, FinishAttr(env, cmd, got, missing, w).w)
  {
    hide FinishRun;
    if |w.inbox| >= missing {
      RunLater(env, cmd, got + w.inbox[..missing], w.(inbox := w.inbox[missing..]));
    }
  }

  /** A command takes at least one byte of input, and only appends to the output. */
  lemma LineLeft(env: Env, partial: string, w: World)
    requires |partial| < LINE_MAX
    ensures var o := FinishLine(env, SplitLine(partial, w.inbox), w);
            Later(w, o.w) && (o.end != Blocked ==> |o.w.inbox| < |w.inbox|)
  {
    hide FinishReply, FinishRun, FinishAttr;
    SplitShrinks(partial, w.inbox);
    match SplitLine(partial, w.inbox)
    case NeedMore =>
    case TooLong(rest) =>
    case Line(text, rest) =>
      var p, w1 := env.parse(text), w.(inbox := rest);
      ReplyLater(env, p.cmd, ReplyText(true, -EINVAL, ""), w1);
      RunLater(env, p.cmd, "", w1);
      AttrLater(env, p.cmd, "", p.cmd.bytes, w1);
  }

  lemma LineLater(env: Env, w: World)
    ensures var o := Finish(env, FRESH, w); Later(w, o.w) && (o.end != Blocked ==> |o.w.inbox| < |w.inbox|)
  {
    LineLeft(env, "", w);
  }

  lemma {:induction false} SplitShrinks(partial: string, inbox: string)
    requires |partial| < LINE_MAX
    ensures match SplitLine(partial, inbox)
            case Line(_, rest) => |rest| < |inbox|
            case TooLong(rest) => |rest| < |inbox|
            case NeedMore => true
    decreases |inbox|
  {
    if inbox != "" {
      var c := inbox[0];
      if partial == "" && (c == '\n' || c == '\r') {
        SplitShrinks("", inbox[1..]);
      } else if c != '\n' && |partial| + 1 < LINE_MAX {
        SplitShrinks(partial + [c], inbox[1..]);
      }
    }
  }

  /** What a session does not go on from: no more input or answers, an overflow, the client gone. */
  predicate Stops(e: End) {
    e == Blocked || e == Overflow || e == Failed(-ENOTCONN)
  }

  /** The outcome when a connection has served everything it can: after the current command comes a
      fresh one, until the session stops. */
  function Session(env: Env, o: Outcome): (r: Outcome)
    ensures Stops(r.end)
    decreases |o.w.inbox|
  {
    if Stops(o.end) then o
    else
      LineLater(env, o.w);
      var o' := Finish(env, FRESH, o.w);
      if o'.end == Blocked then o' else Session(env, o')
  }

  /** The completion of a command does not change what the session comes to. */
  lemma SessionGoesOn(env: Env, o: Outcome)
    requires !Stops(o.end)
    ensures Session(env, o) == Session(env, Finish(env, FRESH, o.w))
  {
    hide Finish;
    LineLater(env, o.w);
  }

  lemma GatherLater(env: Env, got: string, missing: nat, count: nat, w: World)
    requires |got| + missing <= count
    ensures Later(w, FinishGather(env, got, missing, count, w).w)
  {
    hide FinishChunk;
    if |w.inbox| >= missing {
      ChunkLater(env, got + w.inbox[..missing], count, w.(inbox := w.inbox[missing..]));
    }
  }

  lemma SentLater(env: Env, count: nat, len: nat, text: string, w: World)
    requires len <= count
    ensures Later(w, FinishSent(env, count, len, w.(wire := w.wire + text)).w)
  {
    hide FinishReadBuf;
    if len != count {
      ReadBufLater(env, count - len, w.(wire := w.wire + text));
    }
  }

  lemma FinishLater(env: Env, c: Conn, w: World)
    requires ConnOk(env, c)
    ensures Later(w, Finish(env, c, w).w)
  {
    hide FinishReply, FinishRun, FinishReadBuf, FinishChunk, FinishWriteBuf, FinishLine, FinishAttr, FinishSent,
         FinishGather, SplitLine, ResultLeft, PayloadLeft;
    match c.phase
    case ReadingLine => LineLeft(env, c.partial, w);
    case ReadingWriteData => AttrLater(env, c.cmd, c.staged[..c.idx], |c.staged| - c.idx, w);
    case RunningCmd => RunLater(env, c.cmd, c.staged, w);
    case WritingResult => ReplyLater(env, c.cmd, ResultLeft(c) + PayloadLeft(c), w);
    case RwBuf =>
      if c.staged == "" {
        ReadBufLater(env, c.cmd.bytes, w);
        WriteBufLater(env, c.cmd.bytes, w);
      } else if c.cmd.kind == ReadBuf {
        SentLater(env, c.cmd.bytes, |c.staged|, c.staged[c.idx..], w);
      } else {
        GatherLater(env, c.staged[..c.idx], |c.staged| - c.idx, c.cmd.bytes, w);
      }
    case _ =>
  }

  /** The output of a session only grows: what was sent, and what the application got, is a prefix of what
      it comes to. */
  lemma {:induction false} SessionLater(env: Env, o: Outcome)
    ensures Later(o.w, Session(env, o).w)
    decreases |o.w.inbox|
  {
    hide Finish;
    if !Stops(o.end) {
      LineLater(env, o.w);
      var o' := Finish(env, FRESH, o.w);
      if o'.end != Blocked {
        SessionLater(env, o');
      }
    }
  }

  lemma SessionEnds(env: Env, o: Outcome)
    requires Stops(o.end)
    ensures Session(env, o) == o
  {
  }

  /* ---------- When a session overflows the payload buffer ---------- */

  /** The next line is a WRITE whose attribute does not fit, and enough of it comes. */
  predicate OversizedWrite(env: Env, w: World) {
    match SplitLine("", w.inbox)
    case Line(text, rest) =>
      var p := env.parse(text);
      p.ok && TooLarge(env, p.cmd) && (p.cmd.bytes > INT32_MAX || |rest| >= Min(p.cmd.bytes, env.payloadLen + 1))
    case _ => false
  }

  lemma {:induction false} ReadBufFits(env: Env, count: nat, w: World)
    ensures FinishReadBuf(env, count, w).end != Overflow
    decreases |w.answers|
  {
    if w.answers != [] {
      var a, w1 := NextAnswer(w), Answered(w);
      if a.code == -EAGAIN {
        ReadBufFits(env, count, w1);
      } else if a.code >= 0 {
        var data := Given(a, Min(env.payloadLen, count));
        if data != "" && |data| != count {
          ReadBufFits(env, count - |data|, w1.(wire := w1.wire + data, produced := w1.produced + data));
        }
      }
    }
  }

  lemma {:induction false} ChunkFits(env: Env, chunk: string, count: nat, w: World)
    requires |chunk| <= count
    ensures FinishChunk(env, chunk, count, w).end != Overflow
    decreases |w.answers|, 0
  {
    if w.answers != [] {
      var a, w1 := NextAnswer(w), Answered(w);
      if a.code == -EAGAIN {
        ChunkFits(env, chunk, count, w1);
      } else if a.code >= 0 && |chunk| != count {
        WriteBufFits(env, count - |chunk|, w1.(delivered := w1.delivered + chunk));
      }
    }
  }

  lemma {:induction false} WriteBufFits(env: Env, count: nat, w: World)
    ensures FinishWriteBuf(env, count, w).end != Overflow
    decreases |w.answers|, 1
  {
    var n := Min(env.payloadLen, count);
    if |w.inbox| >= n {
      ChunkFits(env, w.inbox[..n], count, w.(inbox := w.inbox[n..]));
    }
  }

  lemma ReplyFits(env: Env, cmd: Cmd, text: string, w: World)
    ensures FinishReply(env, cmd, text, w).end != Overflow
  {
    hide FinishReadBuf, FinishWriteBuf;
    ReadBufFits(env, cmd.bytes, w.(wire := w.wire + text));
    WriteBufFits(env, cmd.bytes, w.(wire := w.wire + text));
  }

  lemma RunFits(env: Env, cmd: Cmd, attr: string, w: World)
    ensures FinishRun(env, cmd, attr, w).end != Overflow
  {
    hide FinishReply, ReplyText, RunCmd;
    if cmd.kind != Exit {
      var (r, w1) := RunCmd(env, cmd, attr, w);
      ReplyFits(env, cmd, ReplyText(r.writeVal, r.val, r.payload), w1);
    }
  }

  /** A command overflows the buffer if and only if it is such a WRITE. */
  lemma CommandOverflowsIff(env: Env, w: World)
    ensures Finish(env, FRESH, w).end == Overflow <==> OversizedWrite(env, w)
  {
    hide FinishReply, FinishRun, SplitLine;
    match SplitLine("", w.inbox)
    case NeedMore =>
    case TooLong(rest) =>
    case Line(text, rest) =>
      var p, w1 := env.parse(text), w.(inbox := rest);
      ReplyFits(env, p.cmd, ReplyText(true, -EINVAL, ""), w1);
      RunFits(env, p.cmd, "", w1);
      if |rest| >= p.cmd.bytes {
        RunFits(env, p.cmd, "" + rest[..p.cmd.bytes], w1.(inbox := rest[p.cmd.bytes..]));
      }
  }

  /** The outcome of `k` further commands. */
  function AfterCommands(env: Env, o: Outcome, k: nat): Outcome
    decreases k
  {
    if k == 0 || Stops(o.end) then o else AfterCommands(env, Finish(env, FRESH, o.w), k - 1)
  }

  ghost predicate ReachesOversized(env: Env, o: Outcome, k: nat) {
    var x := AfterCommands(env, o, k); !Stops(x.end) && OversizedWrite(env, x.w)
  }

  /** A session overflows the payload buffer if and only if it gets to such a WRITE. */
  lemma {:induction false} SessionOverflowsIff(env: Env, o: Outcome)
    requires o.end != Overflow
    ensures Session(env, o).end == Overflow <==> exists k :: ReachesOversized(env, o, k)
    decreases |o.w.inbox|
  {
    hide Finish, OversizedWrite;
    if !Stops(o.end) {
      LineLater(env, o.w);
      CommandOverflowsIff(env, o.w);
      var o' := Finish(env, FRESH, o.w);
      if o'.end == Overflow {
        assert ReachesOversized(env, o, 0);
      } else if o'.end == Blocked {
        forall k: nat ensures !ReachesOversized(env, o, k) {
          assert k > 0 ==> AfterCommands(env, o, k) == o';
        }
      } else {
        SessionOverflowsIff(env, o');
        forall k: nat ensures ReachesOversized(env, o, k + 1) <==> ReachesOversized(env, o', k) {
        }
        assert !ReachesOversized(env, o, 0);
        if k: nat :| ReachesOversized(env, o, k) {
          assert ReachesOversized(env, o', k - 1);
        }
        if k: nat :| ReachesOversized(env, o', k) {
          assert ReachesOversized(env, o, k + 1);
        }
      }
    }
  }

  /** Such a session: the buffer is one byte too small for the attribute and its zero. */
  lemma WriteOverflows(env: Env, line: string, cmd: Cmd, data: string, answers: seq<Answer>)
    requires IsPartial(line) && line != "" && |line| < LINE_MAX && env.parse(line + "\n") == Parsed(true, cmd)
    requires cmd.kind == Write && cmd.bytes == |data| == env.payloadLen
    ensures var w := World(line + "\n" + data, "", answers, [], "", "", 0);
            Session(env, Finish(env, FRESH, w)).end == Overflow
  {
    var w := World(line + "\n" + data, "", answers, [], "", "", 0);
    Associative(line, "\n", data);
    assert "" + w.inbox == w.inbox && ("\n" + data)[1..] == data && line + ['\n'] == line + "\n";
    SplitLineIsOneShot("", w.inbox);
    EndsAtNewline(line, "\n" + data);
    CommandOverflowsIff(env, w);
    SessionEnds(env, Finish(env, FRESH, w));
  }
}
