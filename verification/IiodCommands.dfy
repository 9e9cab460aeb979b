/**
 What each command of the iiod protocol (iio/iiod.c) does to the world: the calls that the application
 gets and their data, the bytes of the reply, and what is left of the input.

 The theorems are about `Finish` of a fresh connection, which IiodConn proves of the implementation, and
 spell the result out in terms of the input and of the answers of the application.
 */
module IiodCommands {
  import opened Basics
  import opened Decimal
  import opened Errno
  import opened IiodSpec
  import opened Sequences

  /** The next line is the command `cmd`, with `rest` behind it. */
  predicate Next(env: Env, w: World, cmd: Cmd, rest: string) {
    match SplitLine("", w.inbox)
    case Line(text, behind) => env.parse(text) == Parsed(true, cmd) && behind == rest
    case _ => false
  }

  /** The code that the application answers next. */
  function Code(w: World): Int32 {
    if w.answers == [] then -EAGAIN else w.answers[0].code
  }

  /** The data that it answers with, at most `limit` bytes of it. */
  function Data(w: World, limit: nat): string {
    if w.answers == [] then ""
    else if |w.answers[0].data| <= limit then w.answers[0].data
    else w.answers[0].data[..limit]
  }

  function AnswersLeft(w: World): seq<Answer> {
    if w.answers == [] then [] else w.answers[1..]
  }

  lemma Nul(s: string)
    ensures "" + s == s + "" == s
  {
  }

  /** WRITE: the application gets the bytes behind the line, as many as were announced, and the client
      its code. */
  lemma WriteHandsOver(env: Env, w: World, cmd: Cmd, rest: string)
    requires Next(env, w, cmd, rest) && cmd.kind == Write
    requires cmd.bytes < env.payloadLen && cmd.bytes <= |rest|
    ensures Finish(env, FRESH, w)
         == Outcome(Done, World(rest[cmd.bytes..], w.wire + (Dec(Code(w)) + "\n"), AnswersLeft(w),
                                w.calls + [AttrWrite(cmd, rest[..cmd.bytes])], w.produced, w.delivered, w.mask))
  {
    hide SplitLine;
    Nul(Dec(Code(w)) + "\n");
    Nul(rest[..cmd.bytes]);
  }

  /** As long as the announced bytes are not all there, the application is not called. */
  lemma WriteWaits(env: Env, w: World, cmd: Cmd, rest: string)
    requires Next(env, w, cmd, rest) && cmd.kind == Write && |rest| < cmd.bytes < env.payloadLen
    ensures Finish(env, FRESH, w) == Outcome(Blocked, w.(inbox := ""))
  {
    hide SplitLine;
  }

  /** READ and GETTRIG: the length of the data and the data, a line each; or the code alone. */
  lemma ReadAnswers(env: Env, w: World, cmd: Cmd, rest: string)
    requires Next(env, w, cmd, rest) && (cmd.kind == Read || cmd.kind == GetTrig) && env.payloadLen <= INT32_MAX
    ensures var data := Data(w, env.payloadLen);
            var reply := if Code(w) < 0 then Dec(Code(w)) + "\n"
                         else if data == "" then "0\n"
                         else Dec(|data|) + "\n" + (data + "\n");
            && Finish(env, FRESH, w)
            == Outcome(Done, World(rest, w.wire + reply, AnswersLeft(w), w.calls + [AttrRead(cmd)],
                                   w.produced, w.delivered, w.mask))
  {
    hide SplitLine;
    var data := Data(w, env.payloadLen);
    Nul(Dec(Code(w)) + "\n");
    Nul("0\n");
    assert Dec(0) == "0";
    assert |data| % UINT32_MOD == |data|;
  }

  /** PRINT: the length of the description and the description. */
  lemma PrintAnswers(env: Env, w: World, cmd: Cmd, rest: string)
    requires Next(env, w, cmd, rest) && cmd.kind == Print && 0 < |env.xml| <= INT32_MAX
    ensures Finish(env, FRESH, w)
         == Outcome(Done, w.(inbox := rest, wire := w.wire + (Dec(|env.xml|) + "\n" + (env.xml + "\n"))))
  {
    hide SplitLine;
    assert |env.xml| % UINT32_MOD == |env.xml|;
  }

  /** VERSION answers without a code, HELP with a code alone, EXIT ends the connection with nothing. */
  lemma FixedAnswers(env: Env, w: World, cmd: Cmd, rest: string)
    requires Next(env, w, cmd, rest)
    ensures cmd.kind == Version ==>
              Finish(env, FRESH, w) == Outcome(Done, w.(inbox := rest, wire := w.wire + "1.1.0000000\n"))
    ensures cmd.kind == Help ==>
              Finish(env, FRESH, w) == Outcome(Done, w.(inbox := rest, wire := w.wire + "-22\n"))
    ensures cmd.kind == Exit ==> Finish(env, FRESH, w) == Outcome(Failed(-ENOTCONN), w.(inbox := rest))
  {
    hide SplitLine;
    Nul(VERSION_TEXT + "\n");
    Nul("-22\n");
    MinusTwentyTwo();
    assert VERSION_TEXT + "\n" == "1.1.0000000\n";
  }

  lemma MinusTwentyTwo()
    ensures Dec(-22) + "\n" == "-22\n"
  {
    assert Digits(22) == Digits(2) + "2" && Digits(2) == "2";
  }

  predicate IsDeviceOp(k: Kind) {
    k == Timeout || k == Open || k == Close || k == SetTrig || k == Set
  }

  /** OPEN, CLOSE, TIMEOUT, SETTRIG and SET: one call, and its code.  OPEN leaves its mask, even when the
      application refuses it. */
  lemma DeviceOpAnswers(env: Env, w: World, cmd: Cmd, rest: string)
    requires Next(env, w, cmd, rest) && IsDeviceOp(cmd.kind)
    ensures Finish(env, FRESH, w)
         == Outcome(Done, World(rest, w.wire + (Dec(Code(w)) + "\n"), AnswersLeft(w), w.calls + [DeviceOp(cmd)],
                                w.produced, w.delivered, if cmd.kind == Open then cmd.mask else w.mask))
  {
    hide SplitLine;
    Nul(Dec(Code(w)) + "\n");
  }

  /** A line that is no command, and one that is too long. */
  lemma BadLines(env: Env, w: World)
    ensures match SplitLine("", w.inbox)
            case NeedMore => Finish(env, FRESH, w) == Outcome(Blocked, w.(inbox := ""))
            case TooLong(rest) => Finish(env, FRESH, w) == Outcome(Failed(-EIO), w.(inbox := rest))
            case Line(text, rest) =>
              var p := env.parse(text);
              !p.ok && p.cmd.kind != ReadBuf && p.cmd.kind != WriteBuf ==>
                Finish(env, FRESH, w) == Outcome(Done, w.(inbox := rest, wire := w.wire + "-22\n"))
  {
    hide SplitLine;
    Nul("-22\n");
    MinusTwentyTwo();
  }

  /* ---------- READBUF ---------- */

  /** The data phase of READBUF neither calls anything else nor changes the mask. */
  lemma {:induction false} ReadBufKeeps(env: Env, count: nat, w: World)
    ensures var o := FinishReadBuf(env, count, w); o.w.calls == w.calls && o.w.mask == w.mask
    decreases |w.answers|
  {
    if w.answers != [] {
      var a, w1 := NextAnswer(w), Answered(w);
      if a.code == -EAGAIN {
        ReadBufKeeps(env, count, w1);
      } else if a.code >= 0 {
        var data := Given(a, Min(env.payloadLen, count));
        if data != "" && |data| != count {
          ReadBufKeeps(env, count - |data|, w1.(wire := w1.wire + data, produced := w1.produced + data));
        }
      }
    }
  }

  /** READBUF: when the refill succeeds the count, the mask of the buffer, a line each, and the data that
      the device produces; when it fails the code, and then the data all the same. */
  lemma ReadBufAnswers(env: Env, w: World, cmd: Cmd, rest: string)
    requires Next(env, w, cmd, rest) && cmd.kind == ReadBuf && cmd.bytes <= INT32_MAX
    ensures var o := Finish(env, FRESH, w);
            var reply := if Code(w) < 0 then Dec(Code(w)) + "\n" else Dec(cmd.bytes) + "\n" + (Hex(w.mask, 8) + "\n");
            && SameTail(w.wire + reply, o.w.wire, w.produced, o.w.produced)
            && (o.end == Done ==>
                  (|o.w.produced| == |w.produced| + cmd.bytes <==> !RunsDry(env, cmd.bytes, AnswersLeft(w))))
            && o.w.calls == w.calls + [Refill] && o.w.inbox == rest && o.w.delivered == w.delivered
            && o.w.mask == w.mask
  {
    hide SplitLine, FinishReadBuf, Hex, RunsDry;
    var reply := if Code(w) < 0 then Dec(Code(w)) + "\n" else Dec(cmd.bytes) + "\n" + (Hex(w.mask, 8) + "\n");
    Nul(Dec(Code(w)) + "\n");
    assert cmd.bytes % UINT32_MOD == cmd.bytes;
    var w1 := World(rest, w.wire + reply, AnswersLeft(w), w.calls + [Refill], w.produced, w.delivered, w.mask);
    assert Finish(env, FRESH, w) == FinishReadBuf(env, cmd.bytes, w1);
    ReadBufMovesExactly(env, cmd.bytes, w1);
    ReadBufKeeps(env, cmd.bytes, w1);
  }

  /** A line that fails to parse as a READBUF is refused, and the data phase comes all the same. */
  lemma BadReadBufLine(env: Env, w: World)
    ensures match SplitLine("", w.inbox)
            case Line(text, rest) =>
              var p, o := env.parse(text), Finish(env, FRESH, w);
              !p.ok && p.cmd.kind == ReadBuf ==>
                && SameTail(w.wire + "-22\n", o.w.wire, w.produced, o.w.produced)
                && o.w.calls == w.calls && o.w.inbox == rest && o.w.delivered == w.delivered && o.w.mask == w.mask
            case _ => true
  {
    hide SplitLine, FinishReadBuf;
    Nul("-22\n");
    MinusTwentyTwo();
    match SplitLine("", w.inbox)
    case Line(text, rest) =>
      var w1 := w.(inbox := rest, wire := w.wire + "-22\n");
      ReadBufMovesExactly(env, env.parse(text).cmd.bytes, w1);
      ReadBufKeeps(env, env.parse(text).cmd.bytes, w1);
    case _ =>
  }

  /** `k` answers were used up, and the last of them says how the data phase ended: well, with its error,
      or, when it was a refusal like any before it, not at all. */
  predicate EndedBy(end: End, answers: seq<Answer>, left: seq<Answer>) {
    var k := |answers| - |left|;
    && 0 <= k && left == answers[k..]
    && match end
       case Done => 0 < k && answers[k - 1].code >= 0
       case Failed(c) => 0 < k && answers[k - 1].code == c < 0 && c != -EAGAIN
       case Blocked => left == []
       case Overflow => false
  }

  /** Every answer that was used up, but for the last, was data or a refusal. */
  predicate AllUsual(end: End, answers: seq<Answer>, left: seq<Answer>) {
    forall i :: 0 <= i < |answers| - |left| - (if end == Blocked then 0 else 1) && i < |answers|
      ==> answers[i].code >= 0 || answers[i].code == -EAGAIN
  }

  lemma {:induction false} ReadBufEnds(env: Env, count: nat, w: World)
    ensures var o := FinishReadBuf(env, count, w);
            EndedBy(o.end, w.answers, o.w.answers) && AllUsual(o.end, w.answers, o.w.answers)
    decreases |w.answers|
  {
    hide EndedBy, AllUsual;
    var o := FinishReadBuf(env, count, w);
    if w.answers == [] {
      EndsAtOnce(o.end, w.answers, o.w.answers);
    } else {
      var a, w1 := NextAnswer(w), Answered(w);
      var data := if a.code < 0 then "" else Given(a, Min(env.payloadLen, count));
      if a.code == -EAGAIN {
        ReadBufEnds(env, count, w1);
        EndsLater(o.end, w.answers, o.w.answers);
      } else if data != "" && |data| != count {
        ReadBufEnds(env, count - |data|, w1.(wire := w1.wire + data, produced := w1.produced + data));
        EndsLater(o.end, w.answers, o.w.answers);
      } else {
        EndsAtOnce(o.end, w.answers, o.w.answers);
      }
    }
  }

  lemma EndsAtOnce(end: End, answers: seq<Answer>, left: seq<Answer>)
    requires answers == [] ==> end == Blocked && left == []
    requires answers != [] ==>
               var c := answers[0].code;
               c != -EAGAIN && left == answers[1..] && end == if c < 0 then Failed(c) else Done
    ensures EndedBy(end, answers, left) && AllUsual(end, answers, left)
  {
  }

  lemma {:induction false} EndsLater(end: End, answers: seq<Answer>, left: seq<Answer>)
    requires answers != [] && (answers[0].code >= 0 || answers[0].code == -EAGAIN)
    requires EndedBy(end, answers[1..], left) && AllUsual(end, answers[1..], left)
    ensures EndedBy(end, answers, left) && AllUsual(end, answers, left)
  {
    forall i | 0 < i < |answers| ensures answers[i] == answers[1..][i - 1] {
    }
  }

  /* ---------- The mask ---------- */

  /** The next line is an OPEN. */
  predicate Opens(env: Env, w: World) {
    match SplitLine("", w.inbox)
    case Line(text, _) => env.parse(text).ok && env.parse(text).cmd.kind == Open
    case _ => false
  }

  lemma {:induction false} ChunkKeepsMask(env: Env, chunk: string, count: nat, w: World)
    requires |chunk| <= count
    ensures FinishChunk(env, chunk, count, w).w.mask == w.mask
    decreases |w.answers|, 0
  {
    if w.answers != [] {
      var a, w1 := NextAnswer(w), Answered(w);
      if a.code == -EAGAIN {
        ChunkKeepsMask(env, chunk, count, w1);
      } else if a.code >= 0 && |chunk| != count {
        WriteBufKeepsMask(env, count - |chunk|, w1.(delivered := w1.delivered + chunk));
      }
    }
  }

  lemma {:induction false} WriteBufKeepsMask(env: Env, count: nat, w: World)
    ensures FinishWriteBuf(env, count, w).w.mask == w.mask
    decreases |w.answers|, 1
  {
    var n := Min(env.payloadLen, count);
    if |w.inbox| >= n {
      ChunkKeepsMask(env, w.inbox[..n], count, w.(inbox := w.inbox[n..]));
    }
  }

  lemma ReplyKeepsMask(env: Env, cmd: Cmd, text: string, w: World)
    ensures FinishReply(env, cmd, text, w).w.mask == w.mask
  {
    hide FinishReadBuf, FinishWriteBuf;
    ReadBufKeeps(env, cmd.bytes, w.(wire := w.wire + text));
    WriteBufKeepsMask(env, cmd.bytes, w.(wire := w.wire + text));
  }

  lemma RunKeepsMask(env: Env, cmd: Cmd, attr: string, w: World)
    requires cmd.kind != Open
    ensures FinishRun(env, cmd, attr, w).w.mask == w.mask
  {
    hide FinishReply, ReplyText;
    if cmd.kind != Exit {
      var (r, w1) := RunCmd(env, cmd, attr, w);
      ReplyKeepsMask(env, cmd, ReplyText(r.writeVal, r.val, r.payload), w1);
    }
  }

  /** Only OPEN changes the mask. */
  lemma MaskStays(env: Env, w: World)
    requires !Opens(env, w)
    ensures Finish(env, FRESH, w).w.mask == w.mask
  {
    hide SplitLine, FinishReply, FinishRun;
    match SplitLine("", w.inbox)
    case NeedMore =>
    case TooLong(rest) =>
    case Line(text, rest) =>
      var p, w1 := env.parse(text), w.(inbox := rest);
      ReplyKeepsMask(env, p.cmd, ReplyText(true, -EINVAL, ""), w1);
      if p.ok {
        RunKeepsMask(env, p.cmd, "", w1);
        if |rest| >= p.cmd.bytes {
          RunKeepsMask(env, p.cmd, "" + rest[..p.cmd.bytes], w1.(inbox := rest[p.cmd.bytes..]));
        }
      }
  }

  lemma {:induction false} MaskStaysOn(env: Env, o: Outcome, k: nat)
    requires forall j: nat :: j < k ==> !Opens(env, AfterCommands(env, o, j).w)
    ensures AfterCommands(env, o, k).w.mask == o.w.mask
    decreases k
  {
    hide Finish, Opens;
    if k > 0 && !Stops(o.end) {
      assert AfterCommands(env, o, 0) == o;
      MaskStays(env, o.w);
      var o' := Finish(env, FRESH, o.w);
      forall j: nat | j < k - 1 ensures !Opens(env, AfterCommands(env, o', j).w) {
        assert AfterCommands(env, o', j) == AfterCommands(env, o, j + 1);
      }
      MaskStaysOn(env, o', k - 1);
    }
  }

  /** The mask that a READBUF announces is that of the last OPEN, however many other commands came between
      them. */
  lemma MaskOfLastOpen(env: Env, w: World, open: Cmd, rest: string, k: nat, read: Cmd, rest': string)
    requires Next(env, w, open, rest) && open.kind == Open
    requires var o := Finish(env, FRESH, w);
             && (forall j: nat :: j < k ==> !Opens(env, AfterCommands(env, o, j).w))
             && Next(env, AfterCommands(env, o, k).w, read, rest')
             && Code(AfterCommands(env, o, k).w) >= 0
    requires read.kind == ReadBuf && read.bytes <= INT32_MAX
    ensures var before := AfterCommands(env, Finish(env, FRESH, w), k).w;
            before.wire + (Dec(read.bytes) + "\n" + (Hex(open.mask, 8) + "\n")) <= Finish(env, FRESH, before).w.wire
  {
    hide Finish, Next, Opens, AfterCommands, Hex;
    DeviceOpAnswers(env, w, open, rest);
    MaskStaysOn(env, Finish(env, FRESH, w), k);
    ReadBufAnswers(env, AfterCommands(env, Finish(env, FRESH, w), k).w, read, rest');
  }

  /** Hexadecimal digits read back. */
  function FromHex(s: string): nat {
    if s == "" then 0
    else
      var c := s[|s| - 1];
      16 * FromHex(s[..|s| - 1]) + if '0' <= c <= '9' then (c - '0') as nat
                                   else if 'a' <= c <= 'f' then (c - 'a') as nat + 10
                                   else 0
  }

  function Pow16(k: nat): (p: nat)
    ensures p > 0
  {
    if k == 0 then 1 else 16 * Pow16(k - 1)
  }

  /** The eight digits of a mask are the mask. */
  lemma {:induction false} HexReadsBack(n: nat, k: nat)
    requires n < Pow16(k)
    ensures FromHex(Hex(n, k)) == n
  {
    if k > 0 {
      HexReadsBack(n / 16, k - 1);
      assert Hex(n, k)[..k - 1] == Hex(n / 16, k - 1);
    }
  }

  lemma MaskReadsBack(mask: nat)
    requires mask < UINT32_MOD
    ensures FromHex(Hex(mask, 8)) == mask
  {
    assert Pow16(4) == 65536 && Pow16(8) == 65536 * 65536;
    HexReadsBack(mask, 8);
  }

  /* ---------- WRITEBUF ---------- */

  /** The chunks that `count` bytes are handed over in; a single empty one if there are none. */
  function Chunks(env: Env, count: nat): nat
    requires env.payloadLen > 0
  {
    if count <= env.payloadLen then 1 else 1 + Chunks(env, count - env.payloadLen)
  }

  /** The answers behind the `n`-th one that is not a refusal. */
  function Behind(answers: seq<Answer>, n: nat): seq<Answer> {
    if answers == [] || n == 0 then answers
    else Behind(answers[1..], if answers[0].code == -EAGAIN then n else n - 1)
  }

  /** When all of a WRITEBUF was handed over the buffer is pushed, once, with the answer behind those to
      the chunks; the client gets a zero if that succeeds, and nothing if not. */
  lemma {:induction false} WriteBufPushes(env: Env, count: nat, w: World)
    requires env.payloadLen > 0
    ensures var o := FinishWriteBuf(env, count, w); var left := Behind(w.answers, Chunks(env, count));
            && o.w.produced == w.produced && o.w.mask == w.mask
            && (if o.end == Done then
                  && o.w.calls == w.calls + [Push]
                  && o.w.answers == (if left == [] then [] else left[1..])
                  && o.w.wire == if left == [] || left[0].code < 0 then w.wire else w.wire + "0\n"
                else o.w.calls == w.calls && o.w.wire == w.wire)
    decreases |w.answers|, 1
  {
    var n := Min(env.payloadLen, count);
    if |w.inbox| >= n {
      ChunkPushes(env, w.inbox[..n], count, w.(inbox := w.inbox[n..]));
    }
  }

  lemma {:induction false} ChunkPushes(env: Env, chunk: string, count: nat, w: World)
    requires env.payloadLen > 0 && |chunk| == Min(env.payloadLen, count)
    ensures var o := FinishChunk(env, chunk, count, w); var left := Behind(w.answers, Chunks(env, count));
            && o.w.produced == w.produced && o.w.mask == w.mask
            && (if o.end == Done then
                  && o.w.calls == w.calls + [Push]
                  && o.w.answers == (if left == [] then [] else left[1..])
                  && o.w.wire == if left == [] || left[0].code < 0 then w.wire else w.wire + "0\n"
                else o.w.calls == w.calls && o.w.wire == w.wire)
    decreases |w.answers|, 0
  {
    if w.answers != [] {
      var a, w1 := NextAnswer(w), Answered(w);
      if a.code == -EAGAIN {
        ChunkPushes(env, chunk, count, w1);
      } else if a.code >= 0 && |chunk| != count {
        WriteBufPushes(env, count - |chunk|, w1.(delivered := w1.delivered + chunk));
      }
    }
  }

  /** WRITEBUF: the count, then the device gets that many bytes of the input, and the push is answered. */
  lemma WriteBufAnswers(env: Env, w: World, cmd: Cmd, rest: string)
    requires Next(env, w, cmd, rest) && cmd.kind == WriteBuf && cmd.bytes <= INT32_MAX && env.payloadLen > 0
    ensures var o := Finish(env, FRESH, w); var left := Behind(w.answers, Chunks(env, cmd.bytes));
            var reply := Dec(cmd.bytes) + "\n";
            && o.w.mask == w.mask && o.w.produced == w.produced
            && (if o.end == Done then
                  && cmd.bytes <= |rest| && o.w.inbox == rest[cmd.bytes..]
                  && o.w.delivered == w.delivered + rest[..cmd.bytes] && o.w.calls == w.calls + [Push]
                  && o.w.wire == w.wire + reply + if left == [] || left[0].code < 0 then "" else "0\n"
                else o.w.calls == w.calls && o.w.wire == w.wire + reply)
  {
    hide SplitLine, FinishWriteBuf, Behind, Chunks;
    var reply := Dec(cmd.bytes) + "\n";
    Nul(reply);
    assert cmd.bytes % UINT32_MOD == cmd.bytes;
    var w1 := w.(inbox := rest, wire := w.wire + reply);
    assert Finish(env, FRESH, w) == FinishWriteBuf(env, cmd.bytes, w1);
    WriteBufMovesExactly(env, cmd.bytes, w1);
    WriteBufPushes(env, cmd.bytes, w1);
    Nul(w.wire + reply);
  }

  /** However a WRITEBUF ends, the device got the input in order, and none of it twice. */
  lemma {:induction false} WriteBufDelivers(env: Env, count: nat, w: World)
    ensures var o := FinishWriteBuf(env, count, w); var k := |o.w.delivered| - |w.delivered|;
            0 <= k <= count && k <= |w.inbox| && o.w.delivered == w.delivered + w.inbox[..k]
    decreases |w.answers|, 1
  {
    var n := Min(env.payloadLen, count);
    if |w.inbox| >= n {
      ChunkDelivers(env, w.inbox[..n], count, w.(inbox := w.inbox[n..]));
      assert w.inbox[..n] + w.inbox[n..] == w.inbox;
    }
  }

  lemma {:induction false} ChunkDelivers(env: Env, chunk: string, count: nat, w: World)
    requires |chunk| <= count
    ensures var o := FinishChunk(env, chunk, count, w); var input := chunk + w.inbox;
            var k := |o.w.delivered| - |w.delivered|;
            0 <= k <= count && k <= |input| && o.w.delivered == w.delivered + input[..k]
    decreases |w.answers|, 0
  {
    if w.answers != [] {
      var a, w1 := NextAnswer(w), Answered(w);
      if a.code == -EAGAIN {
        ChunkDelivers(env, chunk, count, w1);
      } else if a.code >= 0 {
        assert (chunk + w.inbox)[..|chunk|] == chunk;
        if |chunk| != count {
          var w2 := w1.(delivered := w1.delivered + chunk);
          WriteBufDelivers(env, count - |chunk|, w2);
          var k := |FinishWriteBuf(env, count - |chunk|, w2).w.delivered| - |w2.delivered|;
          assert (chunk + w.inbox)[..|chunk| + k] == chunk + w.inbox[..k];
        }
      }
    }
  }

  lemma {:induction false} WriteBufEnds(env: Env, count: nat, w: World)
    ensures var o := FinishWriteBuf(env, count, w); o.end.Failed? ==> EndedBy(o.end, w.answers, o.w.answers)
    decreases |w.answers|, 1
  {
    var n := Min(env.payloadLen, count);
    if |w.inbox| >= n {
      ChunkEnds(env, w.inbox[..n], count, w.(inbox := w.inbox[n..]));
    }
  }

  lemma {:induction false} ChunkEnds(env: Env, chunk: string, count: nat, w: World)
    requires |chunk| <= count
    ensures var o := FinishChunk(env, chunk, count, w); o.end.Failed? ==> EndedBy(o.end, w.answers, o.w.answers)
    decreases |w.answers|, 0
  {
    if w.answers != [] {
      var a, w1 := NextAnswer(w), Answered(w);
      if a.code == -EAGAIN {
        ChunkEnds(env, chunk, count, w1);
      } else if a.code >= 0 && |chunk| != count {
        WriteBufEnds(env, count - |chunk|, w1.(delivered := w1.delivered + chunk));
      }
    }
  }

  /** A line that fails to parse as a WRITEBUF is refused, and the data phase comes all the same. */
  lemma BadWriteBufLine(env: Env, w: World)
    requires env.payloadLen > 0
    ensures match SplitLine("", w.inbox)
            case Line(text, rest) =>
              var p, o := env.parse(text), Finish(env, FRESH, w);
              !p.ok && p.cmd.kind == WriteBuf && o.end == Done ==>
                && p.cmd.bytes <= |rest| && o.w.inbox == rest[p.cmd.bytes..]
                && o.w.delivered == w.delivered + rest[..p.cmd.bytes] && o.w.calls == w.calls + [Push]
                && w.wire + "-22\n" <= o.w.wire
            case _ => true
  {
    hide SplitLine, FinishWriteBuf;
    Nul("-22\n");
    MinusTwentyTwo();
    match SplitLine("", w.inbox)
    case Line(text, rest) =>
      var w1 := w.(inbox := rest, wire := w.wire + "-22\n");
      WriteBufMovesExactly(env, env.parse(text).cmd.bytes, w1);
      WriteBufPushes(env, env.parse(text).cmd.bytes, w1);
    case _ =>
  }

  /* ---------- In a session ---------- */

  /** What the application got in the end contains the attribute of a WRITE, and the client its code,
      where the session got to that command. */
  lemma WriteInSession(env: Env, o: Outcome, cmd: Cmd, rest: string)
    requires !Stops(o.end) && Next(env, o.w, cmd, rest) && cmd.kind == Write
    requires cmd.bytes < env.payloadLen && cmd.bytes <= |rest|
    ensures var total := Session(env, o).w;
            && o.w.calls + [AttrWrite(cmd, rest[..cmd.bytes])] <= total.calls
            && o.w.wire + (Dec(Code(o.w)) + "\n") <= total.wire
  {
    hide Finish, Session, Next;
    WriteHandsOver(env, o.w, cmd, rest);
    SessionGoesOn(env, o);
    SessionLater(env, Finish(env, FRESH, o.w));
  }
}
