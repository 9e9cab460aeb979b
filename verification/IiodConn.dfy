/**
 A connection of the iiod server, iio/iiod.c, on a serial or local transport: the state machine of
 `iiod_run_state` with its resumable transfers.

 A schedule decides how much of every send and receive gets through, answers decide what the
 operations of the application return.  Every step of the connection is proved to keep the outcome that
 IiodSpec assigns to the command, for all schedules.
 */
module IiodConn {
  import opened Basics
  import opened Errno
  import opened Decimal
  import opened IiodSpec
  import opened IiodTransport
  import opened Sequences

  /** struct iiod_buff: a place in a buffer, with the part of it that was transferred. */
  datatype Buff = Buff(buf: array?<char>, idx: nat, len: nat)

  ghost predicate BuffOk(b: Buff) {
    b.idx <= b.len && (if b.buf == null then b.len == 0 else b.len <= b.buf.Length)
  }

  ghost function Text(b: Buff): (s: string)
    requires BuffOk(b)
    reads b.buf
    ensures |s| == b.len
  {
    if b.buf == null then "" else b.buf[..b.len]
  }

  /** struct iiod_conn_priv. */
  class Connection {
    const peer: Peer
    const parse: string -> Parsed
    const xml: array<char>
    const version: array<char>
    const payload: array<char>
    const parserBuf: array<char>
    const bufMask: array<char>
    var phase: Phase
    var cmd: Cmd
    var parserIdx: nat
    var nb: Buff
    var val: Int32
    var writeVal: bool
    var res: Buff
    var mask: nat

    ghost function Env(): (e: IiodSpec.Env)
      reads xml
      ensures e.payloadLen == payload.Length
    {
      IiodSpec.Env(parse, payload.Length, xml[..])
    }

    ghost predicate VersionOk()
      reads version
    {
      version[..] == VERSION_TEXT
    }

    /** The buffers are distinct, and have the lengths they are made with. */
    ghost predicate BuffersOk()
      reads version
    {
      && payload != parserBuf && payload != bufMask && payload != xml && payload != version
      && parserBuf != bufMask && parserBuf != xml && parserBuf != version
      && bufMask != xml && bufMask != version
      && parserBuf.Length == LINE_MAX + 1 && bufMask.Length == 10 && VersionOk()
      && payload.Length <= INT32_MAX
    }

    /** What each state needs of the fields; never of what is in the buffers. */
    ghost predicate PhaseOk()
      reads this
    {
      match phase
      case ReadingLine => nb.len == res.len == 0 && cmd == NO_CMD && Silent()
      case ReadingWriteData =>
        cmd.kind == Write && nb.buf == payload && nb.len == cmd.bytes < payload.Length && Silent()
      case Oversized =>
        && cmd.kind == Write && payload.Length <= cmd.bytes
        && nb.idx == nb.len <= Min(payload.Length, cmd.bytes) && Silent()
      case RunningCmd =>
        (if cmd.kind == Write then nb.idx == nb.len == cmd.bytes < payload.Length else nb.len == 0) && Silent()
      case WritingResult => true
      case RwBuf =>
        if cmd.kind == ReadBuf then nb.len <= cmd.bytes && (nb.len > 0 ==> nb.idx < nb.len)
        else cmd.kind == WriteBuf && (nb.len > 0 ==> nb.len == Min(payload.Length, cmd.bytes))
      case _ => true
    }

    ghost predicate Silent()
      reads this
    {
      res.len == 0 && !writeVal && val == 0
    }

    ghost predicate Valid()
      reads this, version
    {
      && BuffersOk()
      && BuffOk(nb) && BuffOk(res) && parserIdx < LINE_MAX && (phase != ReadingLine ==> parserIdx == 0)
      && nb.buf in {null, payload, parserBuf} && res.buf in {null, payload, xml, version, bufMask}
      && (nb.len > 0 && phase != LineDone ==> nb.buf == if phase == WritingResult then parserBuf else payload)
      && PhaseOk()
    }

    ghost function Abs(): Conn
      requires BuffOk(nb) && BuffOk(res) && parserIdx <= parserBuf.Length
      reads this, nb.buf, res.buf, parserBuf
    {
      Conn(phase, cmd, parserBuf[..parserIdx], Text(nb), nb.idx, val, writeVal, Text(res), res.idx)
    }

    lemma AbsOk()
      requires Valid()
      ensures ConnOk(Env(), Abs())
    {
    }

    ghost function Future(): Outcome
      requires Valid()
      reads this, peer, xml, version, payload, parserBuf, bufMask
    {
      AbsOk();
      Finish(Env(), Abs(), peer.World(mask))
    }

    /** There is a state to be processed. */
    ghost predicate Goes()
      reads this
    {
      phase != LineDone && phase != Overrun
    }

    /** What a step that returned `ret` leaves: a connection in order, unless it is to be cleaned up. */
    ghost predicate Usable(ret: int)
      reads this, version
    {
      && ret <= 0 && BuffersOk() && (ret == 0 || ret == -EAGAIN ==> Valid())
      && (ret == -EAGAIN ==> Goes()) && (phase == Overrun ==> ret == 0)
    }

    /** Nothing more will come of the current command: the client or the device has run dry. */
    ghost predicate Stuck()
      requires Valid()
      reads this, peer, xml, version, payload, parserBuf, bufMask
    {
      Future().end == Blocked && SameOutput(Future().w, peer.World(mask))
    }

    /** A step that returned `ret` kept the outcome `o` of the command: it is still to come, or it is
        here when the command is completed or failed. */
    ghost predicate Keeps(o: Outcome, ret: int)
      requires Usable(ret)
      reads this, peer, xml, version, payload, parserBuf, bufMask
    {
      if ret == 0 && phase == LineDone then o == Outcome(Done, peer.World(mask))
      else if ret == 0 || ret == -EAGAIN then Future() == o
      else o == Outcome(Failed(ret), peer.World(mask))
    }

    /** iiod_conn_add: a connection with its payload buffer. */
    constructor (peer: Peer, parse: string -> Parsed, xml: array<char>, payload: array<char>)
      requires payload != xml && payload.Length <= INT32_MAX
      ensures Valid() && Abs() == FRESH && mask == 0
      ensures this.peer == peer && Env() == IiodSpec.Env(parse, payload.Length, xml[..]) && this.payload == payload
      ensures fresh(parserBuf) && fresh(bufMask) && fresh(version)
    {
      this.peer, this.parse, this.xml, this.payload := peer, parse, xml, payload;
      version := new char[|VERSION_TEXT|](i requires 0 <= i < |VERSION_TEXT| => VERSION_TEXT[i]);
      parserBuf := new char[LINE_MAX + 1](_ => '0');
      bufMask := new char[10](_ => '0');
      phase, cmd, parserIdx := ReadingLine, NO_CMD, 0;
      nb, val, writeVal, res, mask := Buff(null, 0, 0), 0, false, Buff(null, 0, 0), 0;
    }

    /* ---------- Transfers ---------- */

    /** The send of the rest of a buffer. */
    method SendText(b: Buff) returns (ret: int, b': Buff)
      requires BuffOk(b) && b.idx < b.len
      modifies peer`wire, peer`intended, peer`grants, peer`broken
      ensures peer.Follows() && ret == Granted(old(peer.grants), b.len - b.idx) <= b.len - b.idx
      ensures peer.grants == Left(old(peer.grants))
      ensures ret < b.len - b.idx ==> peer.Budget() < old(peer.Budget())
      ensures ret < 0 ==> ret == -EAGAIN || peer.broken
      ensures b' == b.(idx := if ret < 0 then b.idx else b.idx + ret) && BuffOk(b')
      ensures var sent := Text(b)[b.idx..b'.idx];
              peer.wire == old(peer.wire) + sent && peer.intended == old(peer.intended) + sent
    {
      ghost var rest := Text(b)[b.idx..];
      assert b.buf[b.idx..b.len] == rest;
      ret := peer.Send(b.buf[b.idx..b.len]);
      b' := b.(idx := if ret < 0 then b.idx else b.idx + ret);
      assert Text(b)[b.idx..b'.idx] == if ret < 0 then "" else rest[..ret];
    }

    /** rw_iiod_buff, writing.  Sent and still owed bytes together stay the same; only a refused
        newline is lost, exactly when the schedule takes the text whole and refuses that byte. */
    method SendBuff(b: Buff, endl: bool) returns (ret: int, b': Buff)
      requires BuffOk(b) && b.idx < b.len
      modifies peer`wire, peer`intended, peer`grants, peer`broken, peer`lost
      ensures BuffOk(b') && b' == b.(idx := b'.idx) && b.idx <= b'.idx && peer.Follows()
      ensures ret <= 0 && (ret == 0 ==> b'.idx == b'.len) && (ret < 0 ==> peer.Budget() < old(peer.Budget()))
      ensures ret == 0 || ret == -EAGAIN || peer.broken
      ensures !endl ==> (ret == 0 <==> b'.idx == b'.len)
      ensures !peer.broken ==>
                peer.intended + Owed(Text(b), b'.idx, endl) == old(peer.intended) + Owed(Text(b), b.idx, endl)
      ensures var lose := endl && LosesNewline(old(peer.grants), b.len - b.idx);
              && peer.lost == old(peer.lost) + (if lose then 1 else 0)
              && (lose ==> ret < 0 && b'.idx == b'.len && peer.wire == old(peer.wire) + Text(b)[b.idx..])
    {
      hide Peer.Sane, VersionOk, Owed;
      ghost var text, before := Text(b), peer.intended;
      ret, b' := SendText(b);
      OwedLess(before, text, b.idx, b'.idx, endl);
      if ret < 0 {
        return;
      }
      if ret < b.len - b.idx {
        return -EAGAIN, b';
      }
      if endl {
        ret := peer.SendNewline();
        if ret < 0 {
          return;
        }
        if ret != 1 {
          return -EAGAIN, b';
        }
      }
      ret := 0;
    }

    /** rw_iiod_buff, reading into the rest of a buffer. */
    method RecvBuff(b: Buff) returns (ret: int, b': Buff)
      requires BuffOk(b) && b.buf == payload
      modifies peer`inbox, peer`grants, peer`broken, payload
      ensures BuffOk(b') && b' == b.(idx := b'.idx) && b.idx <= b'.idx
      ensures peer.Follows()
      ensures ret == 0 || ret == -EAGAIN || peer.broken
      ensures ret <= 0 && (ret == 0 <==> b'.idx == b'.len)
      ensures ret < 0 ==> peer.Budget() < old(peer.Budget()) || peer.inbox == ""
      ensures Taken(old(Received(b)), old(peer.inbox), Received(b'), peer.inbox)
    {
      b' := b;
      var len := b.len - b.idx;
      ret := 0;
      if len > 0 {
        var data;
        ret, data := peer.Recv(len);
        if ret < 0 {
          return;
        }
        ghost var got := Received(b);
        forall i | 0 <= i < ret {
          payload[b.idx + i] := data[i];
        }
        b' := b.(idx := b.idx + ret);
        assert Received(b') == got + data;
        Associative(got, data, peer.inbox);
        ret := if ret < len then -EAGAIN else 0;
      }
    }

    /** The part of a buffer that was received. */
    static ghost function Received(b: Buff): (s: string)
      requires BuffOk(b)
      reads b.buf
      ensures |s| == b.idx && (b.idx == b.len ==> s == Text(b))
    {
      Text(b)[..b.idx]
    }

    /** Copies text into a buffer, as the operations of the application and sprintf do. */
    method Fill(buf: array<char>, text: string)
      requires |text| <= buf.Length
      modifies buf
      ensures buf[..|text|] == text
    {
      forall i | 0 <= i < |text| {
        buf[i] := text[i];
      }
    }

    /* ---------- Reading a line ---------- */

    /** iiod_read_line.  The line itself is handed on, as parser_buf is. */
    method ReadLine() returns (ret: int, line: string)
      requires parserBuf.Length == LINE_MAX + 1 && parserIdx < LINE_MAX
      modifies `parserIdx, parserBuf, peer`inbox, peer`grants, peer`broken
      ensures parserIdx < LINE_MAX && peer.Follows() && ret <= 0
      ensures peer.Budget() < old(peer.Budget()) || (ret == -EAGAIN && peer.inbox == "")
      ensures ret == 0 ==>
                parserIdx == 0 && SplitLine(old(parserBuf[..parserIdx]), old(peer.inbox)) == Line(line, peer.inbox)
      ensures ret == -EAGAIN && !peer.broken ==>
                SplitLine(old(parserBuf[..parserIdx]), old(peer.inbox)) == SplitLine(parserBuf[..parserIdx], peer.inbox)
      ensures ret != 0 && ret != -EAGAIN ==>
                parserIdx == 0
                && (peer.broken
                    || (ret == -EIO
                        && SplitLine(old(parserBuf[..parserIdx]), old(peer.inbox)) == TooLong(peer.inbox)))
    {
      line := "";
      ghost var split := SplitLine(parserBuf[..parserIdx], peer.inbox);
      while parserIdx < LINE_MAX
        invariant parserIdx <= LINE_MAX && peer.Follows()
        invariant parserIdx < LINE_MAX || peer.Budget() < old(peer.Budget())
        invariant split == SplitLine(parserBuf[..parserIdx], peer.inbox)
        decreases |peer.inbox|
      {
        var ch;
        ghost var partial, inbox := parserBuf[..parserIdx], peer.inbox;
        ret, ch := peer.Recv(1);
        if ret == -EAGAIN || ret == 0 {
          assert ch + peer.inbox == peer.inbox;
          return -EAGAIN, "";
        }
        if ret < 0 {
          parserIdx := 0;
          return;
        }
        assert ch == [inbox[0]] && peer.inbox == inbox[1..];
        parserBuf[parserIdx] := ch[0];
        assert parserBuf[..parserIdx] == partial && parserBuf[..parserIdx + 1] == partial + ch;
        if parserIdx == 0 && (ch[0] == '\n' || ch[0] == '\r') {
          continue;
        }
        parserIdx := parserIdx + 1;
        if ch[0] == '\n' {
          line := parserBuf[..parserIdx];
          parserBuf[parserIdx] := '\0';
          parserIdx := 0;
          return 0, line;
        }
      }
      parserIdx := 0;
      ret := -EIO;
    }

    /* ---------- The states ---------- */

    /** How far the current command has come; it goes down with every state that was processed. */
    ghost function Rank(): nat
      reads this
    {
      match phase
      case ReadingLine => 6
      case ReadingWriteData => 5
      case Oversized => 5
      case Overrun => 0
      case RunningCmd => 4
      case WritingResult => if cmd.kind == ReadBuf || cmd.kind == WriteBuf then 3 else 1
      case RwBuf => 2
      case LineDone => 0
    }

    /** READING_LINE: take the command from the line. */
    method StepReadingLine() returns (ret: int)
      requires Valid() && phase == ReadingLine
      modifies this, parserBuf, peer
      ensures Usable(ret) && peer.Follows() && (ret == 0 ==> Rank() < 6)
      ensures peer.Budget() < old(peer.Budget()) || (ret == -EAGAIN && Stuck())
      ensures !peer.broken ==> Keeps(old(Future()), ret)
    {
      hide Peer.Sane, VersionOk, Finish, SplitLine;
      ghost var env, c, w := Env(), Abs(), peer.World(mask);
      StillReading();
      var line;
      ret, line := ReadLine();
      StillReading();
      if ret < 0 {
        LineDry(parserBuf[..parserIdx]);
        return;
      }
      TakeCommand(line);
      CommandedFinish(env, line, payload[..], w, peer.inbox);
    }

    lemma StillReading()
      requires BuffersOk() && BuffOk(nb) && BuffOk(res) && parserIdx < LINE_MAX
      requires nb.buf in {null, payload, parserBuf} && res.buf in {null, payload, xml, version, bufMask}
      requires Text(nb) == Text(res) == "" && phase == ReadingLine && !writeVal && val == 0 && cmd == NO_CMD
      ensures Valid() && Future() == FinishLine(Env(), SplitLine(parserBuf[..parserIdx], peer.inbox), peer.World(mask))
    {
    }

    /** The command of a line, and the state that goes with it. */
    method TakeCommand(line: string)
      requires Valid() && phase == ReadingLine && parserIdx == 0
      modifies this`cmd, this`nb, this`val, this`writeVal, this`phase
      ensures Valid() && Rank() < 6 && Goes() && Abs() == Commanded(parse(line), payload[..])
    {
      hide Peer.Sane, VersionOk, Finish;
      var parsed := parse(line);
      cmd := parsed.cmd;
      if !parsed.ok {
        writeVal, val, phase := true, -EINVAL, WritingResult;
      } else if cmd.kind == Write && cmd.bytes >= payload.Length {
        nb, phase := Buff(payload, 0, 0), Oversized;
      } else if cmd.kind == Write {
        nb, phase := Buff(payload, 0, cmd.bytes), ReadingWriteData;
        assert Text(nb) == payload[..][..cmd.bytes];
      } else {
        phase := RunningCmd;
      }
    }

    /** READING_WRITE_DATA: receive the attribute of a WRITE. */
    method StepReadingWriteData() returns (ret: int)
      requires Valid() && phase == ReadingWriteData
      modifies this, payload, parserBuf, peer
      ensures Usable(ret) && peer.Follows() && (ret == 0 ==> Rank() < 5)
      ensures ret == -EAGAIN ==> peer.Budget() < old(peer.Budget()) || Stuck()
      ensures !peer.broken ==> Keeps(old(Future()), ret)
    {
      hide Peer.Sane, VersionOk, Finish, FinishAttr, FinishRun;
      Receiving();
      ret := ReceiveAttribute();
      Receiving();
      AttrDry(Env(), cmd, Received(nb), nb.len - nb.idx, peer.World(mask));
      if ret == 0 {
        AttrComplete(Env(), cmd, Text(nb), peer.World(mask));
        phase := RunningCmd;
        Running();
      }
    }

    method ReceiveAttribute() returns (ret: int)
      requires Valid() && phase == ReadingWriteData
      modifies this`nb, payload, peer
      ensures Valid() && peer.Follows() && ret <= 0 && (ret == 0 <==> nb.idx == nb.len)
      ensures ret < 0 ==> peer.Budget() < old(peer.Budget()) || peer.inbox == ""
      ensures ret == 0 || ret == -EAGAIN || peer.broken
      ensures FinishAttr(Env(), cmd, Received(nb), nb.len - nb.idx, peer.World(mask))
           == old(FinishAttr(Env(), cmd, Received(nb), nb.len - nb.idx, peer.World(mask)))
    {
      hide Taken, Peer.Sane, VersionOk, Finish, FinishAttr, BuffersOk, Received;
      ghost var got, w := Received(nb), peer.World(mask);
      ret := Receive();
      AttrMoves(Env(), cmd, got, Received(nb), nb.len, w, peer.inbox);
    }

    /** A reception into the rest of what is staged. */
    method Receive() returns (ret: int)
      requires Valid() && nb.buf == payload && (phase == ReadingWriteData || (phase == RwBuf && cmd.kind == WriteBuf))
      modifies this`nb, payload, peer`inbox, peer`grants, peer`broken
      ensures Valid() && Env() == old(Env()) && peer.Follows()
      ensures nb == old(nb).(idx := nb.idx) && old(nb).idx <= nb.idx
      ensures ret <= 0 && (ret == 0 <==> nb.idx == nb.len) && (ret == 0 || ret == -EAGAIN || peer.broken)
      ensures ret < 0 ==> peer.Budget() < old(peer.Budget()) || peer.inbox == ""
      ensures Taken(old(Received(nb)), old(peer.inbox), Received(nb), peer.inbox)
    {
      assert BuffOk(nb) && payload != version && payload != xml;
      hide *;
      var b;
      ret, b := RecvBuff(nb);
      Advance(b);
    }

    method Advance(b: Buff)
      requires Valid() && (phase == ReadingWriteData || (phase == RwBuf && cmd.kind == WriteBuf))
      requires BuffOk(b) && b == nb.(idx := b.idx)
      modifies this`nb
      ensures Valid() && nb == b
    {
      nb := b;
    }

    lemma Receiving()
      requires Valid() && phase == ReadingWriteData
      ensures Future() == FinishAttr(Env(), cmd, Received(nb), nb.len - nb.idx, peer.World(mask))
    {
      hide Peer.Sane, VersionOk, BuffersOk, FinishAttr;
    }

    lemma Running()
      requires Valid() && phase == RunningCmd
      ensures Future() == FinishRun(Env(), cmd, Text(nb), peer.World(mask))
    {
      hide Peer.Sane, VersionOk, BuffersOk, FinishRun;
    }

    /** READING_WRITE_DATA with an attribute that does not fit: what is received goes to the payload
        buffer until it, or the zero behind the attribute, goes past the end.  The model stops there. */
    method StepOversized() returns (ret: int)
      requires Valid() && phase == Oversized
      modifies this, payload, peer
      ensures Usable(ret) && peer.Follows() && (ret == 0 ==> Rank() < 5)
      ensures ret == -EAGAIN ==> peer.Budget() < old(peer.Budget()) || Stuck()
      ensures !peer.broken ==> Keeps(old(Future()), ret)
    {
      hide Peer.Sane, VersionOk, Finish, Future, FinishOversized, PhaseOk;
      Overflowing();
      ret := 0;
      if nb.len < cmd.bytes {
        ret := ReceiveOversized();
      } else {
        OversizedEnds(Env(), cmd, nb.len, peer.World(mask));
      }
      if ret == 0 {
        RunOver();
      }
    }

    /** One reception; the result is 0 when it goes past the end. */
    method ReceiveOversized() returns (ret: int)
      requires Valid() && phase == Oversized && nb.len < cmd.bytes
      modifies this`nb, payload, peer`inbox, peer`grants, peer`broken
      ensures Valid() && peer.Follows() && ret <= 0 && (ret == 0 || ret == -EAGAIN || peer.broken)
      ensures ret == -EAGAIN ==> peer.Budget() < old(peer.Budget()) || Stuck()
      ensures if ret < 0 then Future() == old(Future())
              else old(Future()) == Outcome(Overflow, peer.World(mask).(inbox := ""))
    {
      hide Peer.Sane, VersionOk, Finish, Future, FinishOversized, PhaseOk;
      Overflowing();
      ghost var got, w := nb.len, peer.World(mask);
      var data;
      ret, data := peer.Recv(cmd.bytes - nb.len);
      OversizedMoves(Env(), cmd, got, |data|, w, peer.inbox);
      if ret >= 0 {
        var past := StoreOversized(data);
        if past {
          OversizedEnds(Env(), cmd, got + |data|, peer.World(mask));
          return 0;
        }
        ret := -EAGAIN;
      }
      Overflowing();
    }

    method RunOver()
      requires Valid() && phase == Oversized
      modifies this`phase
      ensures Valid() && phase == Overrun && Future() == Outcome(Overflow, peer.World(mask).(inbox := ""))
    {
      phase := Overrun;
    }

    /** The received part of the attribute goes to the buffer, unless it, or the zero, goes past it. */
    method StoreOversized(data: string) returns (past: bool)
      requires Valid() && phase == Oversized && nb.len + |data| <= cmd.bytes
      modifies this`nb, payload
      ensures past <==> cmd.bytes > INT32_MAX || old(nb.len) + |data| >= Min(cmd.bytes, payload.Length + 1)
      ensures Valid() && (!past ==> nb.len == old(nb.len) + |data|)
    {
      hide Peer.Sane, VersionOk, Finish;
      past := cmd.bytes > INT32_MAX || nb.len + |data| > payload.Length || nb.len + |data| == cmd.bytes;
      if !past {
        forall i | 0 <= i < |data| {
          payload[nb.len + i] := data[i];
        }
        nb := Buff(payload, nb.len + |data|, nb.len + |data|);
      }
    }

    lemma Overflowing()
      requires Valid() && phase == Oversized
      ensures nb.idx == nb.len <= cmd.bytes && TooLarge(Env(), cmd)
      ensures Future() == FinishOversized(Env(), cmd, nb.len, peer.World(mask))
      ensures cmd.bytes <= INT32_MAX && peer.inbox == "" && nb.len < cmd.bytes ==> Stuck()
    {
    }

    /** RUNNING_CMD: EXIT ends the connection; every other command leaves a reply. */
    method StepRunningCmd() returns (ret: int)
      requires Valid() && phase == RunningCmd
      modifies this, payload, bufMask, peer
      ensures Usable(ret) && peer.Follows() && (ret == 0 ==> Rank() < 4) && ret != -EAGAIN
      ensures !peer.broken ==> Keeps(old(Future()), ret)
    {
      hide Peer.Sane, VersionOk, Finish, FinishReply, RunCmd;
      Running();
      if cmd.kind == Exit {
        val, writeVal := 0, true;
        return -ENOTCONN;
      }
      ghost var (r, w) := RunCmd(Env(), cmd, Text(nb), peer.World(mask));
      RunCommand();
      Replies(Env(), cmd, r, w);
      ret := 0;
    }

    /** iiod_run_cmd for every command but EXIT, with the answer of the application at hand. */
    method RunCommand()
      requires Valid() && phase == RunningCmd && cmd.kind != Exit
      modifies this, payload, bufMask, peer
      ensures Valid() && peer.Follows() && phase == WritingResult && cmd == old(cmd)
      ensures var (r, w) := RunCmd(Env(), cmd, old(Text(nb)), old(peer.World(mask)));
              peer.World(mask) == w && Abs() == Replying(cmd, r)
    {
      hide Peer.Sane, Finish, PhaseOk;
      match cmd.kind
      case Print =>
        Reply(ToInt32(xml.Length % UINT32_MOD), true, Buff(xml, 0, xml.Length));
      case Version =>
        Reply(0, false, Buff(version, 0, version.Length));
      case Read | GetTrig =>
        ReadAttribute();
      case Write =>
        WriteAttribute();
      case ReadBuf =>
        RefillBuffer();
      case WriteBuf =>
        Reply(ToInt32(cmd.bytes % UINT32_MOD), true, Buff(null, 0, 0));
      case Help | Timeout | Open | Close | SetTrig | Set =>
        CallOp();
    }

    /** What is to be replied: the result, whether to write it, and its payload.  Nothing is staged. */
    method Reply(v: Int32, shown: bool, b: Buff)
      requires BuffersOk() && phase == RunningCmd && parserIdx == 0 && nb.buf in {null, payload, parserBuf}
      requires BuffOk(b) && b.idx == 0 && b.buf in {null, payload, xml, version, bufMask}
      modifies this`nb, this`val, this`writeVal, this`res, this`phase
      ensures Valid() && phase == WritingResult && Abs() == Replying(cmd, Result(v, shown, Text(b)))
    {
      hide Peer.Sane, VersionOk, BuffersOk, Finish;
      nb := nb.(idx := 0, len := 0);
      val, writeVal, res, phase := v, shown, b, WritingResult;
    }

    method ReadAttribute()
      requires Valid() && phase == RunningCmd && (cmd.kind == Read || cmd.kind == GetTrig)
      modifies this, payload, peer
      ensures Valid() && peer.Follows() && phase == WritingResult && cmd == old(cmd)
      ensures var (r, w) := AttributeRead(Env(), cmd, old(peer.World(mask)));
              peer.World(mask) == w && Abs() == Replying(cmd, r)
    {
      hide Peer.Sane, VersionOk, Finish, PhaseOk;
      var a := peer.AskFor(AttrRead(cmd), mask);
      if a.code < 0 {
        Reply(a.code, true, Buff(null, 0, 0));
      } else {
        var data := Given(a, payload.Length);
        Fill(payload, data);
        Reply(ToInt32(|data| % UINT32_MOD), true, Buff(payload, 0, |data|));
      }
    }

    method WriteAttribute()
      requires Valid() && phase == RunningCmd && cmd.kind == Write
      modifies this, payload, peer
      ensures Valid() && peer.Follows() && phase == WritingResult && cmd == old(cmd)
      ensures var (r, w) := RunCmd(Env(), cmd, old(Text(nb)), old(peer.World(mask)));
              peer.World(mask) == w && Abs() == Replying(cmd, r)
    {
      hide Peer.Sane, VersionOk, Finish;
      assert Text(nb) == payload[..cmd.bytes];
      payload[cmd.bytes] := '\0';
      var a := peer.AskFor(AttrWrite(cmd, payload[..cmd.bytes]), mask);
      Reply(a.code, true, Buff(null, 0, 0));
    }

    method RefillBuffer()
      requires Valid() && phase == RunningCmd && cmd.kind == ReadBuf
      modifies this, bufMask, peer
      ensures Valid() && peer.Follows() && phase == WritingResult && cmd == old(cmd)
      ensures var (r, w) := RunCmd(Env(), cmd, old(Text(nb)), old(peer.World(mask)));
              peer.World(mask) == w && Abs() == Replying(cmd, r)
    {
      hide Peer.Sane, VersionOk, Finish, PhaseOk;
      var a := peer.AskFor(Refill, mask);
      if a.code < 0 {
        Reply(a.code, true, Buff(null, 0, 0));
      } else {
        Fill(bufMask, Hex(mask, 8));
        Reply(ToInt32(cmd.bytes % UINT32_MOD), true, Buff(bufMask, 0, 8));
      }
    }

    /** The commands that go to one operation of the application, and HELP, which has none. */
    method CallOp()
      requires Valid() && phase == RunningCmd
      requires cmd.kind in {Help, Timeout, Open, Close, SetTrig, Set}
      modifies this, peer
      ensures Valid() && peer.Follows() && phase == WritingResult && cmd == old(cmd)
      ensures var (r, w) := RunCmd(Env(), cmd, old(Text(nb)), old(peer.World(mask)));
              peer.World(mask) == w && Abs() == Replying(cmd, r)
    {
      hide Peer.Sane, VersionOk, Finish, PhaseOk;
      if cmd.kind == Open {
        mask := cmd.mask;
      }
      if cmd.kind == Help {
        Reply(-EINVAL, true, Buff(null, 0, 0));
      } else {
        var a := peer.AskFor(DeviceOp(cmd), mask);
        Reply(a.code, true, Buff(null, 0, 0));
      }
    }

    /* ---------- The reply ---------- */

    /** The output when the reply is written out: what was sent and what is still owed. */
    ghost function Replied(): string
      requires Valid()
      reads this, peer, xml, version, payload, parserBuf, bufMask
    {
      peer.intended + (ResultLeft(Abs()) + PayloadLeft(Abs()))
    }

    lemma Writing()
      requires Valid() && phase == WritingResult
      ensures Future() == FinishReply(Env(), cmd, "", peer.World(mask).(wire := Replied()))
    {
      hide Peer.Sane, VersionOk, ResultLeft, PayloadLeft, FinishReadBuf, FinishWriteBuf;
      assert Replied() + "" == Replied();
    }

    /** WRITING_CMD_RESULT: the result, then the payload, then the next state. */
    method StepWritingResult() returns (ret: int)
      requires Valid() && phase == WritingResult
      modifies this, parserBuf, peer
      ensures Usable(ret) && peer.Follows() && (ret == 0 ==> Rank() < old(Rank()))
      ensures ret < 0 ==> peer.Budget() < old(peer.Budget())
      ensures !peer.broken ==> Keeps(old(Future()), ret)
    {
      hide Peer.Sane, VersionOk, Finish, FinishReply, Replied;
      Writing();
      ret := SendResult();
      Writing();
      if ret == 0 {
        ret := SendPayload();
        Writing();
        if ret == 0 {
          LeaveReply();
        }
      }
    }

    /** The reply is written out: the command is done, or its data phase begins. */
    method LeaveReply()
      requires Valid() && phase == WritingResult && ResultLeft(Abs()) == PayloadLeft(Abs()) == ""
      modifies this`nb, this`phase
      ensures Valid() && Rank() < old(Rank()) && Keeps(old(Future()), 0)
    {
      hide Peer.Sane, VersionOk, ResultLeft, PayloadLeft, FinishReadBuf, FinishWriteBuf;
      assert peer.intended + ("" + "") == peer.intended;
      if cmd.kind != ReadBuf && cmd.kind != WriteBuf {
        phase := LineDone;
      } else {
        nb, phase := Buff(null, 0, 0), RwBuf;
      }
    }

    /** The result, printed into the parser buffer when nothing of it was sent yet. */
    method SendResult() returns (ret: int)
      requires Valid() && phase == WritingResult
      modifies this`nb, parserBuf, peer`wire, peer`intended, peer`grants, peer`broken, peer`lost
      ensures Valid() && peer.Follows() && ret <= 0 && (ret < 0 ==> peer.Budget() < old(peer.Budget()))
      ensures ret == 0 || ret == -EAGAIN || peer.broken
      ensures !peer.broken ==> Replied() == old(Replied())
      ensures ret == 0 ==> ResultLeft(Abs()) == ""
    {
      hide Peer.Sane, VersionOk, Finish, Replied;
      ret := 0;
      if writeVal {
        if nb.len == 0 {
          StageResult();
        }
        if nb.idx < nb.len {
          ret := SendStaged();
        }
      }
    }

    method StageResult()
      requires Valid() && phase == WritingResult && writeVal && nb.len == 0
      modifies this`nb, parserBuf
      ensures Valid() && nb.len > 0 && Replied() == old(Replied())
    {
      hide Peer.Sane, VersionOk, Finish;
      var text := Dec(val);
      Int32Length(val);
      Fill(parserBuf, text);
      nb := Buff(parserBuf, 0, |text|);
      assert text[0..] == text;
      assert PayloadLeft(Abs()) == old(PayloadLeft(Abs()));
    }

    method SendStaged() returns (ret: int)
      requires Valid() && phase == WritingResult && writeVal && nb.idx < nb.len
      modifies this`nb, peer`wire, peer`intended, peer`grants, peer`broken, peer`lost
      ensures Valid() && peer.Follows() && ret <= 0 && (ret < 0 ==> peer.Budget() < old(peer.Budget()))
      ensures ret == 0 || ret == -EAGAIN || peer.broken
      ensures !peer.broken ==> Replied() == old(Replied())
      ensures nb.len == old(nb.len) && (ret == 0 ==> nb.idx == nb.len)
    {
      hide Peer.Sane, VersionOk, BuffersOk, Finish, Owed, Replied, LosesNewline, ResultLeft, PayloadLeft;
      BothOwed();
      ret, nb := SendBuff(nb, true);
      BothOwed();
    }

    /** What is owed of a staged result and of the payload. */
    lemma BothOwed()
      requires Valid() && phase == WritingResult && writeVal && nb.len > 0
      ensures Replied() == peer.intended + Owed(Text(nb), nb.idx, true) + Owed(Text(res), res.idx, true)
    {
      hide Peer.Sane, VersionOk, BuffersOk, Finish;
      var result, payloadLeft := ResultLeft(Abs()), PayloadLeft(Abs());
      assert result == Owed(Text(nb), nb.idx, true) && payloadLeft == Owed(Text(res), res.idx, true);
      assert peer.intended + (result + payloadLeft) == peer.intended + result + payloadLeft;
    }

    method SendPayload() returns (ret: int)
      requires Valid() && phase == WritingResult && ResultLeft(Abs()) == ""
      modifies this`res, peer`wire, peer`intended, peer`grants, peer`broken, peer`lost
      ensures Valid() && peer.Follows() && ret <= 0 && (ret < 0 ==> peer.Budget() < old(peer.Budget()))
      ensures ret == 0 || ret == -EAGAIN || peer.broken
      ensures !peer.broken ==> Replied() == old(Replied())
      ensures ret == 0 ==> ResultLeft(Abs()) == PayloadLeft(Abs()) == ""
    {
      hide Peer.Sane, VersionOk, BuffersOk, Finish, Replied;
      OnlyPayload();
      ret := 0;
      if res.buf != null && res.idx < res.len {
        ret, res := SendBuff(res, true);
      }
      OnlyPayload();
    }

    lemma OnlyPayload()
      requires Valid() && phase == WritingResult && ResultLeft(Abs()) == ""
      ensures Replied() == peer.intended + PayloadLeft(Abs())
    {
      hide Peer.Sane, VersionOk, Finish, ResultLeft, PayloadLeft;
    }

    /* ---------- READBUF ---------- */

    /** do_read_buff: fetch when nothing is staged, send what is staged. */
    method DoReadBuff() returns (ret: int)
      requires Valid() && phase == RwBuf && cmd.kind == ReadBuf
      modifies this`nb, this`cmd, payload, peer
      ensures Usable(ret) && peer.Follows() && cmd.kind == ReadBuf
      ensures ret == -EAGAIN ==>
                peer.Budget() < old(peer.Budget()) || Stuck() || (old(nb.len) > 0 && nb.len == 0 && phase == RwBuf)
      ensures ret == 0 ==> peer.Budget() < old(peer.Budget()) || old(nb.len) > 0
      ensures !peer.broken ==>
                if ret == 0 then old(Future()) == Outcome(Done, peer.World(mask)) else Keeps(old(Future()), ret)
    {
      hide Peer.Sane, VersionOk, Finish, Future;
      ret := 0;
      if nb.len == 0 {
        ret := FetchBuffer();
        if ret < 0 {
          return;
        }
      }
      if nb.idx < nb.len {
        ret := SendBuffer();
      }
    }

    /** Fetching: nothing of the next chunk was read yet.  Streaming: a chunk is being sent. */
    lemma Fetching()
      requires Valid() && phase == RwBuf && cmd.kind == ReadBuf && nb.len == 0
      ensures Future() == FinishReadBuf(Env(), cmd.bytes, peer.World(mask))
    {
      hide Peer.Sane, VersionOk, FinishReadBuf;
    }

    lemma Streaming()
      requires Valid() && phase == RwBuf && cmd.kind == ReadBuf && nb.len > 0
      ensures nb.len <= cmd.bytes
      ensures Future()
           == FinishSent(Env(), cmd.bytes, nb.len, peer.World(mask).(wire := peer.intended + Text(nb)[nb.idx..]))
    {
      hide Peer.Sane, VersionOk, FinishSent;
    }

    method FetchBuffer() returns (ret: int)
      requires Valid() && phase == RwBuf && cmd.kind == ReadBuf && nb.len == 0
      modifies this`nb, payload, peer
      ensures Valid() && peer.Follows() && ret <= 0
      ensures peer.Budget() < old(peer.Budget()) || (ret < 0 && Stuck())
      ensures ret < 0 ==> Keeps(old(Future()), ret)
      ensures ret == 0 ==>
                if nb.len == 0 then old(Future()) == Outcome(Done, peer.World(mask))
                else nb.idx < nb.len && Future() == old(Future())
    {
      hide Peer.Sane, VersionOk, Finish, Future;
      Fetching();
      ret := ReadDevice();
      if nb.len > 0 {
        assert Text(nb)[0..] == Text(nb);
        Streaming();
      } else {
        assert peer.intended + "" == peer.intended;
        Fetching();
      }
    }

    /** read_buffer, into the payload buffer. */
    method ReadDevice() returns (ret: int)
      requires Valid() && phase == RwBuf && cmd.kind == ReadBuf && nb.len == 0
      modifies this`nb, payload, peer
      ensures Valid() && peer.Follows() && ret <= 0 && nb.idx == 0
      ensures peer.Budget() < old(peer.Budget()) || old(peer.answers) == []
      ensures var a, w := NextAnswer(old(peer.World(mask))), Answered(old(peer.World(mask)));
              if a.code < 0 then ret == a.code && Text(nb) == "" && peer.World(mask) == w
              else
                && ret == 0 && Text(nb) == Given(a, Min(payload.Length, cmd.bytes))
                && peer.World(mask) == w.(produced := w.produced + Text(nb))
    {
      hide Peer.Sane, VersionOk, Finish;
      var len := Min(payload.Length, cmd.bytes);
      var a := peer.Ask();
      nb := Buff(payload, 0, 0);
      if a.code < 0 {
        return a.code;
      }
      var data := Given(a, len);
      Fill(payload, data);
      peer.produced := peer.produced + data;
      nb := nb.(len := |data|);
      ret := 0;
    }

    method SendBuffer() returns (ret: int)
      requires Valid() && phase == RwBuf && cmd.kind == ReadBuf && nb.idx < nb.len
      modifies this`nb, this`cmd, peer`wire, peer`intended, peer`grants, peer`broken, peer`lost
      ensures Usable(ret) && peer.Follows() && cmd.kind == ReadBuf
      ensures ret == -EAGAIN ==>
                peer.Budget() < old(peer.Budget()) || Stuck() || (old(nb.len) > 0 && nb.len == 0 && phase == RwBuf)
      ensures !peer.broken ==>
                if ret == 0 then old(Future()) == Outcome(Done, peer.World(mask)) else Keeps(old(Future()), ret)
    {
      hide Peer.Sane, VersionOk, BuffersOk, Finish, Future, FinishReadBuf;
      Streaming();
      ret, nb := SendBuff(nb, false);
      if ret < 0 {
        Streaming();
        return;
      }
      assert peer.intended + "" == peer.intended;
      cmd := cmd.(bytes := cmd.bytes - nb.len);
      nb := nb.(len := 0, idx := 0);
      if cmd.bytes != 0 {
        Fetching();
        ret := -EAGAIN;
      }
    }

    /* ---------- WRITEBUF ---------- */

    /** do_write_buff: receive a chunk, hand it to the device. */
    method DoWriteBuff() returns (ret: int)
      requires Valid() && phase == RwBuf && cmd.kind == WriteBuf
      modifies this`nb, this`cmd, payload, parserBuf, peer
      ensures Usable(ret) && peer.Follows() && cmd.kind == WriteBuf
      ensures ret == -EAGAIN ==>
                peer.Budget() < old(peer.Budget()) || Stuck() || (old(nb.len) > 0 && nb.len == 0 && phase == RwBuf)
      ensures ret == 0 ==> peer.Budget() < old(peer.Budget()) || old(nb.len) > 0
      ensures !peer.broken && ret < 0 ==> Keeps(old(Future()), ret)
      ensures ret == 0 ==> nb.len == cmd.bytes == 0 && old(Future()) == FinishPush(peer.World(mask))
    {
      hide Peer.Sane, VersionOk, Finish, Future, FinishChunk, FinishPush;
      ret := ReceiveChunk();
      if ret == 0 {
        ret := WriteDevice();
      }
    }

    /** Gathering: a chunk is being received.  Waiting: its first byte is still to come. */
    lemma Gathering()
      requires Valid() && phase == RwBuf && cmd.kind == WriteBuf && nb.len > 0
      ensures Future() == FinishGather(Env(), Received(nb), nb.len - nb.idx, cmd.bytes, peer.World(mask))
    {
      hide Peer.Sane, VersionOk, FinishGather;
    }

    lemma Waiting()
      requires Valid() && phase == RwBuf && cmd.kind == WriteBuf && nb.len == 0
      ensures Future() == FinishWriteBuf(Env(), cmd.bytes, peer.World(mask))
      ensures Future() == FinishGather(Env(), "", Min(payload.Length, cmd.bytes), cmd.bytes, peer.World(mask))
    {
      hide Peer.Sane, VersionOk, FinishChunk;
      var n := Min(payload.Length, cmd.bytes);
      if n <= |peer.inbox| {
        assert "" + peer.inbox[..n] == peer.inbox[..n];
      }
    }

    method ReceiveChunk() returns (ret: int)
      requires Valid() && phase == RwBuf && cmd.kind == WriteBuf
      modifies this`nb, payload, peer`inbox, peer`grants, peer`broken
      ensures Valid() && peer.Follows() && ret <= 0
      ensures ret < 0 ==> peer.Budget() < old(peer.Budget()) || Stuck()
      ensures ret < 0 ==> (ret == -EAGAIN || peer.broken) && Future() == old(Future())
      ensures ret == 0 ==>
                && nb.idx == nb.len == Min(payload.Length, cmd.bytes)
                && old(Future()) == FinishChunk(Env(), Text(nb), cmd.bytes, peer.World(mask))
    {
      hide Peer.Sane, VersionOk, Finish, Future, FinishGather;
      StartChunk();
      ret := 0;
      if nb.idx < nb.len {
        ret := ReceiveMore();
      }
      if ret == 0 {
        assert Received(nb) == Text(nb);
        GatherComplete(Env(), Text(nb), cmd.bytes, peer.World(mask));
      }
    }

    /** What do_write_buff will come to, a chunk being under way. */
    ghost function Gathered(): Outcome
      requires Valid() && phase == RwBuf && cmd.kind == WriteBuf && nb.len == Min(payload.Length, cmd.bytes)
      reads this, peer, xml, version, payload, parserBuf, bufMask
    {
      FinishGather(Env(), Received(nb), nb.len - nb.idx, cmd.bytes, peer.World(mask))
    }

    method StartChunk()
      requires Valid() && phase == RwBuf && cmd.kind == WriteBuf
      modifies this`nb
      ensures Valid() && nb.len == Min(payload.Length, cmd.bytes) && old(Future()) == Gathered()
    {
      hide Peer.Sane, VersionOk, Finish, Future, FinishGather;
      if nb.len == 0 {
        Waiting();
        nb := Buff(payload, 0, Min(payload.Length, cmd.bytes));
        assert Text(nb)[..0] == "";
      } else {
        Gathering();
      }
    }

    method ReceiveMore() returns (ret: int)
      requires Valid() && phase == RwBuf && cmd.kind == WriteBuf
      requires nb.idx < nb.len == Min(payload.Length, cmd.bytes)
      modifies this`nb, payload, peer`inbox, peer`grants, peer`broken
      ensures Valid() && peer.Follows() && ret <= 0 && (ret == 0 ==> nb.idx == nb.len)
      ensures ret < 0 ==> peer.Budget() < old(peer.Budget()) || Stuck()
      ensures ret < 0 ==> (ret == -EAGAIN || peer.broken) && Future() == old(Gathered())
      ensures nb.len == old(nb.len) && Gathered() == old(Gathered())
    {
      hide Taken, Peer.Sane, VersionOk, Finish, Future, FinishGather, PhaseOk, BuffersOk, Received;
      ghost var got, w := Received(nb), peer.World(mask);
      ret := Receive();
      GatherMoves(Env(), got, Received(nb), nb.len, cmd.bytes, w, peer.inbox);
      Gathering();
      GatherDry(Env(), Received(nb), nb.len - nb.idx, cmd.bytes, peer.World(mask));
    }

    /** write_buffer, from the payload buffer. */
    method WriteDevice() returns (ret: int)
      requires Valid() && phase == RwBuf && cmd.kind == WriteBuf
      requires nb.idx == nb.len == Min(payload.Length, cmd.bytes)
      modifies this`nb, this`cmd, peer
      ensures Usable(ret) && peer.Follows() && cmd.kind == WriteBuf
      ensures peer.Budget() < old(peer.Budget()) || (ret == -EAGAIN && Stuck())
      ensures ret < 0 ==> Keeps(old(FinishChunk(Env(), Text(nb), cmd.bytes, peer.World(mask))), ret)
      ensures ret == 0 ==>
                && nb.len == cmd.bytes == 0
                && old(FinishChunk(Env(), Text(nb), cmd.bytes, peer.World(mask))) == FinishPush(peer.World(mask))
    {
      hide Peer.Sane, VersionOk, BuffersOk, Finish, Future, FinishPush, FinishWriteBuf, FinishGather, FinishChunk,
           SameOutput;
      ChunkAnswered(Env(), Text(nb), cmd.bytes, peer.World(mask));
      var a := peer.Ask();
      if a.code < 0 {
        Staged();
        SameAsItself(peer.World(mask));
        return a.code;
      }
      Deliver();
      ChunkTaken();
      ret := if cmd.bytes != 0 then -EAGAIN else 0;
    }

    method Deliver()
      requires BuffOk(nb)
      modifies peer`delivered
      ensures peer.World(mask) == old(peer.World(mask)).(delivered := old(peer.delivered) + Text(nb))
    {
      peer.delivered := peer.delivered + if nb.buf == null then "" else nb.buf[..nb.len];
    }

    method ChunkTaken()
      requires Valid() && phase == RwBuf && cmd.kind == WriteBuf
      requires nb.idx == nb.len == Min(payload.Length, cmd.bytes)
      modifies this`nb, this`cmd
      ensures Valid() && cmd.kind == WriteBuf && cmd.bytes == old(cmd.bytes - nb.len) && nb.len == 0
      ensures Future() == FinishWriteBuf(Env(), cmd.bytes, peer.World(mask))
    {
      hide Peer.Sane, VersionOk, BuffersOk, Finish, Future, FinishWriteBuf;
      cmd := cmd.(bytes := cmd.bytes - nb.len);
      nb := nb.(len := 0, idx := 0);
      Waiting();
    }

    /** A complete chunk is staged. */
    lemma Staged()
      requires Valid() && phase == RwBuf && cmd.kind == WriteBuf
      requires nb.idx == nb.len == Min(payload.Length, cmd.bytes)
      ensures Future() == FinishChunk(Env(), Text(nb), cmd.bytes, peer.World(mask))
    {
      hide Peer.Sane, VersionOk, Finish, Future, FinishGather, FinishChunk, FinishWriteBuf;
      if nb.len == 0 {
        Waiting();
      } else {
        Gathering();
      }
      assert Received(nb) == Text(nb);
      GatherComplete(Env(), Text(nb), cmd.bytes, peer.World(mask));
    }

    /** push_buffer, and its reply. */
    method PushBuffer()
      requires Valid() && phase == RwBuf && cmd.kind == WriteBuf && nb.len == cmd.bytes == 0
      modifies this, peer
      ensures Valid() && peer.Follows() && Rank() < 2
      ensures Keeps(FinishPush(old(peer.World(mask))), 0)
    {
      hide Peer.Sane, VersionOk, BuffersOk, PhaseOk, Future, Finish, FinishReadBuf, FinishWriteBuf;
      var a := peer.AskFor(Push, mask);
      if a.code < 0 {
        GiveUp(a.code);
      } else {
        ReplyZero();
      }
    }

    /** A failed push has no reply. */
    method GiveUp(code: Int32)
      requires Valid() && phase == RwBuf
      modifies this`val, this`writeVal, this`phase
      ensures Valid() && phase == LineDone
    {
      writeVal, val, phase := true, code, LineDone;
    }

    /** The count that is left, as the reply of a WRITEBUF. */
    method ReplyZero()
      requires Valid() && phase == RwBuf && cmd.kind == WriteBuf && nb.len == cmd.bytes == 0
      modifies this`res, this`val, this`writeVal, this`cmd, this`phase
      ensures Valid() && Rank() < 2 && phase == WritingResult
      ensures Future() == Outcome(Done, peer.World(mask).(wire := peer.intended + "0\n"))
    {
      hide Peer.Sane, VersionOk, BuffersOk, Finish, Future, FinishReadBuf, FinishWriteBuf;
      writeVal := true;
      res, val, cmd := Buff(null, 0, 0), cmd.bytes, cmd.(kind := Print);
      phase := WritingResult;
      Writing();
      assert Dec(0) == "0" && "0\n" + "" == "0\n";
      assert Replied() == peer.intended + "0\n" && Replied() + "" == Replied();
    }

    /** RW_BUF: the data phase of READBUF and WRITEBUF. */
    method StepRwBuf() returns (ret: int)
      requires Valid() && phase == RwBuf
      modifies this, payload, parserBuf, peer
      ensures Usable(ret) && peer.Follows() && (ret == 0 ==> Rank() < 2)
      ensures ret == -EAGAIN ==>
                peer.Budget() < old(peer.Budget()) || Stuck() || (old(nb.len) > 0 && nb.len == 0 && phase == RwBuf)
      ensures ret == 0 ==> peer.Budget() < old(peer.Budget()) || old(nb.len) > 0
      ensures !peer.broken ==> Keeps(old(Future()), ret)
    {
      hide Peer.Sane, VersionOk, Finish, Future, FinishPush;
      if cmd.kind == ReadBuf {
        ret := DoReadBuff();
      } else {
        ret := DoWriteBuff();
        if ret == 0 {
          PushBuffer();
          return 0;
        }
      }
      if ret == 0 {
        phase := LineDone;
      }
    }

    /* ---------- Runs ---------- */

    /** The transfers still possible, and how much of the current command is staged. */
    function Load(): nat
      reads this, peer
    {
      3 * peer.Budget() + (if phase == ReadingLine then 0 else if phase == RwBuf && nb.len == 0 then 1 else 2)
    }

    /** iiod_run_state. */
    method RunState() returns (ret: int)
      requires Valid() && Goes()
      modifies this, payload, parserBuf, bufMask, peer
      ensures Usable(ret) && peer.Follows() && (ret == 0 ==> Rank() < old(Rank()))
      ensures !peer.broken ==> Keeps(old(Future()), ret)
      ensures ret == 0 ==> Load() <= old(Load())
      ensures ret == -EAGAIN ==> Load() < old(Load()) || Stuck()
      ensures ret < 0 && ret != -EAGAIN ==> 3 * peer.Budget() < old(Load())
    {
      hide Peer.Sane, VersionOk, Finish, Future;
      match phase
      case ReadingLine => ret := StepReadingLine();
      case RunningCmd => ret := StepRunningCmd();
      case WritingResult => ret := StepWritingResult();
      case RwBuf => ret := StepRwBuf();
      case ReadingWriteData => ret := StepReadingWriteData();
      case Oversized => ret := StepOversized();
    }

    /** conn_clean_state: everything but the mask of the opened buffer. */
    method CleanState()
      requires BuffersOk()
      modifies this
      ensures Valid() && Abs() == FRESH && mask == old(mask)
    {
      cmd, val, writeVal, res := NO_CMD, 0, false, Buff(null, 0, 0);
      nb, parserIdx, phase := Buff(null, 0, 0), 0, ReadingLine;
    }

    /** iiod_conn_step: states are processed until the command is done, fails, or has to wait. */
    method ConnStep() returns (ret: int)
      requires Valid() && Goes()
      modifies this, payload, parserBuf, bufMask, peer
      ensures Valid() && phase != LineDone && peer.Follows() && (phase == Overrun ==> ret == 0)
      ensures !peer.broken ==>
                if ret == -EAGAIN || phase == Overrun then Future() == old(Future())
                else
                  && old(Future()) == Outcome(if ret == 0 then Done else Failed(ret), peer.World(mask))
                  && Abs() == FRESH
      ensures phase == Overrun || Load() < old(Load()) || (ret == -EAGAIN && Stuck())
    {
      hide Peer.Sane, VersionOk, Finish, Future;
      ghost var o := Future();
      while true
        invariant Valid() && Goes() && peer.Follows() && (!peer.broken ==> Future() == o)
        invariant Load() <= old(Load())
        decreases Rank()
      {
        ret := RunState();
        if ret == -EAGAIN || phase == Overrun {
          return;
        }
        if ret < 0 || phase == LineDone {
          break;
        }
      }
      CleanState();
    }

    /** What the session comes to when everything that can still be done is done. */
    ghost function Rest(): Outcome
      requires Valid()
      reads this, peer, xml, version, payload, parserBuf, bufMask
    {
      Session(Env(), Future())
    }

    /** A connection that is stuck, or has overrun its buffer, is where its session ends. */
    lemma Ends()
      requires Valid() && (phase == Overrun || Stuck())
      ensures Rest() == Future() && SameOutput(Future().w, peer.World(mask))
      ensures Rest().end == if phase == Overrun then Overflow else Blocked
    {
      SessionEnds(Env(), Future());
    }

    /** No step changes what the session comes to, however it splits the work. */
    method Step() returns (ret: int)
      requires Valid() && Goes()
      modifies this, payload, parserBuf, bufMask, peer
      ensures Valid() && phase != LineDone && peer.Follows() && (phase == Overrun ==> ret == 0)
      ensures !peer.broken ==>
                old(Rest()) == if ret == -ENOTCONN then Outcome(Failed(ret), peer.World(mask)) else Rest()
      ensures phase == Overrun || Load() < old(Load()) || (ret == -EAGAIN && Stuck())
    {
      hide Finish;
      ghost var env, o := Env(), Future();
      ret := ConnStep();
      if !peer.broken && ret != -EAGAIN && ret != -ENOTCONN && phase != Overrun {
        SessionGoesOn(env, o);
      }
    }

    /** At every moment what was sent, but for lost newlines, is a prefix of what the session comes to. */
    lemma SentIsPrefix()
      requires Valid() && peer.Sane()
      ensures peer.intended <= Rest().w.wire && |peer.wire| + peer.lost == |peer.intended|
      ensures peer.lost == 0 ==> peer.wire <= Rest().w.wire
    {
      hide Finish, Session, Dropped;
      FinishLater(Env(), Abs(), peer.World(mask));
      SessionLater(Env(), Future());
      DroppedIsShorter(peer.intended, peer.wire, peer.lost);
    }
  }

  /** All that came out of a connection is the same: the bytes sent, those read from and handed to the
      device, and the calls of the application. */
  predicate SameOutput(w: World, w': World) {
    w.wire == w'.wire && w.produced == w'.produced && w.delivered == w'.delivered && w.calls == w'.calls
  }

  lemma SameAsItself(w: World)
    ensures SameOutput(w, w)
  {
  }

  /** What is still to be sent of a text, with its newline; nothing once the text is out. */
  function Owed(text: string, idx: nat, endl: bool): string
    requires idx <= |text|
  {
    if idx == |text| then "" else if endl then text[idx..] + "\n" else text[idx..]
  }

  /** What is owed splits where the text was cut; at its end the newline is owed alone. */
  lemma OwedLess(before: string, text: string, i: nat, j: nat, endl: bool)
    requires i <= j <= |text| && i < |text|
    ensures var now := before + text[i..j];
            && (j < |text| ==> now + Owed(text, j, endl) == before + Owed(text, i, endl))
            && (j == |text| && !endl ==> now + Owed(text, j, endl) == before + Owed(text, i, endl))
            && (j == |text| && endl ==> now + "\n" + Owed(text, j, endl) == before + Owed(text, i, endl))
            && (j == |text| ==> text[i..j] == text[i..])
  {
    assert text[i..j] + text[j..] == text[i..];
  }

  /** A connection that took its command; the attribute to receive goes where `space` is. */
  ghost function Commanded(p: Parsed, space: string): Conn {
    if !p.ok then FRESH.(phase := WritingResult, cmd := p.cmd, writeVal := true, val := -EINVAL)
    else if p.cmd.kind == Write && p.cmd.bytes >= |space| then FRESH.(phase := Oversized, cmd := p.cmd)
    else if p.cmd.kind == Write then
      FRESH.(phase := ReadingWriteData, cmd := p.cmd, staged := space[..p.cmd.bytes])
    else FRESH.(phase := RunningCmd, cmd := p.cmd)
  }

  lemma CommandedFinish(env: Env, text: string, space: string, w: World, rest: string)
    requires |space| == env.payloadLen
    ensures Finish(env, Commanded(env.parse(text), space), w.(inbox := rest)) == FinishLine(env, Line(text, rest), w)
  {
  }

  /** A connection about to reply. */
  function Replying(cmd: Cmd, r: Result): Conn {
    FRESH.(phase := WritingResult, cmd := cmd, val := r.val, writeVal := r.writeVal, res := r.payload)
  }

  lemma Replies(env: Env, cmd: Cmd, r: Result, w: World)
    ensures Finish(env, Replying(cmd, r), w) == FinishReply(env, cmd, ReplyText(r.writeVal, r.val, r.payload), w)
  {
    hide FinishReply;
    assert r.payload[0..] == r.payload;
  }

  lemma LineDry(partial: string)
    requires |partial| < LINE_MAX
    ensures SplitLine(partial, "") == NeedMore
  {
  }

  lemma OversizedMoves(env: Env, cmd: Cmd, got: nat, k: nat, w: World, inbox: string)
    requires |w.inbox| == k + |inbox|
    ensures FinishOversized(env, cmd, got, w) == FinishOversized(env, cmd, got + k, w.(inbox := inbox))
  {
  }

  lemma OversizedEnds(env: Env, cmd: Cmd, got: nat, w: World)
    requires cmd.bytes > INT32_MAX || got >= Min(cmd.bytes, env.payloadLen + 1)
    ensures FinishOversized(env, cmd, got, w) == Outcome(Overflow, w.(inbox := ""))
  {
  }

  lemma AttrDry(env: Env, cmd: Cmd, got: string, missing: nat, w: World)
    ensures missing > 0 && w.inbox == "" ==> FinishAttr(env, cmd, got, missing, w) == Outcome(Blocked, w)
  {
  }

  lemma GatherDry(env: Env, got: string, missing: nat, count: nat, w: World)
    requires |got| + missing <= count
    ensures missing > 0 && w.inbox == "" ==> FinishGather(env, got, missing, count, w) == Outcome(Blocked, w)
  {
  }

  /** Input moved to what was received, in order and none of it lost. */
  predicate Taken(got: string, inbox: string, got': string, inbox': string) {
    got <= got' && got + inbox == got' + inbox'
  }

  lemma AttrMoves(env: Env, cmd: Cmd, got: string, got': string, total: nat, w: World, inbox': string)
    requires Taken(got, w.inbox, got', inbox') && |got'| <= total
    ensures FinishAttr(env, cmd, got, total - |got|, w)
         == FinishAttr(env, cmd, got', total - |got'|, w.(inbox := inbox'))
  {
    hide FinishRun;
    TakenOn(got, w.inbox, got', inbox', total);
  }

  /** The first `total` bytes, and the input behind them, stay the same. */
  lemma TakenOn(got: string, inbox: string, got': string, inbox': string, total: nat)
    requires Taken(got, inbox, got', inbox') && |got'| <= total
    ensures |got| + |inbox| == |got'| + |inbox'|
    ensures total <= |got| + |inbox| ==>
              && got + inbox[..total - |got|] == got' + inbox'[..total - |got'|]
              && inbox[total - |got|..] == inbox'[total - |got'|..]
  {
    assert |got + inbox| == |got' + inbox'|;
    if total <= |got| + |inbox| {
      assert got + inbox[..total - |got|] == (got + inbox)[..total];
      assert got' + inbox'[..total - |got'|] == (got' + inbox')[..total];
      assert inbox[total - |got|..] == (got + inbox)[total..];
      assert inbox'[total - |got'|..] == (got' + inbox')[total..];
    }
  }

  lemma AttrComplete(env: Env, cmd: Cmd, got: string, w: World)
    ensures FinishAttr(env, cmd, got, 0, w) == FinishRun(env, cmd, got, w)
  {
    assert got + w.inbox[..0] == got && w.inbox[0..] == w.inbox;
  }

  /** What write_buffer answers to a complete chunk. */
  lemma ChunkAnswered(env: Env, chunk: string, count: nat, w: World)
    requires |chunk| <= count
    ensures var o := FinishChunk(env, chunk, count, w); var a, w1 := NextAnswer(w), Answered(w);
            if w.answers == [] then o == Outcome(Blocked, w)
            else if a.code == -EAGAIN then o == FinishChunk(env, chunk, count, w1)
            else if a.code < 0 then o == Outcome(Failed(a.code), w1)
            else
              var w2 := w1.(delivered := w1.delivered + chunk);
              o == if |chunk| == count then FinishPush(w2) else FinishWriteBuf(env, count - |chunk|, w2)
  {
    hide FinishWriteBuf, FinishPush;
  }

  lemma GatherMoves(env: Env, got: string, got': string, total: nat, count: nat, w: World, inbox': string)
    requires Taken(got, w.inbox, got', inbox') && |got'| <= total <= count
    ensures FinishGather(env, got, total - |got|, count, w)
         == FinishGather(env, got', total - |got'|, count, w.(inbox := inbox'))
  {
    hide FinishChunk;
    TakenOn(got, w.inbox, got', inbox', total);
  }

  lemma GatherComplete(env: Env, got: string, count: nat, w: World)
    requires |got| <= count
    ensures FinishGather(env, got, 0, count, w) == FinishChunk(env, got, count, w)
  {
    hide FinishChunk;
    assert got + w.inbox[..0] == got && w.inbox[0..] == w.inbox;
  }

  /** A whole run of one connection, until nothing moves any more or the payload buffer is overrun.
      Unless the transport failed, the application gets the calls and the data that the session comes
      to, and the client its bytes but for the newlines that were refused: a function of the input and
      the answers alone, whatever the schedule. */
  method Serve(parse: string -> Parsed, xml: string, payloadLen: nat,
               inbox: string, grants: seq<Grant>, answers: seq<Answer>)
    returns (wire: string, delivered: string, calls: seq<Call>, lost: nat, overrun: bool, broken: bool)
    requires payloadLen <= INT32_MAX
    ensures !broken ==>
              var env := Env(parse, payloadLen, xml);
              var total := Session(env, Finish(env, FRESH, Beginning(inbox, answers)));
              && Dropped(total.w.wire, wire, lost) && |wire| + lost == |total.w.wire|
              && (wire == total.w.wire <==> lost == 0)
              && delivered == total.w.delivered && calls == total.w.calls && (overrun <==> total.end == Overflow)
    ensures IsFaultless(grants) ==> !broken
    ensures AreEager(grants) ==> !broken && lost == 0
  {
    hide Finish, Session, Dropped;
    var peer := new Peer(inbox, grants, answers);
    var xmlBuf := new char[|xml|](i requires 0 <= i < |xml| => xml[i]);
    var payload := new char[payloadLen];
    var c := new Connection(peer, parse, xmlBuf, payload);
    assert xmlBuf[..] == xml;
    ghost var total := c.Rest();
    while true
      invariant c.Valid() && c.Goes() && (!peer.broken ==> c.Rest() == total) && peer.Sane()
      decreases c.Load()
    {
      var load := c.Load();
      var ret := c.Step();
      if ret == -ENOTCONN {
        break;
      }
      if c.phase == Overrun || c.Load() >= load {
        c.Ends();
        break;
      }
    }
    DroppedIsShorter(peer.intended, peer.wire, peer.lost);
    wire, delivered, calls, lost, broken := peer.wire, peer.delivered, peer.calls, peer.lost, peer.broken;
    overrun := c.phase == Overrun;
  }

  /** A schedule that takes the text of a reply and refuses its newline: the client never gets it. */
  method LostNewline(text: string, later: seq<Grant>) returns (wire: string, lost: nat)
    requires text != ""
    ensures wire == text && lost == 1
  {
    var peer := new Peer("", [UpTo(|text|), Again] + later, []);
    var payload, xml := new char[0], new char[|text|](i requires 0 <= i < |text| => text[i]);
    var c := new Connection(peer, _ => Parsed(false, NO_CMD), xml, payload);
    assert xml[..] == text;
    var ret, b := c.SendBuff(Buff(xml, 0, |text|), true);
    wire, lost := peer.wire, peer.lost;
  }
}
