/**
 The world outside of a connection of the iiod server: its client, behind a transport that may split or
 refuse every send and receive, and the application that answers its operations.
 */
module IiodTransport {
  import opened Basics
  import opened Errno
  import opened IiodSpec

  /** What the transport does with one send or receive: nothing, up to `n` bytes, or an error. */
  datatype Grant = Again | UpTo(n: nat) | Error(code: int)

  predicate IsFaultless(grants: seq<Grant>) {
    forall i :: 0 <= i < |grants| ==> !grants[i].Error?
  }

  /** Whatever the transport is offered, it takes at least a part of it. */
  predicate AreEager(grants: seq<Grant>) {
    forall i :: 0 <= i < |grants| ==> grants[i].UpTo? && grants[i].n > 0
  }

  /** The result of offering `len` bytes; once the schedule is used up, everything gets through. */
  function Granted(grants: seq<Grant>, len: nat): int {
    if grants == [] then len
    else
      match grants[0]
      case Again => -EAGAIN
      case UpTo(n) => Min(n, len)
      case Error(code) => if code < 0 then code else -EAGAIN
  }

  function Left(grants: seq<Grant>): seq<Grant> {
    if grants == [] then [] else grants[1..]
  }

  predicate Refuses(grants: seq<Grant>) {
    grants != [] && (grants[0] == Again || grants[0] == UpTo(0))
  }

  /** The schedule takes `len` bytes whole and refuses the newline behind them. */
  predicate LosesNewline(grants: seq<Grant>, len: nat) {
    Granted(grants, len) == len && Refuses(Left(grants))
  }

  /** `sent` is `full` with `n` of its newlines left out. */
  predicate Dropped(full: string, sent: string, n: nat)
    decreases |full|
  {
    if full == "" then sent == "" && n == 0
    else
      var f, c := full[..|full| - 1], full[|full| - 1];
      || (sent != "" && sent[|sent| - 1] == c && Dropped(f, sent[..|sent| - 1], n))
      || (n > 0 && c == '\n' && Dropped(f, sent, n - 1))
  }

  lemma {:induction false} DroppedAppend(full: string, sent: string, n: nat, s: string)
    requires Dropped(full, sent, n)
    ensures Dropped(full + s, sent + s, n)
    decreases |s|
  {
    if s == "" {
      assert full + s == full && sent + s == sent;
    } else {
      var t := s[..|s| - 1];
      assert (full + s)[..|full + s| - 1] == full + t && (sent + s)[..|sent + s| - 1] == sent + t;
      DroppedAppend(full, sent, n, t);
    }
  }

  lemma DroppedOne(full: string, sent: string, n: nat)
    requires Dropped(full, sent, n)
    ensures Dropped(full + "\n", sent, n + 1)
  {
    assert (full + "\n")[..|full|] == full;
  }

  /** As many bytes are missing as newlines were dropped; the text is whole if and only if none was. */
  lemma {:induction false} DroppedIsShorter(full: string, sent: string, n: nat)
    requires Dropped(full, sent, n)
    ensures |sent| + n == |full| && (sent == full <==> n == 0)
    decreases |full|
  {
    if full != "" {
      var f, c := full[..|full| - 1], full[|full| - 1];
      if sent != "" && sent[|sent| - 1] == c && Dropped(f, sent[..|sent| - 1], n) {
        DroppedIsShorter(f, sent[..|sent| - 1], n);
        assert full == f + [c] && sent == sent[..|sent| - 1] + [c];
      } else {
        DroppedIsShorter(f, sent, n - 1);
      }
    }
  }

  /** The world when a connection was just accepted. */
  function Beginning(inbox: string, answers: seq<Answer>): World {
    World(inbox, "", answers, [], "", "", 0)
  }

  class Peer {
    var inbox: string
    var wire: string
    var grants: seq<Grant>
    var answers: seq<Answer>
    /** How many one-byte newlines were refused, and so never sent again. */
    var lost: nat
    /** The transport failed for good. */
    var broken: bool
    var calls: seq<Call>
    var produced: string
    var delivered: string
    /** What would be on the wire if no newline had been lost. */
    ghost var intended: string

    /** What was known of the schedule at the start. */
    ghost const faultless: bool
    ghost const eager: bool

    constructor (inbox: string, grants: seq<Grant>, answers: seq<Answer>)
      ensures World(0) == Beginning(inbox, answers) && this.grants == grants && wire == ""
      ensures Sane() && !broken && lost == 0 && faultless == IsFaultless(grants) && eager == AreEager(grants)
    {
      this.inbox, this.wire, this.grants, this.answers := inbox, "", grants, answers;
      calls, produced, delivered, lost, broken, intended := [], "", "", 0, false, "";
      faultless, eager := IsFaultless(grants), AreEager(grants);
    }

    ghost function World(mask: nat): IiodSpec.World
      reads this
    {
      IiodSpec.World(inbox, intended, answers, calls, produced, delivered, mask)
    }

    /** Only refused newlines are missing on the wire.  A schedule without errors never breaks the
        transport, and one that takes a part of everything never loses a newline. */
    ghost predicate Sane()
      reads `intended, `wire, `lost, `broken, `grants
    {
      && Dropped(intended, wire, lost)
      && (faultless ==> !broken && IsFaultless(grants))
      && (eager ==> !broken && lost == 0 && AreEager(grants))
    }

    /** What can still happen: grants, answers and bytes not used up. */
    function Budget(): nat
      reads this
    {
      |grants| + |answers| + |inbox|
    }

    /** Nothing repairs a transport, and the budget is only spent. */
    twostate predicate Follows()
      reads this
    {
      (old(broken) ==> broken) && (old(Sane()) ==> Sane()) && Budget() <= old(Budget())
    }

    method TakeGrant(len: nat) returns (ret: int)
      requires len > 0
      modifies `grants, `broken
      ensures Follows() && ret == Granted(old(grants), len) <= len && grants == Left(old(grants))
      ensures ret < len ==> |grants| < |old(grants)|
      ensures ret < 0 ==> ret == -EAGAIN || broken
      ensures old(grants) != [] && old(grants)[0].Error? ==> broken
    {
      ret := Granted(grants, len);
      if grants != [] {
        broken := broken || grants[0].Error?;
        grants := grants[1..];
      }
    }

    /** The send operation: some prefix of `data` goes out. */
    method Send(data: string) returns (ret: int)
      requires data != ""
      modifies `wire, `intended, `grants, `broken
      ensures Follows() && ret == Granted(old(grants), |data|) <= |data| && grants == Left(old(grants))
      ensures ret < |data| ==> Budget() < old(Budget())
      ensures ret < 0 ==> ret == -EAGAIN || broken
      ensures old(grants) != [] && old(grants)[0].Error? ==> broken
      ensures var sent := if ret < 0 then "" else data[..ret];
              wire == old(wire) + sent && intended == old(intended) + sent
    {
      hide Dropped;
      ret := TakeGrant(|data|);
      var sent := if ret < 0 then "" else data[..ret];
      if Dropped(intended, wire, lost) {
        DroppedAppend(intended, wire, lost, sent);
      }
      wire := wire + sent;
      intended := intended + sent;
    }

    /** The send operation for the newline behind a text.  A refused one counts as lost, for the source
        does not remember it. */
    method SendNewline() returns (ret: int)
      modifies `wire, `intended, `grants, `broken, `lost
      ensures Follows() && ret == Granted(old(grants), 1) <= 1 && (ret < 1 ==> Budget() < old(Budget()))
      ensures ret < 0 ==> ret == -EAGAIN || broken
      ensures lost == old(lost) + if Refuses(old(grants)) then 1 else 0
      ensures wire == if ret == 1 then old(wire) + "\n" else old(wire)
      ensures !broken ==> intended == old(intended) + "\n"
    {
      hide Dropped;
      var refused := Refuses(grants);
      ret := Send("\n");
      assert "\n"[..1] == "\n";
      if refused {
        if Dropped(intended, wire, lost) {
          DroppedOne(intended, wire, lost);
        }
        lost := lost + 1;
        intended := intended + "\n";
      }
    }

    /** The recv operation: some prefix of the input comes in. */
    method Recv(len: nat) returns (ret: int, data: string)
      requires len > 0
      modifies `inbox, `grants, `broken
      ensures Follows() && (Budget() < old(Budget()) || (ret == 0 && inbox == ""))
      ensures |data| <= len && old(inbox) == data + inbox
      ensures if ret < 0 then data == "" && (ret == -EAGAIN || broken) else ret == |data|
    {
      hide Dropped;
      data := "";
      ret := TakeGrant(len);
      if ret >= 0 {
        ret := Min(ret, |inbox|);
        data := inbox[..ret];
        inbox := inbox[ret..];
      }
    }

    method Ask() returns (a: Answer)
      modifies `answers
      ensures Follows() && (old(answers) != [] ==> Budget() < old(Budget()))
      ensures if old(answers) == [] then a == Answer(-EAGAIN, "") && answers == []
              else a == old(answers)[0] && answers == old(answers)[1..]
    {
      if answers == [] {
        return Answer(-EAGAIN, "");
      }
      a := answers[0];
      answers := answers[1..];
    }

    /** An operation of the application that is recorded, and its answer. */
    method AskFor(call: Call, ghost mask: nat) returns (a: Answer)
      modifies `answers, `calls
      ensures Follows() && a == NextAnswer(old(World(mask)))
      ensures World(mask) == Answered(old(World(mask))).(calls := old(calls) + [call])
    {
      hide Sane;
      a := Ask();
      calls := calls + [call];
    }
  }
}
