/** The calls of the binder benchmark library: parsing what the driver returns,
    answering transactions, making calls and releasing replies. */
module BinderClient {
  import opened Words
  import opened BinderProtocol
  import opened Parcel
  import opened BinderCommands
  import opened BinderOwnership
  import opened BinderIo
  import ParcelTheorems

  /** A handler that works within the interface: a reply buffer of the right size,
      and strings made from C strings. */
  ghost predicate WorkingHandler(h: Handler) {
    forall log, t :: |h(log, t).scratch| == REPLY_BUFFER &&
                     forall i :: 0 <= i < |h(log, t).puts| ==> Callable(h(log, t).puts[i])
  }

  /** The reply structure was bound to the transaction record. */
  ghost predicate Bound(bio: BinderIo, t: Txn)
    reads bio
  {
    && bio.data == bio.data0 == t.data && bio.offs == bio.offs0 == t.offs
    && bio.dataAvail == t.dataSize && bio.offsAvail == t.offsSize / 4 && bio.limit == t.data + t.dataSize
    && bio.flags == Flags(true, false, false)
  }

  /** The buffer `binder_done` would free. */
  function HeldIn(bio: BinderIo): Option<int>
    reads bio
  {
    if bio.flags.shared then Some(bio.data0) else None
  }

  /** The return value after one more command. */
  function Settle(r: int, c: Cmd): int {
    if c.Reply? then 0 else if c.Failed? then -1 else r
  }

  /** One command of the stream, and what the three folds make of it. */
  lemma OneCommand(ws: seq<u32>, p: nat, beyond: u32, r: int, log: seq<Event>, handler: Option<Handler>)
    requires p < |ws|
    ensures var c, all := CmdAt(ws, p, beyond), Commands(ws, p, beyond);
            var rest := Commands(ws, NextAt(ws, p), beyond);
            if c == Bad then
              Fold(r, all) == -1 && FirstReply(all) == None && Effects(log, all, handler) == log + EventsOf(log, c, handler)
            else
              && Fold(r, all) == Fold(Settle(r, c), rest)
              && FirstReply(all) == (if c.Reply? then Some(c.t) else FirstReply(rest))
              && Effects(log, all, handler) == Effects(log + EventsOf(log, c, handler), rest, handler)
  {
    var c := CmdAt(ws, p, beyond);
    var rest := Commands(ws, NextAt(ws, p), beyond);
    assert ([c] + rest)[1..] == rest;
    assert [Bad][1..] == [];
  }

  /** The effects of one read, then of the reads after it if the loop goes on. */
  lemma ConsumedStep(ios: seq<Read>, log: seq<Event>, handler: Option<Handler>)
    requires ios != [] && ios[0].Chunk?
    ensures var cmds := Commands(ios[0].words, 0, ios[0].beyond);
            var after := Effects(log, cmds, handler);
            Effects(log, Consumed(ios), handler) ==
            if Fold(1, cmds) == 1 then Effects(after, Consumed(ios[1..]), handler) else after
  {
    var cmds := Commands(ios[0].words, 0, ios[0].beyond);
    assert cmds + [] == cmds;
    EffectsJoin(log, cmds, Consumed(ios[1..]), handler);
  }

  class BinderState {
    /** Everything written to the driver, and the death callbacks made. */
    var sent: seq<Event>

    constructor ()
      ensures sent == []
    {
      sent := [];
    }

    /** `binder_send_reply`: one write with the free and the reply. */
    method BinderSendReply(reply: BinderIo, bufferToFree: u32, status: int)
      requires reply.Writing() && reply.live
      modifies this`sent
      ensures sent == old(sent) + [FreeBuffer(bufferToFree),
                                   if status != 0 then StatusReply(status)
                                   else DataReply(reply.Written().data, reply.Written().offs)]
    {
      var free := FreeBuffer(bufferToFree);
      if status != 0 {
        sent := sent + [free, StatusReply(status)];
      } else {
        var dataSize := reply.data - reply.data0;
        var offsSize := reply.offs - reply.offs0;
        sent := sent + [free, DataReply(reply.mem[reply.data0..reply.data0 + dataSize],
                                        WordsAt(reply.mem[..], reply.offs0, offsSize / 4))];
      }
    }

    /** The reply on the stack, over what the stack held. */
    method FreshReply(scratch: seq<byte>) returns (reply: BinderIo)
      requires |scratch| == REPLY_BUFFER
      ensures fresh(reply) && fresh(reply.mem)
      ensures reply.Writing() && reply.live && reply.Written() == Init(scratch, REPLY_SLOTS)
    {
      var rdata := new byte[REPLY_BUFFER];
      CopyInto(rdata, 0, scratch);
      assert rdata[..] == scratch && rdata[0..REPLY_BUFFER] == scratch;
      reply := new BinderIo(rdata);
      reply.BioInit(0, REPLY_BUFFER, REPLY_SLOTS);
    }

    /** The BR_TRANSACTION case with a handler: a reply on the stack, the handler's
        puts, and the answer. */
    method Serve(t: Txn, handler: Handler)
      requires WorkingHandler(handler)
      modifies this`sent
      ensures sent == old(sent) + ReplyTo(t, handler(old(sent), t))
      ensures |sent| == |old(sent)| + 2 && sent[|sent| - 2] == FreeBuffer(t.data)
      ensures ReplyOf(sent[|sent| - 1], handler(old(sent), t))
    {
      var h := handler(sent, t);
      var reply := FreshReply(h.scratch);
      reply.PutAll(h.puts);
      assert reply.Written() == Run(Init(h.scratch, REPLY_SLOTS), h.puts);
      BinderSendReply(reply, t.data, h.status);
      ReplyIs(t, h);
    }

    /** One turn of the loop of `binder_parse`, on the command at `p`. */
    method ParseCommand(bio: BinderIo?, ws: seq<u32>, p: nat, beyond: u32, r: int, handler: Option<Handler>)
      returns (ok: bool, next: nat, res: int, rest: BinderIo?)
      requires p < |ws| && (handler.Some? ==> WorkingHandler(handler.value))
      modifies this`sent, bio
      ensures ok == !CmdAt(ws, p, beyond).Bad?
      ensures sent == old(sent) + EventsOf(old(sent), CmdAt(ws, p, beyond), handler)
      ensures ok ==> next == NextAt(ws, p) && res == Settle(r, CmdAt(ws, p, beyond))
      ensures var c := CmdAt(ws, p, beyond);
              if c.Reply? && bio != null then rest == null && Bound(bio, c.t)
              else rest == bio && (bio != null ==> unchanged(bio))
    {
      ok, next, res, rest := true, p + 1, r, bio;
      var cmd := ws[p];
      if IsIdle(cmd) {
      } else if IsRefcount(cmd) {
        next := next + 2;
      } else if IsTransfer(cmd) {
        if (|ws| - next) * 4 < TXN_SIZE {
          return false, next, -1, rest;
        }
        var t := TxnAt(ws, next);
        if cmd == BR_TRANSACTION {
          if handler.Some? {
            Serve(t, handler.value);
          }
        } else {
          if bio != null {
            bio.BioInitFromTxn(t);
            rest := null;
          }
          res := 0;
        }
        next := next + TXN_WORDS;
      } else if cmd == BR_DEAD_BINDER {
        sent := sent + [DeathNotice(if next < |ws| then ws[next] else beyond)];
        next := next + 1;
      } else if cmd == BR_FAILED_REPLY || cmd == BR_DEAD_REPLY {
        res := -1;
      } else {
        return false, next, -1, rest;
      }
    }

    /** `binder_parse` of the words `ws`; `beyond` is the word after them. */
    method BinderParse(bio: BinderIo?, ws: seq<u32>, beyond: u32, handler: Option<Handler>) returns (r: int)
      requires handler.Some? ==> WorkingHandler(handler.value)
      modifies this`sent, bio
      ensures r == Fold(1, Commands(ws, 0, beyond))
      ensures sent == Effects(old(sent), Commands(ws, 0, beyond), handler)
      ensures bio != null ==>
                match FirstReply(Commands(ws, 0, beyond))
                case Some(t) => Bound(bio, t)
                case None => unchanged(bio)
    {
      ghost var all := Commands(ws, 0, beyond);
      r := 1;
      var p, cur := 0, bio;
      while p < |ws|
        invariant Fold(r, Commands(ws, p, beyond)) == Fold(1, all)
        invariant Effects(sent, Commands(ws, p, beyond), handler) == Effects(old(sent), all, handler)
        invariant cur == null || cur == bio
        invariant cur != null ==> unchanged(bio) && FirstReply(all) == FirstReply(Commands(ws, p, beyond))
        invariant bio != null && cur == null ==> FirstReply(all).Some? && Bound(bio, FirstReply(all).value)
        decreases |ws| - p
      {
        OneCommand(ws, p, beyond, r, sent, handler);
        var ok;
        ok, p, r, cur := ParseCommand(cur, ws, p, beyond, r, handler);
        if !ok {
          return -1;
        }
      }
    }

    /** `binder_loop`, over the reads the driver supplies until it blocks for good. */
    method BinderLoop(ios: seq<Read>, handler: Handler)
      requires WorkingHandler(handler)
      modifies this`sent
      ensures sent == Effects(old(sent) + [EnterLooper], Consumed(ios), Some(handler))
    {
      sent := sent + [EnterLooper];
      ghost var start := sent;
      var i := 0;
      assert ios[0..] == ios;
      while i < |ios|
        invariant 0 <= i <= |ios|
        invariant Effects(sent, Consumed(ios[i..]), Some(handler)) == Effects(start, Consumed(ios), Some(handler))
      {
        ghost var rest, before := ios[i..], sent;
        assert rest[0] == ios[i] && rest[1..] == ios[i + 1..];
        match ios[i] {
          case IoctlFailed => return;
          case Chunk(words, beyond) =>
            var res := BinderParse(null, words, beyond, Some(handler));
            ConsumedStep(rest, before, Some(handler));
            if res != 1 {
              return;
            }
        }
        i := i + 1;
      }
    }

    /** The fields `binder_call` clears when it fails. */
    static ghost predicate Cleared(reply: BinderIo)
      reads reply
    {
      && reply.data == reply.data0 == reply.offs == reply.offs0 == 0
      && reply.dataAvail == reply.offsAvail == reply.limit == 0 && reply.flags == Flags(false, false, true)
    }

    method Fail(reply: BinderIo)
      modifies reply
      ensures Cleared(reply)
    {
      reply.data, reply.data0, reply.offs, reply.offs0 := 0, 0, 0, 0;
      reply.dataAvail, reply.offsAvail := 0, 0;
      reply.flags := Flags(false, false, true);
      reply.limit := 0;
    }

    /** `binder_call`, over the reads the driver supplies; no result while it is
        still blocked in the driver. */
    method BinderCall(msg: BinderIo, reply: BinderIo, target: u32, code: u32, ios: seq<Read>) returns (res: Option<int>)
      requires msg.Writing() && msg != reply
      modifies this`sent, reply
      ensures msg.flags.overflow ==> res == Some(-1) && Cleared(reply) && sent == old(sent)
      ensures !msg.flags.overflow ==>
                && sent == old(sent) + [CallSent(target, code, |msg.Written().data|, 4 * |msg.Written().offs|,
                                                 msg.data0, msg.offs0)] + Callbacks(Consumed(ios))
                && match CallOutcome(ios)
                   case Answered(t) => res == Some(0) && Bound(reply, t)
                   case CallFailed => res == Some(-1) && Cleared(reply)
                   case Waiting => res == None && unchanged(reply)
    {
      if msg.flags.overflow {
        Fail(reply);
        return Some(-1);
      }
      var dataSize, offsSize := msg.data - msg.data0, msg.offs - msg.offs0;
      sent := sent + [CallSent(target, code, dataSize, offsSize, msg.data0, msg.offs0)];
      res := ReadReply(reply, ios);
    }

    /** The read loop of `binder_call`. */
    method ReadReply(reply: BinderIo, ios: seq<Read>) returns (res: Option<int>)
      modifies this`sent, reply
      ensures sent == old(sent) + Callbacks(Consumed(ios))
      ensures match CallOutcome(ios)
              case Answered(t) => res == Some(0) && Bound(reply, t)
              case CallFailed => res == Some(-1) && Cleared(reply)
              case Waiting => res == None && unchanged(reply)
    {
      var i := 0;
      assert ios[0..] == ios;
      CallSends(sent, Consumed(ios));
      while i < |ios|
        invariant 0 <= i <= |ios| && unchanged(reply)
        invariant Effects(sent, Consumed(ios[i..]), None) == Effects(old(sent), Consumed(ios), None)
        invariant CallOutcome(ios[i..]) == CallOutcome(ios)
      {
        ghost var rest, before := ios[i..], sent;
        assert rest[0] == ios[i] && rest[1..] == ios[i + 1..];
        match ios[i] {
          case IoctlFailed =>
            Fail(reply);
            return Some(-1);
          case Chunk(words, beyond) =>
            var r := BinderParse(reply, words, beyond, None);
            ConsumedStep(rest, before, None);
            JudgeIsResult(Commands(words, 0, beyond));
            if r == 0 {
              return Some(0);
            }
            if r < 0 {
              Fail(reply);
              return Some(-1);
            }
        }
        i := i + 1;
      }
      return None;
    }

    /** `binder_done`. */
    method BinderDone(reply: BinderIo)
      requires reply.data0 < TWO32
      modifies this`sent, reply`flags
      ensures sent == old(sent) + match old(HeldIn(reply)) case Some(ptr) => [FreeBuffer(ptr)] case None => []
      ensures HeldIn(reply) == None && reply.flags.shared == false
      ensures old(HeldIn(reply)) == None ==> reply.flags == old(reply.flags)
    {
      if reply.flags.shared {
        sent := sent + [FreeBuffer(reply.data0)];
        reply.flags := Flags(false, false, false);
      }
    }

    /** What a caller does with one reply: the operations of a list, in order. A refused
        call is one with the overflowed message `full`. */
    method RunOps(msg: BinderIo, full: BinderIo, reply: BinderIo, target: u32, code: u32, ops: seq<Op>)
      requires msg.Writing() && !msg.flags.overflow && msg != reply
      requires full.Writing() && full.flags.overflow && full != reply
      requires reply.Reading() && RepliesInside(ops, reply.mem.Length)
      modifies this`sent, reply
      ensures var e := ApplyAll(Books(old(Holds(reply)), [], [], multiset{}), ops);
              HeldIn(reply) == e.held && Freed(sent) == Freed(old(sent)) + e.freed
    {
      ghost var start := Books(Holds(reply), [], [], multiset{});
      ghost var b := start;
      var i := 0;
      assert ops[0..] == ops && Freed(sent) + [] == Freed(sent);
      while i < |ops|
        invariant 0 <= i <= |ops|
        invariant msg.Writing() && !msg.flags.overflow && full.Writing() && full.flags.overflow && reply.Reading()
        invariant ApplyAll(b, ops[i..]) == ApplyAll(start, ops)
        invariant HeldIn(reply) == b.held && Freed(sent) == Freed(old(sent)) + b.freed
      {
        assert ops[i..][0] == ops[i] && ops[i..][1..] == ops[i + 1..];
        RunOp(msg, full, reply, target, code, ops[i], b);
        Associative(Freed(old(sent)), b.freed, Frees(b, ops[i]));
        AppliedFreed(b, ops[i]);
        b := Apply(b, ops[i]);
        i := i + 1;
      }
      assert ops[i..] == [];
    }

    /** One operation does to the structure and to the driver what the books say. */
    method RunOp(msg: BinderIo, full: BinderIo, reply: BinderIo, target: u32, code: u32, op: Op, ghost b: Books)
      requires msg.Writing() && !msg.flags.overflow && msg != reply
      requires full.Writing() && full.flags.overflow && full != reply
      requires reply.Reading() && ReplyInside(op, reply.mem.Length) && HeldIn(reply) == b.held
      modifies this`sent, reply
      ensures reply.Reading() && HeldIn(reply) == Apply(b, op).held
      ensures Freed(sent) == Freed(old(sent)) + Frees(b, op)
    {
      match op {
        case Call(chunks) =>
          ghost var before, w := sent, msg.Written();
          ghost var call := CallSent(target, code, |w.data|, 4 * |w.offs|, msg.data0, msg.offs0);
          var _ := BinderCall(msg, reply, target, code, chunks);
          FreedAppend(before, [call]);
          FreedAppend(before + [call], Callbacks(Consumed(chunks)));
          CallFrees(Consumed(chunks));
          CallTakes(b, chunks);
        case Refused =>
          var _ := BinderCall(full, reply, target, code, []);
        case Done =>
          ghost var before := sent;
          BinderDone(reply);
          FreedAppend(before, sent[|before|..]);
          assert sent == before + sent[|before|..];
        case Gets(asks) =>
          var _ := reply.GetAll(asks);
      }
    }
  }

  /** The buffer a structure holds, as the driver counts it. */
  function Holds(bio: BinderIo): (h: Option<u32>)
    requires bio.data0 < TWO32
    reads bio
    ensures HeldIn(bio) == h
  {
    if bio.flags.shared then Some(bio.data0) else None
  }

  /** The driver's promise for an answered call: its reply lies in the mapped memory. */
  predicate ReplyInside(op: Op, n: nat) {
    op.Call? && CallOutcome(op.chunks).Answered? ==>
      var t := CallOutcome(op.chunks).t; t.data + t.dataSize <= n && t.offs + t.offsSize <= n
  }

  predicate RepliesInside(ops: seq<Op>, n: nat) {
    forall i :: 0 <= i < |ops| ==> ReplyInside(ops[i], n)
  }

  function Frees(b: Books, op: Op): seq<u32> {
    if op.Done? && b.held.Some? then [b.held.value] else []
  }

  lemma AppliedFreed(b: Books, op: Op)
    ensures Apply(b, op).freed == b.freed + Frees(b, op)
  {
    if op.Call? {
      CallTakes(b, op.chunks);
    }
  }

  lemma {:induction false} FreedAppend(a: seq<Event>, b: seq<Event>)
    ensures Freed(a + b) == Freed(a) + Freed(b)
    decreases |a|
  {
    if a == [] {
      assert a + b == b;
    } else {
      assert (a + b)[1..] == a[1..] + b && (a + b)[0] == a[0];
      FreedAppend(a[1..], b);
      Associative(if a[0].FreeBuffer? then [a[0].ptr] else [], Freed(a[1..]), Freed(b));
    }
  }

  /** The reply of a failed call has the error flag, nothing to free, and answers nothing to
      whatever gets are made on it. */
  lemma FailedReplyReads(reply: BinderIo, asks: seq<Ask>)
    requires BinderState.Cleared(reply) && reply.mem.Length < TWO32
    ensures reply.Reading() && reply.flags.ioerror && !reply.flags.overflow && HeldIn(reply) == None
    ensures forall i :: 0 <= i < |asks| ==> ParcelTheorems.Nothing(Answers(reply.Received(), asks).1[i])
  {
    ParcelTheorems.FailureAbsorbs(reply.Received(), asks);
  }

  /** A call without a handler frees nothing. */
  lemma {:induction false} CallFrees(cmds: seq<Cmd>)
    ensures Freed(Callbacks(cmds)) == []
    decreases |cmds|
  {
    if cmds != [] {
      FreedAppend(if cmds[0].DeadBinder? then [DeathNotice(cmds[0].cookie)] else [], Callbacks(cmds[1..]));
      CallFrees(cmds[1..]);
    }
  }
}
