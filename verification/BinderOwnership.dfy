/** Who frees the buffers the driver hands over: replies on the calling side,
    transactions on the serving side. */
module BinderOwnership {
  import opened Words
  import opened BinderProtocol
  import opened Parcel
  import opened BinderCommands
  import ParcelTheorems

  // ---- Serving -----------------------------------------------------------

  predicate IsReply(e: Event) {
    e.StatusReply? || e.DataReply?
  }

  /** `delta` answers the commands: for each transaction, in stream order, one free
      of its own buffer and then one reply; for each death notice, one callback;
      and nothing else. */
  predicate Serves(delta: seq<Event>, cmds: seq<Cmd>)
    decreases |cmds|
  {
    if cmds == [] then delta == []
    else
      match cmds[0]
      case Transaction(t) =>
        |delta| >= 2 && delta[0] == FreeBuffer(t.data) && IsReply(delta[1]) && Serves(delta[2..], cmds[1..])
      case DeadBinder(cookie) => |delta| >= 1 && delta[0] == DeathNotice(cookie) && Serves(delta[1..], cmds[1..])
      case _ => Serves(delta, cmds[1..])
  }

  /** The buffers freed by a run of events. */
  function Freed(delta: seq<Event>): seq<u32> {
    if delta == [] then []
    else (if delta[0].FreeBuffer? then [delta[0].ptr] else []) + Freed(delta[1..])
  }

  function TransactionBuffers(cmds: seq<Cmd>): seq<u32> {
    if cmds == [] then []
    else (if cmds[0].Transaction? then [cmds[0].t.data] else []) + TransactionBuffers(cmds[1..])
  }

  lemma ServesCons(delta: seq<Event>, e: seq<Event>, c: Cmd, cmds: seq<Cmd>)
    requires Serves(delta, cmds)
    requires match c
             case Transaction(t) => |e| == 2 && e[0] == FreeBuffer(t.data) && IsReply(e[1])
             case DeadBinder(cookie) => e == [DeathNotice(cookie)]
             case _ => e == []
    ensures Serves(e + delta, [c] + cmds)
  {
    assert ([c] + cmds)[1..] == cmds;
    assert (e + delta)[|e|..] == delta;
    assert e == [] ==> e + delta == delta;
  }

  /** With a handler, a parse answers exactly the transactions it reads. */
  lemma {:induction false} HandlerServes(log: seq<Event>, cmds: seq<Cmd>, handler: Handler) returns (delta: seq<Event>)
    ensures Effects(log, cmds, Some(handler)) == log + delta && Serves(delta, cmds)
    decreases |cmds|
  {
    if cmds == [] {
      return [];
    }
    var e := EventsOf(log, cmds[0], Some(handler));
    var rest := HandlerServes(log + e, cmds[1..], handler);
    delta := e + rest;
    assert log + e + rest == log + delta;
    ServesCons(rest, e, cmds[0], cmds[1..]);
    assert [cmds[0]] + cmds[1..] == cmds;
  }

  /** So the buffers freed are the buffers received, once each and in order. */
  lemma {:induction false} ServedBuffersFreed(delta: seq<Event>, cmds: seq<Cmd>)
    requires Serves(delta, cmds)
    ensures Freed(delta) == TransactionBuffers(cmds)
    decreases |cmds|
  {
    if cmds != [] {
      match cmds[0] {
        case Transaction(t) =>
          assert delta[1..][1..] == delta[2..];
          ServedBuffersFreed(delta[2..], cmds[1..]);
        case DeadBinder(_) => ServedBuffersFreed(delta[1..], cmds[1..]);
        case _ => ServedBuffersFreed(delta, cmds[1..]);
      }
    }
  }

  // ---- What is answered --------------------------------------------------

  /** What fits into the reply a transaction is answered with: 240 bytes, four objects. */
  predicate ReplyFits(puts: seq<Put>) {
    ParcelTheorems.TotalSize(puts) <= 240 && |ParcelTheorems.Slots(puts, 0)| <= 4
  }

  /** The reply sent carries all of the puts. */
  predicate CarriesAll(e: Event, puts: seq<Put>) {
    e.DataReply? && ParcelTheorems.Carries(e.data, e.offs, puts)
  }

  /** The reply carries all the handler's puts exactly if they fit; otherwise it is sent
      all the same, cut short, because nothing looks at its overflow flag. */
  lemma ReplyCarries(t: Txn, h: Handled)
    requires |h.scratch| == REPLY_BUFFER && h.status == 0
    ensures CarriesAll(ReplyTo(t, h)[1], h.puts) <==> ReplyFits(h.puts)
  {
    var w := Init(h.scratch, REPLY_SLOTS);
    assert w.data == [] && w.offs == [] && !w.overflow && |w.free| == REPLY_BUFFER - 4 * REPLY_SLOTS && w.slots == REPLY_SLOTS;
    ParcelTheorems.CarriesExactly(w, h.puts);
  }

  /** A fifth object does not fit. */
  lemma FiveObjectsCut(t: Txn, scratch: seq<byte>)
    requires |scratch| == REPLY_BUFFER
    ensures var puts := [PutObj(1), PutObj(2), PutObj(3), PutObj(4), PutObj(5)];
            !CarriesAll(ReplyTo(t, Handled(0, puts, scratch))[1], puts)
  {
    var p1, p2, p3, p4, p5 := PutObj(1), PutObj(2), PutObj(3), PutObj(4), PutObj(5);
    var puts := [p1, p2, p3, p4, p5];
    ReplyCarries(t, Handled(0, puts, scratch));
    assert puts[1..] == [p2, p3, p4, p5] && [p2, p3, p4, p5][1..] == [p3, p4, p5];
    assert [p3, p4, p5][1..] == [p4, p5] && [p4, p5][1..] == [p5];
    ParcelTheorems.SlotsAt([p2, p3, p4, p5], ParcelTheorems.Size(p1));
    ParcelTheorems.SlotsAt([p3, p4, p5], ParcelTheorems.Size(p2));
    ParcelTheorems.SlotsAt([p4, p5], ParcelTheorems.Size(p3));
    ParcelTheorems.SlotsAt([p5], ParcelTheorems.Size(p4));
    assert |ParcelTheorems.Slots([p5], 0)| == 1;
    assert |ParcelTheorems.Slots([p4, p5], 0)| == 2;
    assert |ParcelTheorems.Slots([p3, p4, p5], 0)| == 3;
  }

  /** The answer a handler's result asks for: its status, if that is not 0, else the data
      it put, all of it if it fits. */
  predicate ReplyOf(e: Event, h: Handled) {
    if h.status != 0 then e == StatusReply(h.status)
    else e.DataReply? && (|h.scratch| == 256 ==> (CarriesAll(e, h.puts) <==> ReplyFits(h.puts)))
  }

  lemma ReplyIs(t: Txn, h: Handled)
    ensures ReplyTo(t, h)[0] == FreeBuffer(t.data) && ReplyOf(ReplyTo(t, h)[1], h)
  {
    if h.status == 0 && |h.scratch| == REPLY_BUFFER {
      ReplyCarries(t, h);
    }
  }

  /** `delta` answers the commands after `log` with what `handler` says to each transaction
      when its turn comes. */
  predicate ServedBy(log: seq<Event>, delta: seq<Event>, cmds: seq<Cmd>, handler: Handler)
    decreases |cmds|
  {
    if cmds == [] then delta == []
    else if cmds[0].Transaction? then
      && |delta| >= 2 && delta[0] == FreeBuffer(cmds[0].t.data) && ReplyOf(delta[1], handler(log, cmds[0].t))
      && ServedBy(log + delta[..2], delta[2..], cmds[1..], handler)
    else if cmds[0].DeadBinder? then
      && |delta| >= 1 && delta[0] == DeathNotice(cmds[0].cookie)
      && ServedBy(log + delta[..1], delta[1..], cmds[1..], handler)
    else ServedBy(log, delta, cmds[1..], handler)
  }

  lemma ServedCons(log: seq<Event>, e: seq<Event>, delta: seq<Event>, c: Cmd, cmds: seq<Cmd>, handler: Handler)
    requires ServedBy(log + e, delta, cmds, handler)
    requires if c.Transaction? then |e| == 2 && e[0] == FreeBuffer(c.t.data) && ReplyOf(e[1], handler(log, c.t))
             else if c.DeadBinder? then e == [DeathNotice(c.cookie)]
             else e == []
    ensures ServedBy(log, e + delta, [c] + cmds, handler)
  {
    assert ([c] + cmds)[1..] == cmds;
    assert (e + delta)[|e|..] == delta && (e + delta)[..|e|] == e;
    assert e == [] ==> e + delta == delta && log + e == log;
  }

  /** Each transaction of a parse is answered with its own handler's status or data. */
  lemma {:induction false} HandlerAnswers(log: seq<Event>, cmds: seq<Cmd>, handler: Handler) returns (delta: seq<Event>)
    ensures Effects(log, cmds, Some(handler)) == log + delta && ServedBy(log, delta, cmds, handler)
    decreases |cmds|
  {
    if cmds == [] {
      return [];
    }
    var e := EventsOf(log, cmds[0], Some(handler));
    if cmds[0].Transaction? {
      ReplyIs(cmds[0].t, handler(log, cmds[0].t));
    }
    var rest := HandlerAnswers(log + e, cmds[1..], handler);
    delta := e + rest;
    assert log + e + rest == log + delta;
    ServedCons(log, e, rest, cmds[0], cmds[1..], handler);
    assert [cmds[0]] + cmds[1..] == cmds;
  }

  /** The death callbacks of the commands, in order. */
  function Callbacks(cmds: seq<Cmd>): seq<Event> {
    if cmds == [] then []
    else (if cmds[0].DeadBinder? then [DeathNotice(cmds[0].cookie)] else []) + Callbacks(cmds[1..])
  }

  /** Without a handler nothing else comes of a parse; transactions are not answered. */
  lemma {:induction false} CallSends(log: seq<Event>, cmds: seq<Cmd>)
    ensures Effects(log, cmds, None) == log + Callbacks(cmds)
    decreases |cmds|
  {
    if cmds != [] {
      var e := EventsOf(log, cmds[0], None);
      CallSends(log + e, cmds[1..]);
      Associative(log, e, Callbacks(cmds[1..]));
    }
  }

  // ---- Calling -----------------------------------------------------------

  /** What a caller does with one reply `binder_io`: a call that is sent, with the reads
      that answer it; a call refused because its message overflowed; `binder_done`; and
      gets. */
  datatype Op =
    | Call(chunks: seq<Read>)
    | Refused
    | Done
    | Gets(asks: seq<Ask>)

  /** The buffer the reply structure holds, and the books: buffers received,
      freed, and lost track of. */
  datatype Books = Books(held: Option<u32>, received: seq<u32>, freed: seq<u32>, lost: multiset<u32>)

  function ReplyBuffers(cmds: seq<Cmd>): seq<u32> {
    if cmds == [] then []
    else (if cmds[0].Reply? then [cmds[0].t.data] else []) + ReplyBuffers(cmds[1..])
  }

  function Held(h: Option<u32>): multiset<u32> {
    if h.Some? then multiset{h.value} else multiset{}
  }

  /** One command of a call's read: the buffer of a transaction, for which there is no
      handler, and that of a reply after the first are received and forgotten; the first
      reply is bound, over whatever was held before. */
  function Receive(b: Books, bound: bool, c: Cmd): Books {
    match c
    case Transaction(t) => b.(received := b.received + [t.data], lost := b.lost + multiset{t.data})
    case Reply(t) =>
      if bound then b.(received := b.received + [t.data], lost := b.lost + multiset{t.data})
      else b.(held := Some(t.data), received := b.received + [t.data], lost := b.lost + Held(b.held))
    case _ => b
  }

  /** One read, from a command on. */
  function ReceiveAll(b: Books, bound: bool, cmds: seq<Cmd>): Books
    decreases |cmds|
  {
    if cmds == [] then b else ReceiveAll(Receive(b, bound, cmds[0]), bound || cmds[0].Reply?, cmds[1..])
  }

  /** The reply structure is cleared: what it held is forgotten. */
  function Clear(b: Books): Books {
    b.(held := None, lost := b.lost + Held(b.held))
  }

  /** The reads of a call, until one decides it. */
  function CallBooks(b: Books, chunks: seq<Read>): Books
    decreases |chunks|
  {
    if chunks == [] then b
    else
      match chunks[0]
      case IoctlFailed => Clear(b)
      case Chunk(words, beyond) =>
        var cmds := Commands(words, 0, beyond);
        var c := ReceiveAll(b, false, cmds);
        match Judge(cmds)
        case Waiting => CallBooks(c, chunks[1..])
        case Answered(_) => c
        case CallFailed => Clear(c)
  }

  /** One operation: a call, a call refused, `binder_done`, which frees what is held, or
      gets, which touch nothing. */
  function Apply(b: Books, op: Op): Books {
    match op
    case Gets(_) => b
    case Done => b.(held := None, freed := b.freed + if b.held.Some? then [b.held.value] else [])
    case Refused => Clear(b)
    case Call(chunks) => CallBooks(b, chunks)
  }

  function ApplyAll(b: Books, ops: seq<Op>): Books
    decreases |ops|
  {
    if ops == [] then b else ApplyAll(Apply(b, ops[0]), ops[1..])
  }

  /** Every buffer received is freed, held or lost. */
  predicate Balanced(b: Books) {
    multiset(b.received) == multiset(b.freed) + Held(b.held) + b.lost
  }

  // ---- Replies in the deciding read --------------------------------------

  /** Nothing after a reply undoes it: no other reply, no failure, nothing that cannot
      be parsed. */
  predicate ReplyLast(cmds: seq<Cmd>) {
    forall i, j :: 0 <= i < j < |cmds| && cmds[i].Reply? ==> !Terminal(cmds[j]) && !cmds[j].Bad?
  }

  predicate Quiet(cmds: seq<Cmd>) {
    forall i :: 0 <= i < |cmds| ==> !Terminal(cmds[i]) && !cmds[i].Bad?
  }

  lemma ReplyLastCons(cmds: seq<Cmd>)
    requires cmds != []
    ensures ReplyLast(cmds) <==> (if cmds[0].Reply? then Quiet(cmds[1..]) else ReplyLast(cmds[1..]))
  {
    var rest := cmds[1..];
    assert forall i :: 0 <= i < |rest| ==> rest[i] == cmds[i + 1];
    assert forall i :: 0 < i < |cmds| ==> cmds[i] == rest[i - 1];
    if cmds[0].Reply? {
      assert Quiet(rest) ==> ReplyLast(rest);
    }
  }

  /** The parse goes no further than a command it does not know. */
  predicate BadLast(cmds: seq<Cmd>) {
    forall i :: 0 <= i < |cmds| - 1 ==> !cmds[i].Bad?
  }

  lemma {:induction false} CommandsBadLast(ws: seq<u32>, p: nat, beyond: u32)
    ensures BadLast(Commands(ws, p, beyond))
    decreases if p < |ws| then |ws| - p else 0
  {
    if p < |ws| && CmdAt(ws, p, beyond) != Bad {
      CommandsBadLast(ws, NextAt(ws, p), beyond);
    }
  }

  lemma {:induction false} QuietFold(r: int, cmds: seq<Cmd>)
    requires Quiet(cmds)
    ensures Fold(r, cmds) == r && ReplyBuffers(cmds) == []
    decreases |cmds|
  {
    if cmds != [] {
      assert forall i :: 0 <= i < |cmds| - 1 ==> cmds[1..][i] == cmds[i + 1];
      QuietFold(r, cmds[1..]);
    }
  }

  /** Commands without a reply that are not quiet fail. */
  lemma {:induction false} NoReplyFails(r: int, cmds: seq<Cmd>)
    requires ReplyBuffers(cmds) == [] && BadLast(cmds)
    ensures Quiet(cmds) || Fold(r, cmds) == -1
    decreases |cmds|
  {
    if cmds != [] && !cmds[0].Bad? {
      assert forall i :: 0 <= i < |cmds| - 1 ==> cmds[1..][i] == cmds[i + 1];
      assert forall i :: 0 < i < |cmds| ==> cmds[i] == cmds[1..][i - 1];
      NoReplyFails(if cmds[0].Failed? then -1 else r, cmds[1..]);
      if cmds[0].Failed? && Quiet(cmds[1..]) {
        QuietFold(-1, cmds[1..]);
      }
    }
  }

  /** A read with a reply that is undone later, and no other, has more replies than the
      result tells. */
  lemma {:induction false} ReplyLastExactly(r: int, cmds: seq<Cmd>)
    requires (r == 1 || r == -1) && BadLast(cmds)
    ensures ReplyLast(cmds) <==> |ReplyBuffers(cmds)| == if Fold(r, cmds) == 0 then 1 else 0
    decreases |cmds|
  {
    if cmds != [] {
      var rest := cmds[1..];
      assert forall i :: 0 <= i < |rest| ==> rest[i] == cmds[i + 1];
      ReplyLastCons(cmds);
      if cmds[0].Bad? {
        assert rest == [];
      } else if cmds[0].Reply? {
        if Quiet(rest) {
          QuietFold(0, rest);
        } else if ReplyBuffers(rest) == [] {
          NoReplyFails(0, rest);
        }
      } else {
        ReplyLastExactly(if cmds[0].Failed? then -1 else r, rest);
      }
    }
  }

  /** The commands of the read that decides a call, if one does. */
  function Deciding(chunks: seq<Read>): Option<seq<Cmd>> {
    if chunks == [] || chunks[0].IoctlFailed? then None
    else
      var cmds := Commands(chunks[0].words, 0, chunks[0].beyond);
      if Fold(1, cmds) == 1 then Deciding(chunks[1..]) else Some(cmds)
  }

  lemma WaitingReplies(cmds: seq<Cmd>)
    requires Fold(1, cmds) == 1 && BadLast(cmds)
    ensures ReplyBuffers(cmds) == []
  {
    FoldOneHasNoTerminal(1, cmds);
    if Bad in cmds {
      BadFails(1, cmds);
    }
    assert Quiet(cmds) by {
      forall i | 0 <= i < |cmds|
        ensures !Terminal(cmds[i]) && !cmds[i].Bad?
      {
        assert cmds[i] in cmds;
      }
    }
    QuietFold(1, cmds);
  }

  // ---- Conservation ------------------------------------------------------

  lemma Snoc(xs: seq<u32>, x: u32)
    ensures multiset(xs + [x]) == multiset(xs) + multiset{x}
  {
  }

  lemma ReceiveBalances(b: Books, bound: bool, c: Cmd)
    requires Balanced(b)
    ensures Balanced(Receive(b, bound, c))
  {
    if c.Transaction? || c.Reply? {
      Snoc(b.received, c.t.data);
    }
  }

  lemma {:induction false} ReadBalances(b: Books, bound: bool, cmds: seq<Cmd>)
    requires Balanced(b)
    ensures Balanced(ReceiveAll(b, bound, cmds))
    decreases |cmds|
  {
    if cmds != [] {
      ReceiveBalances(b, bound, cmds[0]);
      ReadBalances(Receive(b, bound, cmds[0]), bound || cmds[0].Reply?, cmds[1..]);
    }
  }

  lemma {:induction false} CallBalances(b: Books, chunks: seq<Read>)
    requires Balanced(b)
    ensures Balanced(CallBooks(b, chunks))
    decreases |chunks|
  {
    if chunks != [] && chunks[0].Chunk? {
      var cmds := Commands(chunks[0].words, 0, chunks[0].beyond);
      ReadBalances(b, false, cmds);
      if Judge(cmds) == Waiting {
        CallBalances(ReceiveAll(b, false, cmds), chunks[1..]);
      }
    }
  }

  lemma ApplyBalances(b: Books, op: Op)
    requires Balanced(b)
    ensures Balanced(Apply(b, op))
  {
    if op.Call? {
      CallBalances(b, op.chunks);
    } else if op.Done? && b.held.Some? {
      Snoc(b.freed, b.held.value);
    }
  }

  /** Conservation over any run of calls, gets and dones. */
  lemma {:induction false} BuffersConserved(b: Books, ops: seq<Op>)
    requires Balanced(b)
    ensures Balanced(ApplyAll(b, ops))
    decreases |ops|
  {
    if ops != [] {
      ApplyBalances(b, ops[0]);
      BuffersConserved(Apply(b, ops[0]), ops[1..]);
    }
  }

  // ---- What is lost ------------------------------------------------------

  /** From `b` to `c`, `n` buffers were received and `k` lost; none was freed, and what
      is lost stays lost. */
  predicate Takes(b: Books, c: Books, n: nat, k: nat) {
    |c.received| == |b.received| + n && |c.lost| == |b.lost| + k && b.lost <= c.lost && c.freed == b.freed
  }

  lemma AddCount(m: multiset<u32>, n: multiset<u32>)
    ensures |m + n| == |m| + |n| && m <= m + n
  {
  }

  /** How many buffers a command hands over, and how many are lost to it. */
  function Moves(c: Cmd): nat {
    if c.Transaction? || c.Reply? then 1 else 0
  }

  function Costs(b: Books, bound: bool, c: Cmd): nat {
    if c.Reply? && !bound then |Held(b.held)| else Moves(c)
  }

  lemma CommandTakes(b: Books, bound: bool, c: Cmd)
    ensures Takes(b, Receive(b, bound, c), Moves(c), Costs(b, bound, c))
    ensures Receive(b, bound, c).held == if c.Reply? && !bound then Some(c.t.data) else b.held
  {
    if c.Reply? && !bound {
      AddCount(b.lost, Held(b.held));
    } else if Moves(c) == 1 {
      AddCount(b.lost, multiset{c.t.data});
    }
  }

  lemma TakesOn(b: Books, c: Books, d: Books, n: nat, k: nat, m: nat, l: nat)
    requires Takes(b, c, n, k) && Takes(c, d, m, l)
    ensures Takes(b, d, n + m, k + l)
  {
  }

  /** A read, buffer by buffer: every transaction is lost, and every reply but the first,
      which costs what was held before. */
  lemma {:induction false} ReadTakes(b: Books, bound: bool, cmds: seq<Cmd>)
    ensures var c := ReceiveAll(b, bound, cmds);
            var t, r := |TransactionBuffers(cmds)|, |ReplyBuffers(cmds)|;
            && Takes(b, c, t + r, t + if bound || r == 0 then r else r - 1 + |Held(b.held)|)
            && c.held == (if bound || r == 0 then b.held else Some(ReplyBuffers(cmds)[0]))
    decreases |cmds|
  {
    if cmds != [] {
      var c, rest, open := cmds[0], cmds[1..], bound || cmds[0].Reply?;
      var d := Receive(b, bound, c);
      CommandTakes(b, bound, c);
      ReadTakes(d, open, rest);
      var t, r := |TransactionBuffers(rest)|, |ReplyBuffers(rest)|;
      TakesOn(b, d, ReceiveAll(d, open, rest), Moves(c), Costs(b, bound, c), t + r,
              t + if open || r == 0 then r else r - 1 + |Held(d.held)|);
    }
  }

  /** No transaction comes in any read of the call. */
  predicate NoTransactions(chunks: seq<Read>) {
    TransactionBuffers(Consumed(chunks)) == []
  }

  lemma {:induction false} TransactionsJoin(a: seq<Cmd>, b: seq<Cmd>)
    ensures TransactionBuffers(a + b) == TransactionBuffers(a) + TransactionBuffers(b)
    decreases |a|
  {
    if a == [] {
      assert a + b == b;
    } else {
      assert (a + b)[1..] == a[1..] + b && (a + b)[0] == a[0];
      TransactionsJoin(a[1..], b);
      Associative(if a[0].Transaction? then [a[0].t.data] else [], TransactionBuffers(a[1..]), TransactionBuffers(b));
    }
  }

  /** What a call receives and loses, by its outcome and its deciding read. */
  lemma {:induction false} CallTakes(b: Books, chunks: seq<Read>)
    ensures var c := CallBooks(b, chunks);
            var t := |TransactionBuffers(Consumed(chunks))|;
            var d := Deciding(chunks);
            match CallOutcome(chunks)
            case Waiting => c.held == b.held && Takes(b, c, t, t)
            case CallFailed =>
              var r := if d.Some? then |ReplyBuffers(d.value)| else 0;
              c.held == None && Takes(b, c, t + r, t + r + |Held(b.held)|)
            case Answered(x) =>
              && d.Some? && c.held == Some(x.data) && ReplyBuffers(d.value) != [] && ReplyBuffers(d.value)[0] == x.data
              && var r := |ReplyBuffers(d.value)|; Takes(b, c, t + r, t + r - 1 + |Held(b.held)|)
    decreases |chunks|
  {
    if chunks == [] {
    } else if chunks[0].IoctlFailed? {
      AddCount(b.lost, Held(b.held));
    } else {
      var cmds := Commands(chunks[0].words, 0, chunks[0].beyond);
      var c := ReceiveAll(b, false, cmds);
      CommandsBadLast(chunks[0].words, 0, chunks[0].beyond);
      JudgeIsResult(cmds);
      ReadTakes(b, false, cmds);
      TransactionsJoin(cmds, if Fold(1, cmds) == 1 then Consumed(chunks[1..]) else []);
      if Fold(1, cmds) == 1 {
        WaitingReplies(cmds);
        CallTakes(c, chunks[1..]);
      } else if Fold(1, cmds) == 0 {
        FirstReplyBuffer(cmds);
      } else {
        AddCount(c.lost, Held(c.held));
      }
    }
  }

  lemma {:induction false} FirstReplyBuffer(cmds: seq<Cmd>)
    requires FirstReply(cmds).Some?
    ensures ReplyBuffers(cmds) != [] && ReplyBuffers(cmds)[0] == FirstReply(cmds).value.data
    decreases |cmds|
  {
    if !cmds[0].Reply? {
      FirstReplyBuffer(cmds[1..]);
    }
  }

  /** An operation that loses nothing: a call reads no transaction; if it returns, nothing
      was held when it was made, and no reply in the read that decides it is followed by
      another, by a failure, or by something that cannot be parsed. */
  predicate Clean(b: Books, op: Op) {
    match op
    case Call(chunks) =>
      && NoTransactions(chunks)
      && (CallOutcome(chunks) != Waiting ==> b.held == None && (Deciding(chunks).Some? ==> ReplyLast(Deciding(chunks).value)))
    case Refused => b.held == None
    case _ => true
  }

  predicate AllClean(b: Books, ops: seq<Op>)
    decreases |ops|
  {
    ops == [] || (Clean(b, ops[0]) && AllClean(Apply(b, ops[0]), ops[1..]))
  }

  lemma SameCount(m: multiset<u32>, n: multiset<u32>)
    requires m <= n
    ensures m == n <==> |m| == |n|
  {
    if |m| == |n| {
      assert n == m + (n - m);
      AddCount(m, n - m);
    }
  }

  /** The deciding read has as many replies as its result tells exactly if no reply in it
      is undone. */
  lemma {:induction false} DecidingCounts(chunks: seq<Read>)
    ensures match Deciding(chunks)
            case None => CallOutcome(chunks) == Waiting || CallOutcome(chunks) == CallFailed
            case Some(cmds) =>
              && CallOutcome(chunks) != Waiting
              && (ReplyLast(cmds) <==> |ReplyBuffers(cmds)| == if CallOutcome(chunks).Answered? then 1 else 0)
    decreases |chunks|
  {
    if chunks != [] && chunks[0].Chunk? {
      var cmds := Commands(chunks[0].words, 0, chunks[0].beyond);
      CommandsBadLast(chunks[0].words, 0, chunks[0].beyond);
      JudgeIsResult(cmds);
      if Fold(1, cmds) == 1 {
        DecidingCounts(chunks[1..]);
      } else {
        ReplyLastExactly(1, cmds);
      }
    }
  }

  lemma CleanLosesNothing(b: Books, op: Op)
    ensures Clean(b, op) <==> Apply(b, op).lost == b.lost
    ensures b.lost <= Apply(b, op).lost
  {
    if op.Refused? {
      AddCount(b.lost, Held(b.held));
    } else if op.Call? {
      CallTakes(b, op.chunks);
      DecidingCounts(op.chunks);
      SameCount(b.lost, CallBooks(b, op.chunks).lost);
    }
  }

  lemma {:induction false} LossGrows(b: Books, ops: seq<Op>)
    ensures b.lost <= ApplyAll(b, ops).lost
    decreases |ops|
  {
    if ops != [] {
      CleanLosesNothing(b, ops[0]);
      LossGrows(Apply(b, ops[0]), ops[1..]);
    }
  }

  /** A whole run frees every buffer it received, of replies and of transactions, except
      the one still held, if and only if every operation in it was clean. */
  lemma {:induction false} NoLeakExactly(b: Books, ops: seq<Op>)
    requires Balanced(b) && b.lost == multiset{}
    ensures AllClean(b, ops) <==> ApplyAll(b, ops).lost == multiset{}
    ensures AllClean(b, ops) ==>
              var e := ApplyAll(b, ops); multiset(e.received) == multiset(e.freed) + Held(e.held)
    decreases |ops|
  {
    BuffersConserved(b, ops);
    if ops != [] {
      var c := Apply(b, ops[0]);
      CleanLosesNothing(b, ops[0]);
      ApplyBalances(b, ops[0]);
      if Clean(b, ops[0]) {
        NoLeakExactly(c, ops[1..]);
      } else {
        LossGrows(c, ops[1..]);
        assert c.lost != multiset{};
      }
    }
  }

  function NoBooks(): Books {
    Books(None, [], [], multiset{})
  }

  /** A read of exactly these two commands, and the call it decides. */
  lemma TwoCommands(parts: seq<seq<u32>>, x: Cmd, y: Cmd) returns (chunks: seq<Read>)
    requires |parts| == 2 && Spells(parts[0], x) && Spells(parts[1], y) && Judge([x, y]) != Waiting
    ensures CallOutcome(chunks) == Judge([x, y])
    ensures var c := Receive(Receive(NoBooks(), false, x), x.Reply?, y);
            CallBooks(NoBooks(), chunks) == if Judge([x, y]).Answered? then c else Clear(c)
  {
    chunks := [Chunk(Flatten(parts), 0)];
    ParseUndoesEncoding(parts, [x, y], 0);
    var c := Receive(NoBooks(), false, x);
    assert [x, y][1..] == [y] && [y][1..] == [];
    assert ReceiveAll(c, x.Reply?, [y]) == Receive(c, x.Reply?, y);
  }

  lemma CallDone(chunks: seq<Read>)
    ensures ApplyAll(NoBooks(), [Call(chunks), Done]) == Apply(CallBooks(NoBooks(), chunks), Done)
  {
    assert [Call(chunks), Done][1..] == [Done] && [Done][1..] == [];
    assert ApplyAll(CallBooks(NoBooks(), chunks), [Done]) == ApplyAll(Apply(CallBooks(NoBooks(), chunks), Done), []);
  }

  /** One read with a reply and then a failure: the call fails, and nobody will ever free
      the reply's buffer. */
  lemma ReplyThenFailure(t: Txn) returns (chunks: seq<Read>)
    ensures CallOutcome(chunks) == CallFailed
    ensures ApplyAll(NoBooks(), [Call(chunks), Done]) == Books(None, [t.data], [], multiset{t.data})
  {
    assert [Reply(t), Failed][1..] == [Failed] && [Failed][1..] == [];
    assert Fold(1, [Reply(t), Failed]) == Fold(0, [Failed]) == Fold(-1, []) == -1;
    chunks := TwoCommands([[BR_REPLY] + TxnWords(t), [BR_FAILED_REPLY]], Reply(t), Failed);
    CallDone(chunks);
  }

  /** One read with a transaction and then the reply: the call is answered and done, and
      nobody will ever free the transaction's buffer. */
  lemma TransactionThenReply(t: Txn, u: Txn) returns (chunks: seq<Read>)
    ensures CallOutcome(chunks) == Answered(u)
    ensures ApplyAll(NoBooks(), [Call(chunks), Done]) == Books(None, [t.data, u.data], [u.data], multiset{t.data})
  {
    var cmds := [Transaction(t), Reply(u)];
    assert cmds[1..] == [Reply(u)] && [Reply(u)][1..] == [];
    assert Fold(1, cmds) == Fold(1, [Reply(u)]) == Fold(0, []) == 0;
    assert FirstReply(cmds) == FirstReply([Reply(u)]) == Some(u);
    chunks := TwoCommands([[BR_TRANSACTION] + TxnWords(t), [BR_REPLY] + TxnWords(u)], Transaction(t), Reply(u));
    CallDone(chunks);
  }

  // ---- A disciplined driver ----------------------------------------------

  /** No read a call makes has a transaction, or a reply that is undone. */
  predicate Disciplined(chunks: seq<Read>) {
    NoTransactions(chunks) && (Deciding(chunks).Some? ==> ReplyLast(Deciding(chunks).value))
  }

  /** Every call that is answered is followed by `binder_done` before the next call; the
      driver keeps its discipline. */
  predicate Paired(ops: seq<Op>, open: bool)
    decreases |ops|
  {
    if ops == [] then true
    else
      match ops[0]
      case Call(chunks) => !open && Disciplined(chunks) && Paired(ops[1..], CallOutcome(chunks).Answered?)
      case Refused => !open && Paired(ops[1..], false)
      case Done => Paired(ops[1..], false)
      case Gets(_) => Paired(ops[1..], open)
  }

  function HeldList(h: Option<u32>): seq<u32> {
    if h.Some? then [h.value] else []
  }

  /** What a disciplined call with nothing held receives: the reply's buffer, if it is
      answered, which it holds. */
  function Answer(chunks: seq<Read>): seq<u32> {
    if CallOutcome(chunks).Answered? then [CallOutcome(chunks).t.data] else []
  }

  /** A read without transactions receives just its replies, in order. */
  lemma {:induction false} ReadReceives(b: Books, bound: bool, cmds: seq<Cmd>)
    requires TransactionBuffers(cmds) == []
    ensures ReceiveAll(b, bound, cmds).received == b.received + ReplyBuffers(cmds)
    decreases |cmds|
  {
    if cmds != [] {
      ReadReceives(Receive(b, bound, cmds[0]), bound || cmds[0].Reply?, cmds[1..]);
    }
  }

  lemma NoneJoin(a: seq<Cmd>, b: seq<Cmd>)
    requires TransactionBuffers(a + b) == []
    ensures TransactionBuffers(a) == [] && TransactionBuffers(b) == []
  {
    TransactionsJoin(a, b);
  }

  /** One read of a call: it goes on to the next, or the call is decided. */
  lemma CallStep(b: Books, chunks: seq<Read>, cmds: seq<Cmd>)
    requires chunks != [] && chunks[0].Chunk? && cmds == Commands(chunks[0].words, 0, chunks[0].beyond)
    ensures var c := ReceiveAll(b, false, cmds);
            if Fold(1, cmds) == 1 then
              && Consumed(chunks) == cmds + Consumed(chunks[1..]) && Deciding(chunks) == Deciding(chunks[1..])
              && CallBooks(b, chunks) == CallBooks(c, chunks[1..]) && ReplyBuffers(cmds) == []
            else
              && Consumed(chunks) == cmds && Deciding(chunks) == Some(cmds)
              && CallBooks(b, chunks).received == c.received
  {
    JudgeIsResult(cmds);
    assert cmds + [] == cmds;
    if Fold(1, cmds) == 1 {
      CommandsBadLast(chunks[0].words, 0, chunks[0].beyond);
      WaitingReplies(cmds);
    }
  }

  lemma ReceivesNone(b: Books, cmds: seq<Cmd>) returns (c: Books)
    requires TransactionBuffers(cmds) == [] && ReplyBuffers(cmds) == []
    ensures c == ReceiveAll(b, false, cmds) && c.received == b.received
  {
    c := ReceiveAll(b, false, cmds);
    ReadReceives(b, false, cmds);
    assert b.received + [] == b.received;
  }

  lemma {:induction false} CallReceives(b: Books, chunks: seq<Read>)
    requires NoTransactions(chunks)
    ensures CallBooks(b, chunks).received
            == b.received + if Deciding(chunks).Some? then ReplyBuffers(Deciding(chunks).value) else []
    decreases |chunks|
  {
    if chunks != [] && chunks[0].Chunk? {
      var cmds, rest := Commands(chunks[0].words, 0, chunks[0].beyond), chunks[1..];
      CallStep(b, chunks, cmds);
      if Fold(1, cmds) == 1 {
        NoneJoin(cmds, Consumed(rest));
        var c := ReceivesNone(b, cmds);
        CallReceives(c, rest);
      } else {
        ReadReceives(b, false, cmds);
      }
    }
  }

  lemma DisciplinedCall(b: Books, chunks: seq<Read>)
    requires b.held == None && Disciplined(chunks)
    ensures var c := CallBooks(b, chunks);
            && c.received == b.received + Answer(chunks) && c.freed == b.freed && c.lost == b.lost
            && HeldList(c.held) == Answer(chunks)
  {
    CallTakes(b, chunks);
    DecidingCounts(chunks);
    CallReceives(b, chunks);
    CleanLosesNothing(b, Call(chunks));
    var d := Deciding(chunks);
    if d.Some? && CallOutcome(chunks).Answered? {
      assert ReplyBuffers(d.value) == [ReplyBuffers(d.value)[0]];
    }
  }

  lemma PairedStep(b: Books, op: Op, open: bool)
    requires b.received == b.freed + HeldList(b.held) && (!open ==> b.held == None)
    requires op.Call? ==> !open && Disciplined(op.chunks)
    requires op.Refused? ==> !open
    ensures var c := Apply(b, op);
            && c.received == c.freed + HeldList(c.held) && c.lost == b.lost
            && (op.Done? || op.Refused? || (op.Call? && !CallOutcome(op.chunks).Answered?) ==> c.held == None)
  {
    if op.Call? {
      DisciplinedCall(b, op.chunks);
    }
  }

  /** Any run of paired calls frees the buffers it received one by one, in the order
      it received them, except the one still held, and loses none. */
  lemma {:induction false} PairedFreesAll(b: Books, ops: seq<Op>, open: bool)
    requires Paired(ops, open)
    requires b.received == b.freed + HeldList(b.held) && (!open ==> b.held == None)
    ensures var e := ApplyAll(b, ops); e.received == e.freed + HeldList(e.held) && e.lost == b.lost
    decreases |ops|
  {
    if ops != [] {
      PairedStep(b, ops[0], open);
      var next := match ops[0]
        case Call(chunks) => CallOutcome(chunks).Answered?
        case Refused => false
        case Done => false
        case Gets(_) => open;
      PairedFreesAll(Apply(b, ops[0]), ops[1..], next);
    }
  }

  /** A disciplined call and its `binder_done`, whatever gets come between and
      however often `binder_done` is repeated: exactly the buffer received is
      freed, once; after a failed call nothing is. */
  lemma CallThenDone(b: Books, chunks: seq<Read>, asks: seq<Ask>)
    requires b.held == None && Disciplined(chunks)
    ensures var e := ApplyAll(b, [Call(chunks), Gets(asks), Done, Done]);
            && e.received == b.received + Answer(chunks)
            && e.freed == b.freed + Answer(chunks)
            && e.held == None && e.lost == b.lost
  {
    DisciplinedCall(b, chunks);
    DoneTwice(Apply(b, Call(chunks)));
    FourOps(b, Call(chunks), Gets(asks), Done, Done);
  }

  // ---- What serving loses ------------------------------------------------

  /** The buffers of all transactions and replies, in stream order. */
  function AllBuffers(cmds: seq<Cmd>): seq<u32> {
    if cmds == [] then []
    else (if cmds[0].Transaction? || cmds[0].Reply? then [cmds[0].t.data] else []) + AllBuffers(cmds[1..])
  }

  lemma {:induction false} BuffersSplit(cmds: seq<Cmd>)
    ensures multiset(AllBuffers(cmds)) == multiset(TransactionBuffers(cmds)) + multiset(ReplyBuffers(cmds))
    decreases |cmds|
  {
    if cmds != [] {
      BuffersSplit(cmds[1..]);
    }
  }

  /** A server frees every buffer it receives exactly if it is sent no reply; those of
      replies are never freed. */
  lemma ServingLosesExactly(delta: seq<Event>, cmds: seq<Cmd>)
    requires Serves(delta, cmds)
    ensures multiset(AllBuffers(cmds)) == multiset(Freed(delta)) + multiset(ReplyBuffers(cmds))
    ensures multiset(AllBuffers(cmds)) == multiset(Freed(delta)) <==> ReplyBuffers(cmds) == []
  {
    ServedBuffersFreed(delta, cmds);
    BuffersSplit(cmds);
    if multiset(AllBuffers(cmds)) == multiset(Freed(delta)) {
      AddCount(multiset(Freed(delta)), multiset(ReplyBuffers(cmds)));
    }
  }

  lemma DoneTwice(b: Books)
    ensures Apply(Apply(b, Done), Done) == Apply(b, Done)
    ensures Apply(b, Done).freed == b.freed + if b.held.Some? then [b.held.value] else []
  {
  }

  lemma ApplyAllCons(b: Books, op: Op, rest: seq<Op>)
    ensures ApplyAll(b, [op] + rest) == ApplyAll(Apply(b, op), rest)
  {
    assert ([op] + rest)[1..] == rest;
  }

  lemma FourOps(b: Books, o1: Op, o2: Op, o3: Op, o4: Op)
    ensures ApplyAll(b, [o1, o2, o3, o4]) == Apply(Apply(Apply(Apply(b, o1), o2), o3), o4)
  {
    var r2, r3, r4 := [o2, o3, o4], [o3, o4], [o4];
    assert [o1, o2, o3, o4] == [o1] + r2 && r2 == [o2] + r3 && r3 == [o3] + r4 && r4 == [o4] + [];
    var c := Apply(b, o1);
    ApplyAllCons(b, o1, r2);
    ApplyAllCons(c, o2, r3);
    ApplyAllCons(Apply(c, o2), o3, r4);
    ApplyAllCons(Apply(Apply(c, o2), o3), o4, []);
  }
}
