/** The command stream `binder_parse` interprets, on values: what a stream of
    words says, what the parse returns for it, and what it writes back. */
module BinderCommands {
  import opened Words
  import opened BinderProtocol
  import opened Parcel

  const TXN_WORDS := 10

  datatype Cmd =
    | Skip
    | Transaction(t: Txn)
    | Reply(t: Txn)
    | DeadBinder(cookie: u32)
    | Failed
    | Bad

  function TxnAt(ws: seq<u32>, p: nat): Txn
    requires p + TXN_WORDS <= |ws|
  {
    Txn(ws[p], ws[p + 1], ws[p + 2], ws[p + 3], ws[p + 4], ws[p + 5], ws[p + 6], ws[p + 7], ws[p + 8], ws[p + 9])
  }

  predicate IsIdle(cmd: u32) {
    cmd == BR_NOOP || cmd == BR_TRANSACTION_COMPLETE
  }

  /** The command at word `p`. A death notice at the very end reads its cookie
      from the word after the stream, `beyond`. */
  function CmdAt(ws: seq<u32>, p: nat, beyond: u32): Cmd
    requires p < |ws|
  {
    var cmd := ws[p];
    if IsIdle(cmd) || IsRefcount(cmd) then Skip
    else if IsTransfer(cmd) then
      if |ws| - (p + 1) < TXN_WORDS then Bad
      else if cmd == BR_REPLY then Reply(TxnAt(ws, p + 1))
      else Transaction(TxnAt(ws, p + 1))
    else if cmd == BR_DEAD_BINDER then DeadBinder(if p + 1 < |ws| then ws[p + 1] else beyond)
    else if cmd == BR_FAILED_REPLY || cmd == BR_DEAD_REPLY then Failed
    else Bad
  }

  /** Where the next command starts; refcount operands are not bounds-checked. */
  function NextAt(ws: seq<u32>, p: nat): (n: nat)
    requires p < |ws|
    ensures p < n
  {
    var cmd := ws[p];
    if IsRefcount(cmd) then p + 3
    else if IsTransfer(cmd) then p + 1 + TXN_WORDS
    else if cmd == BR_DEAD_BINDER then p + 2
    else p + 1
  }

  /** The commands from word `p` on, up to the first one that cannot be parsed. */
  function Commands(ws: seq<u32>, p: nat, beyond: u32): seq<Cmd>
    decreases if p < |ws| then |ws| - p else 0
  {
    if p >= |ws| then []
    else if CmdAt(ws, p, beyond) == Bad then [Bad]
    else [CmdAt(ws, p, beyond)] + Commands(ws, NextAt(ws, p), beyond)
  }

  /** The return value as the loop builds it, starting from `r`. */
  function Fold(r: int, cmds: seq<Cmd>): int
    decreases |cmds|
  {
    if cmds == [] then r
    else
      match cmds[0]
      case Bad => -1
      case Reply(_) => Fold(0, cmds[1..])
      case Failed => Fold(-1, cmds[1..])
      case _ => Fold(r, cmds[1..])
  }

  /** The transaction record the caller's `bio` is bound to. */
  function FirstReply(cmds: seq<Cmd>): Option<Txn> {
    if cmds == [] then None
    else if cmds[0].Reply? then Some(cmds[0].t)
    else FirstReply(cmds[1..])
  }

  // ---- What a handler sends back -----------------------------------------

  /** Commands written to the driver, and death callbacks made. */
  datatype Event =
    | EnterLooper
    | CallSent(target: u32, code: u32, dataSize: nat, offsSize: nat, dataAt: nat, offsAt: nat)
    | FreeBuffer(ptr: u32)
    | StatusReply(status: int)
    | DataReply(data: seq<byte>, offs: seq<nat>)
    | DeathNotice(cookie: u32)

  /** What a handler does with one transaction: the status it returns, the puts it
      makes on the reply, and what the reply buffer held before. */
  datatype Handled = Handled(status: int, puts: seq<Put>, scratch: seq<byte>)

  const REPLY_BUFFER := 256
  const REPLY_SLOTS: u32 := 4

  /** A handler may answer differently every time: it sees the events so far. */
  type Handler = (seq<Event>, Txn) -> Handled

  /** The free of the transaction's buffer and the reply, as `binder_send_reply`
      writes them; the overflow flag of the reply is not looked at. */
  function ReplyTo(t: Txn, h: Handled): (e: seq<Event>)
    ensures |e| == 2
  {
    [FreeBuffer(t.data),
     if h.status != 0 then StatusReply(h.status)
     else
       var w := Run(Init(h.scratch, REPLY_SLOTS), h.puts);
       DataReply(w.data, w.offs)]
  }

  function EventsOf(log: seq<Event>, c: Cmd, handler: Option<Handler>): seq<Event> {
    match c
    case Transaction(t) => if handler.Some? then ReplyTo(t, handler.value(log, t)) else []
    case DeadBinder(cookie) => [DeathNotice(cookie)]
    case _ => []
  }

  /** The log after the commands, starting from `log`. */
  function Effects(log: seq<Event>, cmds: seq<Cmd>, handler: Option<Handler>): seq<Event>
    decreases |cmds|
  {
    if cmds == [] then log
    else Effects(log + EventsOf(log, cmds[0], handler), cmds[1..], handler)
  }

  // ---- The result --------------------------------------------------------

  predicate Terminal(c: Cmd) {
    c.Reply? || c.Failed?
  }

  function LastTerminal(cmds: seq<Cmd>): Option<Cmd> {
    if cmds == [] then None
    else if Terminal(cmds[|cmds| - 1]) then Some(cmds[|cmds| - 1])
    else LastTerminal(cmds[..|cmds| - 1])
  }

  /** What a parse should return: failure if some command cannot be parsed, else
      whatever the last reply or failure says, else "keep reading". */
  function Verdict(cmds: seq<Cmd>): int {
    if Bad in cmds then -1
    else
      match LastTerminal(cmds)
      case None => 1
      case Some(c) => if c.Reply? then 0 else -1
  }

  lemma {:induction false} FoldSnoc(r: int, cmds: seq<Cmd>, c: Cmd)
    requires Bad !in cmds
    ensures Fold(r, cmds + [c]) == if c.Bad? || c.Failed? then -1 else if c.Reply? then 0 else Fold(r, cmds)
    decreases |cmds|
  {
    if cmds == [] {
      assert [c][1..] == [];
    } else {
      assert (cmds + [c])[1..] == cmds[1..] + [c];
      FoldSnoc(if cmds[0].Reply? then 0 else if cmds[0].Failed? then -1 else r, cmds[1..], c);
    }
  }

  lemma {:induction false} BadFails(r: int, cmds: seq<Cmd>)
    requires Bad in cmds
    ensures Fold(r, cmds) == -1
    decreases |cmds|
  {
    if cmds[0] != Bad {
      BadFails(if cmds[0].Reply? then 0 else if cmds[0].Failed? then -1 else r, cmds[1..]);
    }
  }

  /** The last terminal command decides, and an unparsable one fails at once. */
  lemma {:induction false} FoldIsVerdict(cmds: seq<Cmd>)
    ensures Fold(1, cmds) == Verdict(cmds)
    decreases |cmds|
  {
    if Bad in cmds {
      BadFails(1, cmds);
    } else if cmds != [] {
      var n := |cmds| - 1;
      FoldIsVerdict(cmds[..n]);
      FoldSnoc(1, cmds[..n], cmds[n]);
      assert cmds[..n] + [cmds[n]] == cmds;
      assert cmds[n] in cmds;
    }
  }

  /** A verdict of 0 means a reply was bound. */
  lemma {:induction false} ZeroHasReply(cmds: seq<Cmd>)
    requires Verdict(cmds) == 0
    ensures FirstReply(cmds).Some?
  {
    LastReplyIn(cmds);
    var i :| 0 <= i < |cmds| && cmds[i].Reply?;
    ReplyFound(cmds, i);
  }

  lemma {:induction false} LastReplyIn(cmds: seq<Cmd>)
    requires LastTerminal(cmds).Some?
    ensures LastTerminal(cmds).value in cmds && Terminal(LastTerminal(cmds).value)
    decreases |cmds|
  {
    if !Terminal(cmds[|cmds| - 1]) {
      LastReplyIn(cmds[..|cmds| - 1]);
    }
  }

  lemma {:induction false} ReplyFound(cmds: seq<Cmd>, i: nat)
    requires i < |cmds| && cmds[i].Reply?
    ensures FirstReply(cmds).Some?
    decreases |cmds|
  {
    if !cmds[0].Reply? {
      ReplyFound(cmds[1..], i - 1);
    }
  }

  // ---- Chunks ------------------------------------------------------------

  /** The stream from `p` on is whole commands, ending exactly at its end. */
  predicate Whole(ws: seq<u32>, p: nat)
    decreases if p < |ws| then |ws| - p else 0
  {
    p == |ws| || (p < |ws| && CmdAt(ws, p, 0) != Bad && Whole(ws, NextAt(ws, p)))
  }

  lemma {:induction false} CommandsShift(a: seq<u32>, b: seq<u32>, p: nat, beyond: u32)
    ensures Commands(a + b, |a| + p, beyond) == Commands(b, p, beyond)
    decreases if p < |b| then |b| - p else 0
  {
    if p < |b| {
      var s := a + b;
      assert s[|a| + p] == b[p];
      assert p + 1 < |b| ==> s[|a| + p + 1] == b[p + 1];
      if |b| - (p + 1) >= TXN_WORDS {
        SliceBehind(a, b, p + 1, TXN_WORDS);
        TxnMoves(s, |a| + p + 1, b, p + 1);
      }
      CommandsShift(a, b, NextAt(b, p), beyond);
    }
  }

  lemma SliceBehind(a: seq<u32>, b: seq<u32>, i: nat, n: nat)
    requires i + n <= |b|
    ensures (a + b)[|a| + i..|a| + i + n] == b[i..i + n]
  {
  }

  lemma TxnMoves(s: seq<u32>, i: nat, t: seq<u32>, j: nat)
    requires i + TXN_WORDS <= |s| && j + TXN_WORDS <= |t| && s[i..i + TXN_WORDS] == t[j..j + TXN_WORDS]
    ensures TxnAt(s, i) == TxnAt(t, j)
  {
    var x, y := s[i..i + TXN_WORDS], t[j..j + TXN_WORDS];
    assert forall k :: 0 <= k < TXN_WORDS ==> s[i + k] == x[k] && t[j + k] == y[k];
    assert s[i + 0] == t[j + 0] && s[i + 1] == t[j + 1] && s[i + 2] == t[j + 2] && s[i + 3] == t[j + 3];
  }

  lemma CmdInPrefix(a: seq<u32>, b: seq<u32>, p: nat, x: u32, beyond: u32)
    requires p < |a| && NextAt(a, p) <= |a|
    ensures CmdAt(a + b, p, beyond) == CmdAt(a, p, x) && NextAt(a + b, p) == NextAt(a, p)
  {
    var s := a + b;
    assert s[p] == a[p];
    assert p + 1 < |a| ==> s[p + 1] == a[p + 1];
    if |a| - (p + 1) >= TXN_WORDS {
      assert s[p + 1..p + 1 + TXN_WORDS] == a[p + 1..p + 1 + TXN_WORDS];
      TxnMoves(s, p + 1, a, p + 1);
    }
  }

  lemma WholeBound(ws: seq<u32>, p: nat)
    requires Whole(ws, p)
    ensures p <= |ws| && (p < |ws| ==> NextAt(ws, p) <= |ws| && Whole(ws, NextAt(ws, p)))
  {
  }

  /** Whole commands followed by more: the command lists are joined. */
  lemma {:induction false} CommandsJoin(a: seq<u32>, b: seq<u32>, p: nat, x: u32, beyond: u32)
    requires Whole(a, p)
    ensures Commands(a + b, p, beyond) == Commands(a, p, x) + Commands(b, 0, beyond)
    ensures Bad !in Commands(a, p, x)
    decreases if p < |a| then |a| - p else 0
  {
    WholeBound(a, p);
    if p == |a| {
      CommandsShift(a, b, 0, beyond);
    } else {
      CmdInPrefix(a, b, p, x, beyond);
      CmdInPrefix(a, [], p, x, 0);
      assert a + [] == a;
      CommandsJoin(a, b, NextAt(a, p), x, beyond);
    }
  }

  // ---- Commands against their encoding -----------------------------------

  /** `struct binder_txn`, field by field. */
  function TxnWords(t: Txn): (ws: seq<u32>)
    ensures |ws| == TXN_WORDS
  {
    [t.target, t.cookie, t.code, t.flags, t.senderPid, t.senderEuid, t.dataSize, t.offsSize, t.data, t.offs]
  }

  /** The words the driver sends for a command. */
  predicate Spells(ws: seq<u32>, c: Cmd) {
    match c
    case Skip =>
      || ws == [BR_NOOP] || ws == [BR_TRANSACTION_COMPLETE]
      || (|ws| == 3 && (ws[0] == BR_INCREFS || ws[0] == BR_ACQUIRE || ws[0] == BR_RELEASE || ws[0] == BR_DECREFS))
    case Transaction(t) => ws == [BR_TRANSACTION] + TxnWords(t)
    case Reply(t) => ws == [BR_REPLY] + TxnWords(t)
    case DeadBinder(cookie) => ws == [BR_DEAD_BINDER, cookie]
    case Failed => ws == [BR_FAILED_REPLY] || ws == [BR_DEAD_REPLY]
    case Bad => false
  }

  lemma TxnRead(cmd: u32, t: Txn)
    ensures TxnAt([cmd] + TxnWords(t), 1) == t
  {
  }

  /** A command alone is read as itself, wholly. */
  lemma OneSpelled(ws: seq<u32>, c: Cmd, beyond: u32)
    requires Spells(ws, c)
    ensures Whole(ws, 0) && Commands(ws, 0, beyond) == [c]
  {
    if c.Transaction? || c.Reply? {
      TxnRead(ws[0], c.t);
    }
    assert NextAt(ws, 0) == |ws|;
    assert CmdAt(ws, 0, beyond) == c && CmdAt(ws, 0, 0) == c;
  }

  /** Parsing undoes the driver's encoding: from any commands written one after the
      other exactly those are read, fields and all. */
  lemma {:induction false} ParseUndoesEncoding(parts: seq<seq<u32>>, cmds: seq<Cmd>, beyond: u32)
    requires |parts| == |cmds| && forall i :: 0 <= i < |cmds| ==> Spells(parts[i], cmds[i])
    ensures Commands(Flatten(parts), 0, beyond) == cmds
    decreases |cmds|
  {
    if cmds != [] {
      OneSpelled(parts[0], cmds[0], beyond);
      CommandsJoin(parts[0], Flatten(parts[1..]), 0, beyond, beyond);
      ParseUndoesEncoding(parts[1..], cmds[1..], beyond);
      assert cmds == [cmds[0]] + cmds[1..];
    }
  }

  /** What is read of a last command that is cut short: refcount operands and the cookie of
      a death notice are not looked for, a transaction record is. */
  predicate Cut(ws: seq<u32>, c: Cmd, beyond: u32) {
    match c
    case Skip =>
      1 <= |ws| <= 2 && (ws[0] == BR_INCREFS || ws[0] == BR_ACQUIRE || ws[0] == BR_RELEASE || ws[0] == BR_DECREFS)
    case DeadBinder(cookie) => ws == [BR_DEAD_BINDER] && cookie == beyond
    case Bad => 1 <= |ws| <= 10 && (ws[0] == BR_TRANSACTION || ws[0] == BR_REPLY)
    case _ => false
  }

  /** Words that start no command. */
  predicate Foreign(ws: seq<u32>) {
    && ws != []
    && ws[0] !in {BR_NOOP, BR_TRANSACTION_COMPLETE, BR_INCREFS, BR_ACQUIRE, BR_RELEASE, BR_DECREFS}
    && ws[0] !in {BR_TRANSACTION, BR_REPLY, BR_DEAD_BINDER, BR_FAILED_REPLY, BR_DEAD_REPLY}
  }

  /** `last` is what is read of the words `tail` behind the whole commands of a read. */
  predicate Ends(tail: seq<u32>, last: seq<Cmd>, beyond: u32) {
    || (tail == [] && last == [])
    || (|last| == 1 && Cut(tail, last[0], beyond))
    || (Foreign(tail) && last == [Bad])
  }

  lemma EndRead(tail: seq<u32>, last: seq<Cmd>, beyond: u32)
    requires Ends(tail, last, beyond)
    ensures Commands(tail, 0, beyond) == last
  {
    if tail != [] {
      assert CmdAt(tail, 0, beyond) == last[0];
      assert last[0] != Bad ==> NextAt(tail, 0) >= |tail|;
      assert [last[0]] == last;
    }
  }

  /** Any read is whole commands and an end, and this is what the parser makes of it. */
  lemma {:induction false} ReadExactly(parts: seq<seq<u32>>, cmds: seq<Cmd>, tail: seq<u32>, last: seq<Cmd>, beyond: u32)
    requires |parts| == |cmds| && forall i :: 0 <= i < |cmds| ==> Spells(parts[i], cmds[i])
    requires Ends(tail, last, beyond)
    ensures Commands(Flatten(parts) + tail, 0, beyond) == cmds + last
    decreases |cmds|
  {
    if cmds == [] {
      assert Flatten(parts) + tail == tail && cmds + last == last;
      EndRead(tail, last, beyond);
    } else {
      var rest := Flatten(parts[1..]) + tail;
      Associative(parts[0], Flatten(parts[1..]), tail);
      ReadExactly(parts[1..], cmds[1..], tail, last, beyond);
      OneMore(parts[0], cmds[0], rest, cmds[1..] + last, beyond);
      assert cmds + last == [cmds[0]] + (cmds[1..] + last);
    }
  }

  lemma OneMore(part: seq<u32>, c: Cmd, rest: seq<u32>, more: seq<Cmd>, beyond: u32)
    requires Spells(part, c) && Commands(rest, 0, beyond) == more
    ensures Commands(part + rest, 0, beyond) == [c] + more
  {
    OneSpelled(part, c, beyond);
    CommandsJoin(part, rest, 0, beyond, beyond);
  }

  /** The first command of a read, or its end. */
  lemma FirstPart(ws: seq<u32>, beyond: u32) returns (n: nat, c: Cmd)
    requires ws != []
    ensures n <= |ws|
    ensures if n > 0 then Spells(ws[..n], c) else Ends(ws, [c], beyond)
  {
    var cmd := ws[0];
    if cmd == BR_NOOP || cmd == BR_TRANSACTION_COMPLETE {
      n, c := 1, Skip;
    } else if cmd == BR_INCREFS || cmd == BR_ACQUIRE || cmd == BR_RELEASE || cmd == BR_DECREFS {
      n, c := if |ws| >= 3 then 3 else 0, Skip;
    } else if cmd == BR_TRANSACTION || cmd == BR_REPLY {
      if |ws| < 11 {
        n, c := 0, Bad;
      } else {
        var t := Txn(ws[1], ws[2], ws[3], ws[4], ws[5], ws[6], ws[7], ws[8], ws[9], ws[10]);
        assert ws[..11] == [cmd] + TxnWords(t);
        n, c := 11, if cmd == BR_REPLY then Reply(t) else Transaction(t);
      }
    } else if cmd == BR_DEAD_BINDER {
      n, c := if |ws| >= 2 then 2 else 0, DeadBinder(if |ws| >= 2 then ws[1] else beyond);
    } else if cmd == BR_FAILED_REPLY || cmd == BR_DEAD_REPLY {
      n, c := 1, Failed;
    } else {
      n, c := 0, Bad;
    }
  }

  lemma {:induction false} SplitAny(ws: seq<u32>, beyond: u32)
    returns (parts: seq<seq<u32>>, cmds: seq<Cmd>, tail: seq<u32>, last: seq<Cmd>)
    ensures |parts| == |cmds| && forall i :: 0 <= i < |cmds| ==> Spells(parts[i], cmds[i])
    ensures Ends(tail, last, beyond) && ws == Flatten(parts) + tail
    decreases |ws|
  {
    parts, cmds, tail, last := [], [], ws, [];
    if ws != [] {
      var n, c := FirstPart(ws, beyond);
      if n == 0 {
        last := [c];
      } else {
        parts, cmds, tail, last := SplitAny(ws[n..], beyond);
        Associative(ws[..n], Flatten(parts), tail);
        assert ws == ws[..n] + ws[n..];
        parts, cmds := [ws[..n]] + parts, [c] + cmds;
      }
    }
  }

  /** Two command lists in a row, the first free of unparsable commands. */
  lemma {:induction false} FoldJoin(r: int, a: seq<Cmd>, b: seq<Cmd>)
    requires Bad !in a
    ensures Fold(r, a + b) == Fold(Fold(r, a), b)
    decreases |a|
  {
    if a == [] {
      assert a + b == b;
    } else {
      assert (a + b)[1..] == a[1..] + b;
      FoldJoin(if a[0].Reply? then 0 else if a[0].Failed? then -1 else r, a[1..], b);
    }
  }

  lemma {:induction false} FoldOneHasNoTerminal(r: int, cmds: seq<Cmd>)
    requires Fold(r, cmds) == 1
    ensures forall c :: c in cmds ==> !Terminal(c)
    ensures FirstReply(cmds) == None && r == 1
    decreases |cmds|
  {
    if cmds != [] {
      var next := match cmds[0] case Reply(_) => 0 case Failed => -1 case _ => r;
      FoldOneHasNoTerminal(next, cmds[1..]);
    }
  }

  lemma {:induction false} FirstReplyJoin(a: seq<Cmd>, b: seq<Cmd>)
    ensures FirstReply(a + b) == if FirstReply(a).Some? then FirstReply(a) else FirstReply(b)
    decreases |a|
  {
    if a == [] {
      assert a + b == b;
    } else {
      assert (a + b)[1..] == a[1..] + b;
      FirstReplyJoin(a[1..], b);
    }
  }

  lemma {:induction false} EffectsJoin(log: seq<Event>, a: seq<Cmd>, b: seq<Cmd>, handler: Option<Handler>)
    ensures Effects(log, a + b, handler) == Effects(Effects(log, a, handler), b, handler)
    decreases |a|
  {
    if a == [] {
      assert a + b == b;
    } else {
      assert (a + b)[1..] == a[1..] + b;
      EffectsJoin(log + EventsOf(log, a[0], handler), a[1..], b, handler);
    }
  }

  /** A chunk of whole commands that returns 1 can be put in front of a stream:
      result, binding and effects are those of parsing the two in turn. */
  lemma PrependChunk(a: seq<u32>, b: seq<u32>, x: u32, beyond: u32, log: seq<Event>, handler: Option<Handler>)
    requires Whole(a, 0) && Fold(1, Commands(a, 0, x)) == 1
    ensures Fold(1, Commands(a + b, 0, beyond)) == Fold(1, Commands(b, 0, beyond))
    ensures FirstReply(Commands(a + b, 0, beyond)) == FirstReply(Commands(b, 0, beyond))
    ensures Effects(log, Commands(a + b, 0, beyond), handler) ==
            Effects(Effects(log, Commands(a, 0, x), handler), Commands(b, 0, beyond), handler)
  {
    var ca, cb := Commands(a, 0, x), Commands(b, 0, beyond);
    CommandsJoin(a, b, 0, x, beyond);
    FoldJoin(1, ca, cb);
    FoldOneHasNoTerminal(1, ca);
    FirstReplyJoin(ca, cb);
    EffectsJoin(log, ca, cb, handler);
  }

  // ---- Calls -------------------------------------------------------------

  /** One ioctl of `binder_call`: it fails, or fills the read buffer with words. */
  datatype Read =
    | IoctlFailed
    | Chunk(words: seq<u32>, beyond: u32)

  /** How a call ends: still blocked in the driver, answered, or failed. */
  datatype CallResult =
    | Waiting
    | Answered(t: Txn)
    | CallFailed

  /** What a parsed command list means for the call. */
  function Judge(cmds: seq<Cmd>): CallResult {
    var r := Fold(1, cmds);
    if r == 1 then Waiting
    else if r == 0 && FirstReply(cmds).Some? then Answered(FirstReply(cmds).value)
    else CallFailed
  }

  /** The loop of `binder_call`: read and parse until something is decided. */
  function CallOutcome(ios: seq<Read>): CallResult {
    if ios == [] then Waiting
    else
      match ios[0]
      case IoctlFailed => CallFailed
      case Chunk(words, beyond) =>
        var j := Judge(Commands(words, 0, beyond));
        if j == Waiting then CallOutcome(ios[1..]) else j
  }

  /** All the words of the reads. */
  function Joined(ios: seq<Read>): seq<u32> {
    if ios == [] then []
    else (if ios[0].Chunk? then ios[0].words else []) + Joined(ios[1..])
  }

  /** Chunks of whole commands that leave the call undecided. */
  predicate Undecided(r: Read) {
    r.Chunk? && Whole(r.words, 0) && Judge(Commands(r.words, 0, r.beyond)) == Waiting
  }

  /** A call that needed several reads is one parse of everything it read. */
  lemma {:induction false} CallIsOneParse(ios: seq<Read>, last: Read)
    requires last.Chunk? && forall i :: 0 <= i < |ios| ==> Undecided(ios[i])
    ensures CallOutcome(ios + [last]) == Judge(Commands(Joined(ios + [last]), 0, last.beyond))
    decreases |ios|
  {
    var all := ios + [last];
    if ios == [] {
      assert all[1..] == [] && last.words + [] == last.words;
      assert all[0] == last && Joined(all) == last.words;
    } else {
      assert all[1..] == ios[1..] + [last] && all[0] == ios[0];
      CallIsOneParse(ios[1..], last);
      PrependChunk(ios[0].words, Joined(all[1..]), ios[0].beyond, last.beyond, [], None);
    }
  }

  /** The commands a read loop parses before it stops: it goes on only while the
      result is 1. */
  function Consumed(ios: seq<Read>): seq<Cmd> {
    if ios == [] || ios[0].IoctlFailed? then []
    else
      var cmds := Commands(ios[0].words, 0, ios[0].beyond);
      cmds + if Fold(1, cmds) == 1 then Consumed(ios[1..]) else []
  }

  lemma FoldResult(r: int, cmds: seq<Cmd>)
    requires -1 <= r <= 1
    ensures -1 <= Fold(r, cmds) <= 1
    decreases |cmds|
  {
  }

  /** The three results of a parse are the three outcomes for a call. */
  lemma JudgeIsResult(cmds: seq<Cmd>)
    ensures Judge(cmds) == Waiting <==> Fold(1, cmds) == 1
    ensures Judge(cmds).Answered? <==> Fold(1, cmds) == 0
    ensures Judge(cmds) == CallFailed <==> Fold(1, cmds) < 0
    ensures Judge(cmds).Answered? ==> FirstReply(cmds) == Some(Judge(cmds).t)
    ensures Judge(cmds) == Waiting ==> FirstReply(cmds) == None
  {
    FoldResult(1, cmds);
    FoldIsVerdict(cmds);
    if Fold(1, cmds) == 0 {
      ZeroHasReply(cmds);
    }
    if Fold(1, cmds) == 1 {
      FoldOneHasNoTerminal(1, cmds);
    }
  }
}
