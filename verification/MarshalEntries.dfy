/** How many data entries the marshaler reports, for any stream: also for those it
    refuses, where the payload is empty. */
module MarshalEntries {
  import opened Words
  import opened BinderProtocol
  import opened MarshalSpec
  import opened MarshalTheorems

  /** A command cut short, which is accepted at the end of a stream only. */
  predicate Truncated(c: Command) {
    c.Refcount? && |c.operands| < 8
  }

  /** No command starts these bytes. */
  ghost predicate NoCommand(b: seq<byte>) {
    forall c: Command, z: seq<byte> :: WellFormed(c) && (Truncated(c) ==> z == []) ==> b != Encode(c) + z
  }

  /** The stream is the commands `cmds` and then bytes that start no command. */
  ghost predicate Parses(s: seq<byte>, cmds: seq<Command>, rest: seq<byte>) {
    && InGrammar(cmds) && s == Stream(cmds) + rest
    && (rest != [] ==> NoCommand(rest) && forall i :: 0 <= i < |cmds| ==> !Truncated(cmds[i]))
  }

  /** How many of the references are recorded, the first `n` being so: up to the first
      that does not start in the mapping or finds the table full. */
  function Taken(refs: seq<Reference>, n: nat, base: Base): (k: nat)
    requires n <= |refs|
    ensures n <= k <= |refs|
    decreases |refs| - n
  {
    if n < |refs| && n < 16 && Known(refs[n], base) then Taken(refs, n + 1, base) else n
  }

  /** The command at `p` and what follows it. */
  lemma ReadOne(s: seq<byte>, p: nat) returns (c: Command, next: nat)
    requires Readable(s, p)
    ensures WellFormed(c) && p < next <= |s| && s[p..] == Encode(c) + s[next..]
    ensures Truncated(c) ==> s[next..] == []
  {
    c, next := ReadCommand(s, p);
    assert s[p..] == s[p..next] + s[next..];
  }

  lemma Unreadable(s: seq<byte>, p: nat)
    requires p < |s|
    ensures Readable(s, p) <==> !NoCommand(s[p..])
  {
    if Readable(s, p) {
      var c, next := ReadOne(s, p);
      assert s[p..] == Encode(c) + s[next..];
    }
    if !NoCommand(s[p..]) {
      var c: Command, z: seq<byte> :| WellFormed(c) && (Truncated(c) ==> z == []) && s[p..] == Encode(c) + z;
      GrammarStep(s, p, c, z);
    }
  }

  /** Every stream parses so. */
  lemma {:induction false} ParseAny(s: seq<byte>, p: nat) returns (cmds: seq<Command>, rest: seq<byte>)
    requires p <= |s|
    ensures Parses(s[p..], cmds, rest)
    decreases |s| - p
  {
    if p < |s| && Readable(s, p) {
      var c, next := ReadOne(s, p);
      cmds, rest := ParseAny(s, next);
      ParsesCons(s[p..], c, s[next..], cmds, rest);
      cmds := [c] + cmds;
    } else {
      cmds, rest := [], s[p..];
      if p < |s| {
        Unreadable(s, p);
      }
    }
  }

  lemma ParsesCons(s: seq<byte>, c: Command, z: seq<byte>, more: seq<Command>, rest: seq<byte>)
    requires WellFormed(c) && (Truncated(c) ==> z == []) && s == Encode(c) + z && Parses(z, more, rest)
    ensures Parses(s, [c] + more, rest)
  {
    StreamEmpty(more);
    GrammarCons(c, more);
    Associative(Encode(c), Stream(more), rest);
  }

  /** The refusal of bytes that start no command: a command word or a transaction record cut
      short is -EFAULT, an unknown command -1. */
  function StopOf(rest: seq<byte>): int {
    if |rest| < 4 || rest[..4] == Bytes(BR_TRANSACTION) || rest[..4] == Bytes(BR_REPLY) then -14 else -1
  }

  /** `evs` asks for the references `refs`, and then is over, or stops at `rest`. */
  predicate Asks(evs: seq<Event>, refs: seq<Reference>, rest: seq<byte>) {
    && |evs| == |refs| + (if rest == [] then 0 else 1)
    && (forall i :: 0 <= i < |refs| ==> evs[i].Segment? && refs[i] == Reference(evs[i].ptr, evs[i].length))
    && (rest != [] ==> evs[|refs|] == Stop(StopOf(rest)))
  }

  lemma StopCodeIs(s: seq<byte>, p: nat)
    requires p < |s| && !Readable(s, p)
    ensures StopCode(s, p) == StopOf(s[p..])
  {
    if p + 4 <= |s| {
      BytesOfWord(s, p);
      assert s[p..][..4] == s[p..p + 4];
      if s[p..p + 4] == Bytes(BR_TRANSACTION) || s[p..p + 4] == Bytes(BR_REPLY) {
        var code := if s[p..p + 4] == Bytes(BR_TRANSACTION) then BR_TRANSACTION else BR_REPLY;
        SameBytes(Word(s, p), code);
      }
    }
  }

  lemma SameBytes(a: u32, b: u32)
    requires Bytes(a) == Bytes(b)
    ensures a == b
  {
    ComposeOfBytes(a);
    ComposeOfBytes(b);
  }

  lemma AsksAppend(head: seq<Event>, evs: seq<Event>, a: seq<Reference>, b: seq<Reference>, rest: seq<byte>)
    requires Leading(head, |head|) && Requests(head) == a && Asks(evs, b, rest)
    ensures Asks(head + evs, a + b, rest)
  {
    forall i | 0 <= i < |a + b|
      ensures (head + evs)[i].Segment? && (a + b)[i] == Reference((head + evs)[i].ptr, (head + evs)[i].length)
    {
      if i < |a| {
        assert (head + evs)[i] == head[i] && (a + b)[i] == Requests(head)[i];
      }
    }
  }

  /** The walk asks for the references of the commands it gets through. */
  lemma {:induction false} WalkAsks(s: seq<byte>, p: nat, cmds: seq<Command>, rest: seq<byte>)
    requires if p < |s| then Parses(s[p..], cmds, rest) else cmds == [] && rest == []
    ensures Asks(Events(s, p), References(cmds), rest)
    decreases |cmds|
  {
    if cmds == [] {
      if p < |s| {
        assert s[p..] == rest;
        Unreadable(s, p);
        StopCodeIs(s, p);
      }
    } else {
      if p >= |s| {
        StreamEmpty(cmds);
      }
      var c := cmds[0];
      TailParses(s, p, cmds, rest);
      WalkAsks(s, After(s, p), cmds[1..], rest);
      AsksAppend(HeadEvents(s, p), Events(s, After(s, p)), if c.Transfer? then BodyReferences(c.body) else [], References(cmds[1..]),
                 rest);
    }
  }

  lemma TailParses(s: seq<byte>, p: nat, cmds: seq<Command>, rest: seq<byte>)
    requires p < |s| && cmds != [] && Parses(s[p..], cmds, rest)
    ensures WellFormed(cmds[0]) && Readable(s, p) && Leading(HeadEvents(s, p), |HeadEvents(s, p)|)
    ensures Requests(HeadEvents(s, p)) == if cmds[0].Transfer? then BodyReferences(cmds[0].body) else []
    ensures var q := After(s, p); if q < |s| then Parses(s[q..], cmds[1..], rest) else cmds[1..] == [] && rest == []
  {
    var c := cmds[0];
    var z := FirstParsed(s[p..], cmds, rest);
    GrammarStep(s, p, c, z);
    HeadOfStream(s, p, c, z);
  }

  /** What is behind the first command is parsed by the others. */
  lemma FirstParsed(d: seq<byte>, cmds: seq<Command>, rest: seq<byte>) returns (z: seq<byte>)
    requires cmds != [] && Parses(d, cmds, rest)
    ensures WellFormed(cmds[0]) && d == Encode(cmds[0]) + z && (Truncated(cmds[0]) ==> z == [])
    ensures Parses(z, cmds[1..], rest) && (z == [] ==> cmds[1..] == [] && rest == [])
  {
    var c, more := cmds[0], cmds[1..];
    z := Stream(more) + rest;
    Associative(Encode(c), Stream(more), rest);
    StreamEmpty(more);
    if Truncated(c) {
      assert more == [];
    }
  }

  lemma {:induction false} AcceptedIsTaken(evs: seq<Event>, refs: seq<Reference>, rest: seq<byte>, n: nat, base: Base)
    requires Asks(evs, refs, rest) && n <= |refs|
    ensures Accepted(evs, n, base) == Taken(refs, n, base)
    decreases |refs| - n
  {
    if n < |refs| && Accepts(evs[n], n, base) {
      AcceptedIsTaken(evs, refs, rest, n + 1, base);
    }
  }

  /** The entries recorded for any stream, refused or not: its references up to the first
      that does not start in the mapping or finds the table full. */
  lemma EntriesExactly(s: seq<byte>, base: Base, cmds: seq<Command>, rest: seq<byte>)
    requires Parses(s, cmds, rest)
    ensures Accepted(Events(s, 0), 0, base) == Taken(References(cmds), 0, base)
  {
    StreamAsks(s, cmds, rest);
    AcceptedIsTaken(Events(s, 0), References(cmds), rest, 0, base);
  }

  lemma StreamAsks(s: seq<byte>, cmds: seq<Command>, rest: seq<byte>)
    requires Parses(s, cmds, rest)
    ensures Asks(Events(s, 0), References(cmds), rest)
  {
    assert s[0..] == s;
    if s == [] {
      StreamEmpty(cmds);
    }
    WalkAsks(s, 0, cmds, rest);
  }

  /** The return value a stream should get, said of its commands: the first reference that
      is refused decides, -ENOMEM when sixteen came before it and -EFAULT when it starts
      outside the mapping; then the bytes that start no command; then the space. */
  function ReturnOf(s: seq<byte>, base: Base, cmds: seq<Command>, rest: seq<byte>): int
    requires InGrammar(cmds)
  {
    var refs := References(cmds);
    var k := Taken(refs, 0, base);
    if k < |refs| then (if k == 16 then -12 else -14)
    else if rest != [] then StopOf(rest)
    else if |s| + Cost(refs) <= 16384 then 0
    else -1
  }

  /** Every stream gets just that. */
  lemma ResultExactly(s: seq<byte>, base: Base, cmds: seq<Command>, rest: seq<byte>)
    requires Parses(s, cmds, rest)
    ensures Result(s, base) == ReturnOf(s, base, cmds, rest)
  {
    var refs := References(cmds);
    var k := Taken(refs, 0, base);
    StreamAsks(s, cmds, rest);
    EntriesExactly(s, base, cmds, rest);
    if k < |refs| {
      AtMostSixteen(refs, 0, base);
      RefusedResult(s, base, refs, rest, k);
    } else if rest != [] {
      StoppedResult(s, base, refs, rest);
    } else {
      WalkedResult(s, base, refs);
    }
  }

  lemma RefusedResult(s: seq<byte>, base: Base, refs: seq<Reference>, rest: seq<byte>, k: nat)
    requires Asks(Events(s, 0), refs, rest) && Accepted(Events(s, 0), 0, base) == k < |refs| && k <= 16
    requires k < 16 ==> !Known(refs[k], base)
    ensures Result(s, base) == if k == 16 then -12 else -14
  {
    assert refs[k] == Reference(Events(s, 0)[k].ptr, Events(s, 0)[k].length);
  }

  lemma StoppedResult(s: seq<byte>, base: Base, refs: seq<Reference>, rest: seq<byte>)
    requires Asks(Events(s, 0), refs, rest) && Accepted(Events(s, 0), 0, base) == |refs| && rest != []
    ensures Result(s, base) == StopOf(rest)
  {
  }

  lemma WalkedResult(s: seq<byte>, base: Base, refs: seq<Reference>)
    requires Asks(Events(s, 0), refs, []) && Accepted(Events(s, 0), 0, base) == |refs|
    ensures Result(s, base) == if |s| + Cost(refs) <= 16384 then 0 else -1
  {
    AllRecorded(Events(s, 0), refs, base);
  }

  /** When all that is asked for is recorded the space decides. */
  lemma AllRecorded(evs: seq<Event>, refs: seq<Reference>, base: Base)
    requires Asks(evs, refs, []) && Accepted(evs, 0, base) == |evs|
    ensures AllAccepted(evs, base) && Total(Recorded(evs, base)) == Cost(refs)
  {
    assert |evs| > 0 ==> Accepts(evs[|evs| - 1], |evs| - 1, base);
    CostIsTotal(evs, base);
    assert Requests(evs) == refs;
  }

  lemma {:induction false} AtMostSixteen(refs: seq<Reference>, n: nat, base: Base)
    requires n <= |refs| && n <= 16
    ensures var k := Taken(refs, n, base); k <= 16 && (k < |refs| && k < 16 ==> !Known(refs[k], base))
    decreases |refs| - n
  {
    if n < |refs| && n < 16 && Known(refs[n], base) {
      AtMostSixteen(refs, n + 1, base);
    }
  }

  /** No entries are reported just when the stream refers to nothing before it ends or
      is refused, or first to something outside the mapping. */
  lemma ZeroEntriesExactly(s: seq<byte>, base: Base, cmds: seq<Command>, rest: seq<byte>)
    requires Parses(s, cmds, rest)
    ensures Accepted(Events(s, 0), 0, base) == 0 <==>
              References(cmds) == [] || !Known(References(cmds)[0], base)
  {
    EntriesExactly(s, base, cmds, rest);
  }
}
