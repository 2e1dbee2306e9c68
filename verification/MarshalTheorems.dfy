/** What the marshaler promises, against definitions that do not follow its
    code: a grammar of command streams, and a decoder of its output. */
module MarshalTheorems {
  import opened Words
  import opened BinderProtocol
  import opened MarshalSpec

  // ---- The grammar -------------------------------------------------------

  datatype Command =
    | Bare(code: u32)
    | Transfer(code: u32, body: seq<byte>)
    | Refcount(code: u32, operands: seq<byte>)

  /** A reference to mapped memory made by a transaction. */
  datatype Reference = Reference(ptr: u32, length: u32)

  /** The commands, code by code. */
  predicate WellFormed(c: Command) {
    match c
    case Bare(code) => code == BR_NOOP || code == BR_TRANSACTION_COMPLETE || code == BR_SPAWN_LOOPER
    case Transfer(code, body) => (code == BR_TRANSACTION || code == BR_REPLY) && |body| == 40
    case Refcount(code, operands) =>
      (code == BR_INCREFS || code == BR_ACQUIRE || code == BR_RELEASE || code == BR_DECREFS) && |operands| <= 8
  }

  /** Only the last command may be a truncated refcount command. */
  predicate InGrammar(cmds: seq<Command>) {
    && (forall i :: 0 <= i < |cmds| ==> WellFormed(cmds[i]))
    && (forall i :: 0 <= i < |cmds| - 1 && cmds[i].Refcount? ==> |cmds[i].operands| == 8)
  }

  function Encode(c: Command): seq<byte> {
    Bytes(c.code) +
    match c
    case Bare(_) => []
    case Transfer(_, body) => body
    case Refcount(_, operands) => operands
  }

  function Stream(cmds: seq<Command>): seq<byte> {
    if cmds == [] then [] else Encode(cmds[0]) + Stream(cmds[1..])
  }

  function BodyReferences(body: seq<byte>): seq<Reference>
    requires |body| == TXN_SIZE
  {
    var d, o := Word(body, TXN_DATA_SIZE), Word(body, TXN_OFFSETS_SIZE);
    (if d != 0 then [Reference(Word(body, TXN_BUFFER), d)] else []) +
    (if o != 0 then [Reference(Word(body, TXN_OFFSETS), o)] else [])
  }

  /** The segments a command list refers to, in command order, buffer before offsets. */
  function References(cmds: seq<Command>): seq<Reference>
    requires forall i :: 0 <= i < |cmds| ==> WellFormed(cmds[i])
  {
    if cmds == [] then []
    else
      assert WellFormed(cmds[0]);
      (if cmds[0].Transfer? then BodyReferences(cmds[0].body) else []) + References(cmds[1..])
  }

  function Cost(refs: seq<Reference>): nat {
    if refs == [] then 0 else 8 + refs[0].length + Cost(refs[1..])
  }

  /** The references behind a list of accepted events. */
  function Requests(evs: seq<Event>): (r: seq<Reference>)
    requires Leading(evs, |evs|)
    ensures |r| == |evs|
  {
    seq(|evs|, i requires 0 <= i < |evs| => Reference(evs[i].ptr, evs[i].length))
  }

  lemma WordInSuffix(s: seq<byte>, p: nat, i: nat)
    requires p + i + 4 <= |s|
    ensures Word(s[p..], i) == Word(s, p + i)
  {
  }

  lemma WordAtFront(w: u32, z: seq<byte>)
    ensures Word(Bytes(w) + z, 0) == w
  {
    WordOfBytes([], w, z);
    assert [] + Bytes(w) + z == Bytes(w) + z;
  }

  lemma RequestsOfTxn(s: seq<byte>, body: nat, b: seq<byte>)
    requires body + TXN_SIZE <= |s| && b == s[body..body + TXN_SIZE]
    ensures Leading(TxnEvents(s, body), |TxnEvents(s, body)|)
    ensures Requests(TxnEvents(s, body)) == BodyReferences(b)
  {
    assert b == s[body..][..TXN_SIZE];
    assert Word(b, TXN_DATA_SIZE) == Word(s, body + TXN_DATA_SIZE);
    assert Word(b, TXN_OFFSETS_SIZE) == Word(s, body + TXN_OFFSETS_SIZE);
    assert Word(b, TXN_BUFFER) == Word(s, body + TXN_BUFFER);
    assert Word(b, TXN_OFFSETS) == Word(s, body + TXN_OFFSETS);
  }

  lemma RequestsAppend(a: seq<Event>, b: seq<Event>)
    requires Leading(a, |a|) && Leading(b, |b|)
    ensures Leading(a + b, |a + b|) && Requests(a + b) == Requests(a) + Requests(b)
  {
  }

  lemma SuffixStep(s: seq<byte>, p: nat, head: seq<byte>, rest: seq<byte>)
    requires p <= |s| && s[p..] == head + rest
    ensures p + |head| <= |s| && s[p + |head|..] == rest && s[p..p + |head|] == head
  {
    assert s[p + |head|..] == s[p..][|head|..];
    assert s[p..p + |head|] == s[p..][..|head|];
  }

  /** The stream at `p` starts with command `c`. */
  lemma HeadOfStream(s: seq<byte>, p: nat, c: Command, rest: seq<byte>)
    requires p <= |s| && s[p..] == Encode(c) + rest
    ensures p + |Encode(c)| <= |s| && Word(s, p) == c.code
    ensures s[p + |Encode(c)|..] == rest
    ensures c.Transfer? ==> s[p + 4..p + |Encode(c)|] == c.body
  {
    var head := Encode(c);
    assert |s[p..]| == |head| + |rest|;
    SuffixStep(s, p, head, rest);
    assert s[p..] == Bytes(c.code) + (head[4..] + rest);
    WordAtFront(c.code, head[4..] + rest);
    WordInSuffix(s, p, 0);
    if c.Transfer? {
      assert s[p + 4..p + |head|] == s[p..p + |head|][4..];
    }
  }

  predicate NeverStops(s: seq<byte>, p: nat) {
    Leading(Events(s, p), |Events(s, p)|)
  }

  /** The walk reads command `c` off the stream. */
  lemma GrammarStep(s: seq<byte>, p: nat, c: Command, rest: seq<byte>)
    requires p <= |s| && WellFormed(c) && s[p..] == Encode(c) + rest
    requires c.Refcount? && |c.operands| < 8 ==> rest == []
    ensures Readable(s, p)
    ensures After(s, p) == p + |Encode(c)| || (rest == [] && After(s, p) >= |s| == p + |Encode(c)|)
    ensures Leading(HeadEvents(s, p), |HeadEvents(s, p)|)
    ensures Requests(HeadEvents(s, p)) == if c.Transfer? then BodyReferences(c.body) else []
  {
    HeadOfStream(s, p, c, rest);
    if c.Transfer? {
      RequestsOfTxn(s, p + 4, c.body);
    }
  }

  /** A stream of the grammar produces exactly its references, and never stops. */
  lemma {:induction false} GrammarAccepted(s: seq<byte>, p: nat, cmds: seq<Command>)
    requires InGrammar(cmds) && (p < |s| ==> s[p..] == Stream(cmds)) && (p >= |s| ==> cmds == [])
    ensures NeverStops(s, p) && Requests(Events(s, p)) == References(cmds)
    decreases |cmds|
  {
    if cmds != [] {
      var c, rest := cmds[0], cmds[1..];
      assert WellFormed(c);
      GrammarStep(s, p, c, Stream(rest));
      HeadOfStream(s, p, c, Stream(rest));
      StreamEmpty(rest);
      GrammarAccepted(s, After(s, p), rest);
      RequestsAppend(HeadEvents(s, p), Events(s, After(s, p)));
    }
  }

  lemma StreamEmpty(cmds: seq<Command>)
    ensures Stream(cmds) == [] <==> cmds == []
  {
  }

  lemma LeadingTail(a: seq<Event>, b: seq<Event>)
    requires Leading(a + b, |a + b|)
    ensures Leading(b, |b|)
  {
    assert forall i :: 0 <= i < |b| ==> (a + b)[|a| + i] == b[i];
  }

  /** A walk that never stops reads one command of the grammar at a time. */
  lemma NeverStopsStep(s: seq<byte>, p: nat)
    requires p < |s| && NeverStops(s, p)
    ensures Readable(s, p) && NeverStops(s, After(s, p))
  {
    assert Events(s, p) != [] ==> Events(s, p)[0].Segment?;
    LeadingTail(HeadEvents(s, p), Events(s, After(s, p)));
  }

  /** The command at `p`, and where it ends in the stream. */
  lemma ReadCommand(s: seq<byte>, p: nat) returns (c: Command, next: nat)
    requires Readable(s, p)
    ensures WellFormed(c) && p < next <= |s| && Encode(c) == s[p..next]
    ensures next == After(s, p) || (next == |s| <= After(s, p))
    ensures c.Refcount? && next < |s| ==> |c.operands| == 8
  {
    var cmd := Word(s, p);
    next := if After(s, p) <= |s| then After(s, p) else |s|;
    var operands := s[p + 4..next];
    BytesOfWord(s, p);
    assert s[p..next] == s[p..p + 4] + operands;
    if IsBare(cmd) {
      c := Bare(cmd);
    } else if IsTransfer(cmd) {
      c := Transfer(cmd, operands);
    } else {
      c := Refcount(cmd, operands);
    }
  }

  lemma GrammarCons(c: Command, rest: seq<Command>)
    requires WellFormed(c) && InGrammar(rest)
    requires rest != [] && c.Refcount? ==> |c.operands| == 8
    ensures InGrammar([c] + rest) && Stream([c] + rest) == Encode(c) + Stream(rest)
  {
    assert ([c] + rest)[1..] == rest;
  }

  /** A stream whose walk never stops is in the grammar. */
  lemma {:induction false} ParseStream(s: seq<byte>, p: nat) returns (cmds: seq<Command>)
    requires NeverStops(s, p)
    ensures InGrammar(cmds) && (p < |s| ==> Stream(cmds) == s[p..]) && (p >= |s| ==> cmds == [])
    decreases if p < |s| then |s| - p else 0
  {
    if p >= |s| {
      return [];
    }
    NeverStopsStep(s, p);
    var c, next := ReadCommand(s, p);
    var rest := ParseStream(s, After(s, p));
    GrammarCons(c, rest);
    Resume(s, p, next, After(s, p), Stream(rest));
    cmds := [c] + rest;
  }

  /** The suffix at `p` is the part before `next` and what the walk finds behind it. */
  lemma Resume(s: seq<byte>, p: nat, next: nat, after: nat, tail: seq<byte>)
    requires p <= next <= |s| && (next == after || next == |s| <= after)
    requires tail == if after < |s| then s[after..] else []
    ensures s[p..] == s[p..next] + tail
  {
  }

  /** The reference starts in the mapping, which is 4 MB less a page. */
  predicate Known(r: Reference, base: Base) {
    base <= r.ptr < base + 4190208
  }

  /** The stream is in the grammar and within the marshaler's limits. */
  predicate Admissible(s: seq<byte>, base: Base, cmds: seq<Command>) {
    && InGrammar(cmds) && Stream(cmds) == s
    && var refs := References(cmds);
       && |refs| <= 16
       && (forall i :: 0 <= i < |refs| ==> Known(refs[i], base))
       && |s| + Cost(refs) <= 16384
  }

  lemma {:induction false} CostIsTotal(evs: seq<Event>, base: Base)
    requires Leading(evs, |evs|) && forall i :: 0 <= i < |evs| ==> InMapping(evs[i].ptr, base)
    requires |evs| <= MAX_SEGMENT_NUM
    ensures AllAccepted(evs, base) && Total(Recorded(evs, base)) == Cost(Requests(evs))
  {
    if evs != [] {
      CostIsTotal(evs[1..], base);
      assert AllAccepted(evs, base);
      assert Recorded(evs, base)[1..] == Recorded(evs[1..], base);
      assert Requests(evs)[1..] == Requests(evs[1..]);
    }
  }

  /** A zero result means every event was taken, in a stream of the grammar. */
  lemma ZeroAcceptsAll(s: seq<byte>, base: Base)
    requires Result(s, base) == 0
    ensures Accepted(Events(s, 0), 0, base) == |Events(s, 0)| && AllAccepted(Events(s, 0), base)
    ensures NeverStops(s, 0)
  {
    var evs := Events(s, 0);
    var k := Accepted(evs, 0, base);
    if k < |evs| && evs[k].Stop? {
      StopsNegative(s, 0, k);
    }
  }

  /** The walk of a stream of the grammar finds its references. */
  lemma GrammarWalk(s: seq<byte>, cmds: seq<Command>)
    requires InGrammar(cmds) && Stream(cmds) == s
    ensures NeverStops(s, 0) && Requests(Events(s, 0)) == References(cmds)
  {
    assert s[0..] == s;
    StreamEmpty(cmds);
    GrammarAccepted(s, 0, cmds);
  }

  /** `marshaler_marshal` returns 0 exactly on the admissible streams. */
  lemma SuccessCondition(s: seq<byte>, base: Base)
    requires |s| <= MARSHALER_BUF_SIZE
    ensures Result(s, base) == 0 <==> exists cmds :: Admissible(s, base, cmds)
  {
    var evs := Events(s, 0);
    if Result(s, base) == 0 {
      ZeroAcceptsAll(s, base);
      assert |evs| > 0 ==> Accepts(evs[|evs| - 1], |evs| - 1, base);
      CostIsTotal(evs, base);
      var cmds := ParseStream(s, 0);
      assert s[0..] == s;
      GrammarWalk(s, cmds);
      var refs := References(cmds);
      assert forall i :: 0 <= i < |refs| ==> refs[i].ptr == evs[i].ptr && Accepts(evs[i], i, base);
      assert Admissible(s, base, cmds);
    }
    if cmds :| Admissible(s, base, cmds) {
      GrammarWalk(s, cmds);
      var refs := References(cmds);
      assert forall i :: 0 <= i < |evs| ==> evs[i].ptr == refs[i].ptr && Known(refs[i], base);
      CostIsTotal(evs, base);
      AcceptedIs(evs, 0, |evs|, base);
    }
  }
}
