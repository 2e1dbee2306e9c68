/** The receiving side, written as a decoder: it splits the records off the
    payload and turns the offsets in the stream back into pointers. */
module MarshalRoundTrip {
  import opened Words
  import opened Relocation
  import opened BinderProtocol
  import opened MarshalSpec
  import opened MarshalTheorems

  /** One segment as received: where it came from in the mapping, and its bytes. */
  datatype Piece = Piece(offset: u32, data: seq<byte>)

  datatype Message = Message(stream: seq<byte>, pieces: seq<Piece>)

  /** Exactly `n` records, and nothing after them. */
  function DecodeRecords(b: seq<byte>, n: nat): Option<seq<Piece>> {
    if n == 0 then (if b == [] then Some([]) else None)
    else if |b| < SEGMENT_HEADER then None
    else
      var length := Word(b, 4);
      if |b| < SEGMENT_HEADER + length then None
      else
        match DecodeRecords(b[SEGMENT_HEADER + length..], n - 1)
        case None => None
        case Some(rest) => Some([Piece(Word(b, 0), b[SEGMENT_HEADER..SEGMENT_HEADER + length])] + rest)
  }

  /** Walk the received stream and add the base to the pointer of every segment. */
  function RestoreStream(t: seq<byte>, base: Base): Option<seq<byte>> {
    if NeverStops(t, 0) then
      AllSitesOk(t);
      Some(AddAt(t, Sites(Events(t, 0)), base))
    else None
  }

  /** Decode a payload from the stream length and the `data_entries` count. */
  function Decode(payload: seq<byte>, size: nat, entries: nat, base: Base): Option<Message>
    requires size <= |payload|
  {
    match DecodeRecords(payload[size..], entries)
    case None => None
    case Some(pieces) =>
      match RestoreStream(payload[..size], base)
      case None => None
      case Some(stream) => Some(Message(stream, pieces))
  }

  /** The bytes of memory a reference points at. */
  function Fetch(r: Reference, base: Base, vm: Mapping): Piece
    requires base <= r.ptr && r.ptr - base + r.length <= REACH
  {
    Piece(r.ptr - base, vm[r.ptr - base..r.ptr - base + r.length])
  }

  predicate Fetchable(refs: seq<Reference>, base: Base) {
    forall i :: 0 <= i < |refs| ==> base <= refs[i].ptr && refs[i].ptr - base + refs[i].length <= REACH
  }

  function FetchAll(refs: seq<Reference>, base: Base, vm: Mapping): (p: seq<Piece>)
    requires Fetchable(refs, base)
    ensures |p| == |refs|
  {
    seq(|refs|, i requires 0 <= i < |refs| => Fetch(refs[i], base, vm))
  }

  // ---- The records -------------------------------------------------------

  function PieceOf(d: DataSegment, vm: Mapping): Piece
    requires Inside(d)
  {
    Piece(d.offset, Payload(d, vm))
  }

  lemma RecordFields(d: DataSegment, vm: Mapping, z: seq<byte>)
    requires Inside(d)
    ensures var b := Record(d, vm) + z;
            && Word(b, 0) == d.offset && Word(b, 4) == d.length
            && b[SEGMENT_HEADER..SEGMENT_HEADER + d.length] == Payload(d, vm)
            && b[SEGMENT_HEADER + d.length..] == z
  {
    var b := Record(d, vm) + z;
    var p := Payload(d, vm);
    WordAtFront(d.offset, Bytes(d.length) + p + z);
    assert b == Bytes(d.offset) + (Bytes(d.length) + p + z);
    WordOfBytes(Bytes(d.offset), d.length, p + z);
    assert b == Bytes(d.offset) + Bytes(d.length) + (p + z);
    assert b == (Bytes(d.offset) + Bytes(d.length)) + (p + z);
    assert b[SEGMENT_HEADER..] == p + z;
  }

  function PiecesOf(segs: seq<DataSegment>, vm: Mapping): (p: seq<Piece>)
    requires AllInside(segs)
    ensures |p| == |segs| && forall i :: 0 <= i < |segs| ==> p[i] == PieceOf(segs[i], vm)
  {
    if segs == [] then [] else [PieceOf(segs[0], vm)] + PiecesOf(segs[1..], vm)
  }

  lemma {:induction false} RecordsDecode(segs: seq<DataSegment>, vm: Mapping)
    requires AllInside(segs)
    ensures DecodeRecords(Records(segs, vm), |segs|) == Some(PiecesOf(segs, vm))
  {
    if segs != [] {
      RecordFields(segs[0], vm, Records(segs[1..], vm));
      RecordsDecode(segs[1..], vm);
    }
  }

  // ---- The stream --------------------------------------------------------

  predicate Listed(evs: seq<Event>, k: nat) {
    exists i :: 0 <= i < |evs| && evs[i].Segment? && evs[i].site == k
  }

  /** Same segments at the same sites, whatever their pointers. */
  predicate SameShape(a: seq<Event>, b: seq<Event>) {
    |a| == |b| && forall i :: 0 <= i < |a| ==>
      a[i].Segment? && b[i].Segment? && a[i].site == b[i].site && a[i].length == b[i].length
  }

  /** From `p` on, `t` differs from `s` at most in the pointer words of `evs`. */
  predicate PointersOnly(s: seq<byte>, t: seq<byte>, evs: seq<Event>, p: nat) {
    |s| == |t| &&
    forall k: nat :: k % 4 == 0 && p <= k && k + 4 <= |s| && !Listed(evs, k) ==> Word(t, k) == Word(s, k)
  }

  lemma ListedInParts(a: seq<Event>, b: seq<Event>, k: nat)
    requires Listed(a + b, k)
    ensures Listed(a, k) || Listed(b, k)
  {
    var i :| 0 <= i < |a + b| && (a + b)[i].Segment? && (a + b)[i].site == k;
    assert i < |a| ==> a[i] == (a + b)[i];
    assert i >= |a| ==> b[i - |a|] == (a + b)[i];
  }

  lemma NotListedBelow(evs: seq<Event>, p: nat, n: nat, k: nat)
    requires SitesAfter(evs, p, n) && k < p
    ensures !Listed(evs, k)
  {
  }

  /** Where the pointer words of the command at `p` can be. */
  lemma ListedInHead(s: seq<byte>, p: nat, k: nat)
    requires Readable(s, p) && Listed(HeadEvents(s, p), k)
    ensures IsTransfer(Word(s, p)) && (k == p + 4 + TXN_BUFFER || k == p + 4 + TXN_OFFSETS)
  {
  }

  /** A word listed neither in the head nor in the rest is untouched. */
  lemma UntouchedWord(s: seq<byte>, t: seq<byte>, head: seq<Event>, rest: seq<Event>, p: nat, k: nat)
    requires PointersOnly(s, t, head + rest, p)
    requires k % 4 == 0 && p <= k && k + 4 <= |s| && !Listed(head, k) && !Listed(rest, k)
    ensures Word(t, k) == Word(s, k)
  {
    if Listed(head + rest, k) {
      ListedInParts(head, rest, k);
    }
  }

  /** The words the walk reads to decide about the command at `p`. */
  predicate Header(s: seq<byte>, p: nat, k: nat)
    requires Readable(s, p)
  {
    k == p || (IsTransfer(Word(s, p)) && (k == p + 4 + TXN_DATA_SIZE || k == p + 4 + TXN_OFFSETS_SIZE))
  }

  lemma SameHeader(s: seq<byte>, t: seq<byte>, rest: seq<Event>, p: nat, k: nat)
    requires p % 4 == 0 && Readable(s, p) && Header(s, p, k) && SitesAfter(rest, After(s, p), |s|)
    requires PointersOnly(s, t, HeadEvents(s, p) + rest, p)
    ensures k + 4 <= |s| && Word(t, k) == Word(s, k)
  {
    HeaderPlace(s, p, k);
    NotListedBelow(rest, After(s, p), |s|, k);
    UntouchedWord(s, t, HeadEvents(s, p), rest, p, k);
  }

  /** Header words are aligned words of the command, and no pointer words. */
  lemma HeaderPlace(s: seq<byte>, p: nat, k: nat)
    requires p % 4 == 0 && Readable(s, p) && Header(s, p, k)
    ensures k % 4 == 0 && p <= k < After(s, p) && k + 4 <= |s| && !Listed(HeadEvents(s, p), k)
  {
    if Listed(HeadEvents(s, p), k) {
      ListedInHead(s, p, k);
    }
  }

  lemma PastHead(s: seq<byte>, t: seq<byte>, rest: seq<Event>, p: nat)
    requires Readable(s, p) && PointersOnly(s, t, HeadEvents(s, p) + rest, p)
    ensures PointersOnly(s, t, rest, After(s, p))
  {
    forall k: nat | k % 4 == 0 && After(s, p) <= k && k + 4 <= |s| && !Listed(rest, k)
      ensures Word(t, k) == Word(s, k)
    {
      if Listed(HeadEvents(s, p), k) {
        ListedInHead(s, p, k);
      }
      UntouchedWord(s, t, HeadEvents(s, p), rest, p, k);
    }
  }

  lemma SameShapeAppend(a: seq<Event>, b: seq<Event>, c: seq<Event>, d: seq<Event>)
    requires SameShape(a, c) && SameShape(b, d)
    ensures SameShape(a + b, c + d)
  {
  }

  lemma SameHalf(s: seq<byte>, t: seq<byte>, size: nat, ptr: nat)
    requires size + 4 <= |s| && ptr + 4 <= |s| && |s| == |t| && Word(s, size) == Word(t, size)
    ensures SameShape(HalfEvents(s, size, ptr), HalfEvents(t, size, ptr))
  {
  }

  lemma SameHead(s: seq<byte>, t: seq<byte>, p: nat)
    requires Readable(s, p) && |s| == |t|
    requires forall k: nat :: Header(s, p, k) ==> k + 4 <= |s| && Word(t, k) == Word(s, k)
    ensures Readable(t, p) && After(t, p) == After(s, p) && SameShape(HeadEvents(s, p), HeadEvents(t, p))
  {
    assert Header(s, p, p);
    if IsTransfer(Word(s, p)) {
      var d, o := p + 4 + TXN_DATA_SIZE, p + 4 + TXN_OFFSETS_SIZE;
      var b, f := p + 4 + TXN_BUFFER, p + 4 + TXN_OFFSETS;
      assert Header(s, p, d) && Header(s, p, o);
      SameHalf(s, t, d, b);
      SameHalf(s, t, o, f);
      SameShapeAppend(HalfEvents(s, d, b), HalfEvents(s, o, f), HalfEvents(t, d, b), HalfEvents(t, o, f));
    }
  }

  /** Rewriting pointer words does not change what the walk finds. */
  lemma {:induction false} SameWalk(s: seq<byte>, t: seq<byte>, p: nat)
    requires p % 4 == 0 && NeverStops(s, p) && PointersOnly(s, t, Events(s, p), p)
    ensures SameShape(Events(s, p), Events(t, p))
    decreases if p < |s| then |s| - p else 0
  {
    if p < |s| {
      NeverStopsStep(s, p);
      var next := After(s, p);
      var rest := Events(s, next);
      EventSites(s, next);
      forall k: nat | Header(s, p, k)
        ensures k + 4 <= |s| && Word(t, k) == Word(s, k)
      {
        SameHeader(s, t, rest, p, k);
      }
      SameHead(s, t, p);
      PastHead(s, t, rest, p);
      SameWalk(s, t, next);
      SameShapeAppend(HeadEvents(s, p), rest, HeadEvents(t, p), Events(t, next));
    }
  }

  lemma UnlistedUncovered(evs: seq<Event>, n: nat, k: nat, j: nat)
    requires Placed(evs, n) && Leading(evs, |evs|) && k % 4 == 0 && !Listed(evs, k) && k <= j < k + 4
    ensures !Covered(Sites(evs), j)
  {
    forall i | 0 <= i < |Sites(evs)|
      ensures !(Sites(evs)[i] <= j < Sites(evs)[i] + 4)
    {
      assert evs[i].site != k && evs[i].site % 4 == 0;
    }
  }

  lemma RelocatedPointersOnly(s: seq<byte>, base: Base)
    requires NeverStops(s, 0) && InBounds(Sites(Events(s, 0)), |s|)
    ensures PointersOnly(s, Relocated(s, Events(s, 0), base), Events(s, 0), 0)
  {
    var evs := Events(s, 0);
    var t := Relocated(s, evs, base);
    EventsPlaced(s);
    forall k: nat | k % 4 == 0 && k + 4 <= |s| && !Listed(evs, k)
      ensures Word(t, k) == Word(s, k)
    {
      forall j: nat | k <= j < k + 4
        ensures t[j] == s[j]
      {
        UnlistedUncovered(evs, |s|, k, j);
        AddAtFrame(s, Sites(evs), Neg32(base), j);
      }
    }
  }

  lemma SameSites(a: seq<Event>, b: seq<Event>)
    requires SameShape(a, b)
    ensures Sites(a) == Sites(b) && Leading(a, |a|) && Leading(b, |b|)
  {
  }

  lemma AllSitesOk(s: seq<byte>)
    requires NeverStops(s, 0)
    ensures InBounds(Sites(Events(s, 0)), |s|) && Aligned(Sites(Events(s, 0)))
  {
    var evs := Events(s, 0);
    EventsPlaced(s);
    assert evs[..|evs|] == evs;
    SitesOk(evs, |evs|, |s|);
  }

  /** Relocation is undone by walking the relocated stream: every byte returns. */
  lemma StreamRestored(s: seq<byte>, base: Base)
    requires NeverStops(s, 0)
    ensures InBounds(Sites(Events(s, 0)), |s|)
    ensures RestoreStream(Relocated(s, Events(s, 0), base), base) == Some(s)
  {
    AllSitesOk(s);
    RelocatedPointersOnly(s, base);
    var t := Relocated(s, Events(s, 0), base);
    SameWalk(s, t, 0);
    SameSites(Events(s, 0), Events(t, 0));
    NegTwice(base);
    AddAtUndone(s, Sites(Events(s, 0)), Neg32(base));
  }

  lemma NegTwice(a: u32)
    ensures Neg32(Neg32(a)) == a
  {
  }

  // ---- The whole payload -------------------------------------------------

  /** The table of a successful run is the list of references, as offsets. */
  lemma TableOfReferences(s: seq<byte>, base: Base, cmds: seq<Command>)
    requires KernelInput(s, base) && Result(s, base) == 0 && InGrammar(cmds) && Stream(cmds) == s
    ensures NeverStops(s, 0) && AllAccepted(Events(s, 0), base) && AllInside(Recorded(Events(s, 0), base))
    ensures Accepted(Events(s, 0), 0, base) == |Events(s, 0)| == |References(cmds)|
    ensures Fetchable(References(cmds), base)
  {
    var evs := Events(s, 0);
    ZeroAcceptsAll(s, base);
    assert evs[..|evs|] == evs;
    GrammarWalk(s, cmds);
    RecordedStart(evs, base);
    AllFit(Recorded(evs, base), |s|);
    FittingInside(Recorded(evs, base), |s|);
    assert Recorded(evs, base)[..|evs|] == Recorded(evs, base);
    var refs := References(cmds);
    forall i | 0 <= i < |refs|
      ensures base <= refs[i].ptr && refs[i].ptr - base + refs[i].length <= REACH
    {
      assert refs[i] == Reference(evs[i].ptr, evs[i].length);
      assert Accepts(evs[i], i, base) && Inside(Recorded(evs, base)[i]);
    }
  }

  lemma PiecesOfReferences(evs: seq<Event>, base: Base, vm: Mapping)
    requires Leading(evs, |evs|) && AllAccepted(evs, base) && AllInside(Recorded(evs, base))
    requires Fetchable(Requests(evs), base)
    ensures PiecesOf(Recorded(evs, base), vm) == FetchAll(Requests(evs), base, vm)
  {
    var table, refs := Recorded(evs, base), Requests(evs);
    forall i | 0 <= i < |refs|
      ensures PiecesOf(table, vm)[i] == FetchAll(refs, base, vm)[i]
    {
      assert PiecesOf(table, vm)[i] == PieceOf(table[i], vm);
      assert Accepts(evs[i], i, base);
    }
  }

  /** The bytes a successful run sends: the relocated stream, then the records. */
  lemma PayloadParts(s: seq<byte>, base: Base, vm: Mapping, was: seq<byte>,
                     table: seq<DataSegment>, bytes: seq<byte>, ptr: nat)
    requires KernelInput(s, base) && |was| == MARSHALER_BUF_SIZE
    requires Outcome(s, base, vm, was, 0, table, bytes, ptr)
    requires Accepted(Events(s, 0), 0, base) == |Events(s, 0)| && AllInside(table)
    ensures InBounds(Sites(Events(s, 0)), |s|)
    ensures |s| <= ptr <= |bytes| && ptr == |s| + Total(table)
    ensures bytes[..ptr] == Relocated(s, Events(s, 0), base) + Records(table, vm)
  {
    var evs := Events(s, 0);
    assert evs[..|evs|] == evs;
    ResultAfterWalk(s, base);
    assert table[..|table|] == table;
    var walked := Relocated(s, evs, base) + was[|s|..];
    assert walked[..|s|] == Relocated(s, evs, base);
  }

  lemma DecodeJoined(t: seq<byte>, r: seq<byte>, entries: nat, base: Base, stream: seq<byte>, pieces: seq<Piece>)
    requires RestoreStream(t, base) == Some(stream) && DecodeRecords(r, entries) == Some(pieces)
    ensures Decode(t + r, |t|, entries, base) == Some(Message(stream, pieces))
  {
    assert (t + r)[..|t|] == t && (t + r)[|t|..] == r;
  }

  lemma DecodeParts(s: seq<byte>, base: Base, vm: Mapping, table: seq<DataSegment>)
    requires NeverStops(s, 0) && AllInside(table)
    ensures InBounds(Sites(Events(s, 0)), |s|)
    ensures Decode(Relocated(s, Events(s, 0), base) + Records(table, vm), |s|, |table|, base) ==
            Some(Message(s, PiecesOf(table, vm)))
  {
    StreamRestored(s, base);
    RecordsDecode(table, vm);
    DecodeJoined(Relocated(s, Events(s, 0), base), Records(table, vm), |table|, base, s, PiecesOf(table, vm));
  }

  /** The table of a successful run, in terms of the references of the stream. */
  lemma SuccessfulTable(s: seq<byte>, base: Base, vm: Mapping, cmds: seq<Command>) returns (table: seq<DataSegment>)
    requires KernelInput(s, base) && Result(s, base) == 0 && InGrammar(cmds) && Stream(cmds) == s
    ensures Accepted(Events(s, 0), 0, base) == |Events(s, 0)| && NeverStops(s, 0)
    ensures AllAccepted(Events(s, 0), base) && table == Recorded(Events(s, 0), base)
    ensures AllInside(table) && Fetchable(References(cmds), base)
    ensures PiecesOf(table, vm) == FetchAll(References(cmds), base, vm)
    ensures Total(table) == Cost(References(cmds))
  {
    var evs := Events(s, 0);
    TableOfReferences(s, base, cmds);
    GrammarWalk(s, cmds);
    PiecesOfReferences(evs, base, vm);
    table := Recorded(evs, base);
    assert |evs| > 0 ==> Accepts(evs[|evs| - 1], |evs| - 1, base);
    CostIsTotal(evs, base);
  }

  /** Marshal round trip: decoding what was sent gives back the stream, byte for
      byte, and the bytes of every reference in command order. */
  lemma DecodeUndoesMarshal(s: seq<byte>, base: Base, vm: Mapping, was: seq<byte>,
                            table: seq<DataSegment>, bytes: seq<byte>, ptr: nat, cmds: seq<Command>)
    requires KernelInput(s, base) && |was| == MARSHALER_BUF_SIZE
    requires Outcome(s, base, vm, was, 0, table, bytes, ptr)
    requires InGrammar(cmds) && Stream(cmds) == s
    ensures |s| <= ptr == |s| + Cost(References(cmds)) <= |bytes| && Fetchable(References(cmds), base)
    ensures Decode(bytes[..ptr], |s|, |table|, base) == Some(Message(s, FetchAll(References(cmds), base, vm)))
  {
    var recorded := SuccessfulTable(s, base, vm, cmds);
    assert Events(s, 0)[..|Events(s, 0)|] == Events(s, 0);
    assert table == recorded;
    PayloadParts(s, base, vm, was, table, bytes, ptr);
    DecodeParts(s, base, vm, table);
  }

  /** Nothing but pointer words changed in the stream copy, success or not. */
  lemma OnlyPointersChange(s: seq<byte>, k: nat, base: Base, j: nat)
    requires k <= |Events(s, 0)| && AllAccepted(Events(s, 0)[..k], base) && j < |s|
    requires InBounds(Sites(Events(s, 0)[..k]), |s|)
    requires forall i :: 0 <= i < k && Events(s, 0)[i].Segment? ==>
               !(Events(s, 0)[i].site <= j < Events(s, 0)[i].site + 4)
    ensures Relocated(s, Events(s, 0)[..k], base)[j] == s[j]
  {
    var evs := Events(s, 0)[..k];
    forall i | 0 <= i < k
      ensures !(Sites(evs)[i] <= j < Sites(evs)[i] + 4)
    {
      assert evs[i] == Events(s, 0)[i] && Accepts(evs[i], i, base);
    }
    AddAtFrame(s, Sites(evs), Neg32(base), j);
  }

  /** A transaction record that refers to `d` bytes at `ptr` and has no offsets. */
  function DataOnly(d: u32, ptr: u32): (body: seq<byte>)
    ensures |body| == TXN_SIZE
  {
    seq(24, i => 0) + Bytes(d) + Bytes(0) + Bytes(ptr) + Bytes(0)
  }

  lemma DataOnlyReferences(d: u32, ptr: u32)
    requires d != 0
    ensures BodyReferences(DataOnly(d, ptr)) == [Reference(ptr, d)]
  {
    var zeros: seq<byte> := seq(24, i => 0);
    var body := DataOnly(d, ptr);
    WordOfBytes(zeros, d, Bytes(0) + Bytes(ptr) + Bytes(0));
    assert body == zeros + Bytes(d) + (Bytes(0) + Bytes(ptr) + Bytes(0));
    WordOfBytes(zeros + Bytes(d), 0, Bytes(ptr) + Bytes(0));
    assert body == (zeros + Bytes(d)) + Bytes(0) + (Bytes(ptr) + Bytes(0));
    WordOfBytes(zeros + Bytes(d) + Bytes(0), ptr, Bytes(0));
  }

  /** A stream of one reply and then a command the marshaler does not support. */
  lemma UnsupportedTail(s: seq<byte>, body: seq<byte>)
    requires |body| == TXN_SIZE && s == Bytes(BR_REPLY) + body + Bytes(BR_DEAD_REPLY)
    ensures Readable(s, 0) && Events(s, 0) == HeadEvents(s, 0) + [Stop(-1)]
    ensures Leading(HeadEvents(s, 0), |HeadEvents(s, 0)|) && Requests(HeadEvents(s, 0)) == BodyReferences(body)
  {
    assert s[0..] == Encode(Transfer(BR_REPLY, body)) + Bytes(BR_DEAD_REPLY);
    GrammarStep(s, 0, Transfer(BR_REPLY, body), Bytes(BR_DEAD_REPLY));
    WordOfBytes(Bytes(BR_REPLY) + body, BR_DEAD_REPLY, []);
    assert s == (Bytes(BR_REPLY) + body) + Bytes(BR_DEAD_REPLY) + [];
    assert Word(s, 44) == BR_DEAD_REPLY;
  }

  /** A failed run may report recorded entries beside an empty payload: one
      segment is recorded before an unsupported command stops the walk. */
  lemma EntriesWithoutPayload(base: Base) returns (s: seq<byte>)
    ensures KernelInput(s, base) && Result(s, base) < 0 && Accepted(Events(s, 0), 0, base) == 1
  {
    s := Bytes(BR_REPLY) + DataOnly(8, base) + Bytes(BR_DEAD_REPLY);
    UnsupportedTail(s, DataOnly(8, base));
    DataOnlyReferences(8, base);
    var evs := Events(s, 0);
    assert Requests(HeadEvents(s, 0))[0] == Reference(base, 8);
    assert evs[0] == HeadEvents(s, 0)[0] && evs[1] == Stop(-1);
    AcceptedIs(evs, 0, 1, base);
  }
}
