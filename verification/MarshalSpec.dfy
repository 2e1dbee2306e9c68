/** What the venus marshaler does to a command stream, on values: the segments
    a stream asks for, which of them are accepted, the relocated stream and the
    records appended after it. */
module MarshalSpec {
  import opened Words
  import opened Relocation
  import opened BinderProtocol

  const MAX_SEGMENT_NUM := 16
  const MARSHALER_BUF_SIZE := 16384
  const BINDER_VM_SIZE := 4 * 1024 * 1024 - 4096
  const SEGMENT_HEADER := 8

  /** Where the kernel mapped the binder buffer; the mapping ends below 2^32. */
  type Base = b: u32 | b + BINDER_VM_SIZE < TWO32 witness 0

  /** How far behind the start of the mapping a record can reach: its segment starts in the
      mapping, and what is copied fits the buffer. */
  const REACH := BINDER_VM_SIZE + MARSHALER_BUF_SIZE

  /** The mapping, and the memory behind it. */
  type Mapping = vm: seq<byte> | |vm| == REACH witness seq(REACH, i => 0)

  /** A request met while walking the stream: a nonzero segment whose pointer
      word sits at `site`, or a reason to stop. */
  datatype Event =
    | Segment(site: nat, ptr: u32, length: u32)
    | Stop(code: int)

  datatype DataSegment = DataSegment(offset: u32, length: u32)

  predicate IsBare(cmd: u32) {
    cmd == BR_NOOP || cmd == BR_TRANSACTION_COMPLETE || cmd == BR_SPAWN_LOOPER
  }

  /** One half of a transaction record: a size word and a pointer word. */
  function HalfEvents(s: seq<byte>, size: nat, ptr: nat): seq<Event>
    requires size + 4 <= |s| && ptr + 4 <= |s|
  {
    if Word(s, size) != 0 then [Segment(ptr, Word(s, ptr), Word(s, size))] else []
  }

  /** The data buffer first, then the offsets buffer. */
  function TxnEvents(s: seq<byte>, body: nat): seq<Event>
    requires body + TXN_SIZE <= |s|
  {
    HalfEvents(s, body + TXN_DATA_SIZE, body + TXN_BUFFER) +
    HalfEvents(s, body + TXN_OFFSETS_SIZE, body + TXN_OFFSETS)
  }

  lemma TxnSplit(s: seq<byte>, body: nat, rest: seq<Event>)
    requires body + TXN_SIZE <= |s|
    ensures TxnEvents(s, body) + rest ==
            HalfEvents(s, body + TXN_DATA_SIZE, body + TXN_BUFFER) +
            (HalfEvents(s, body + TXN_OFFSETS_SIZE, body + TXN_OFFSETS) + rest)
  {
  }

  /** The walk accepts the command at `p`: it has its command word and, for a
      transaction, its whole record. */
  predicate Readable(s: seq<byte>, p: nat) {
    && p + 4 <= |s|
    && var cmd := Word(s, p);
       IsBare(cmd) || IsRefcount(cmd) || (IsTransfer(cmd) && p + 4 + TXN_SIZE <= |s|)
  }

  /** The events of the command at `p`, and the cursor after it; refcount
      operands are skipped without a bounds check. */
  function HeadEvents(s: seq<byte>, p: nat): seq<Event>
    requires Readable(s, p)
  {
    if IsTransfer(Word(s, p)) then TxnEvents(s, p + 4) else []
  }

  function After(s: seq<byte>, p: nat): (n: nat)
    requires Readable(s, p)
    ensures p < n && n % 4 == p % 4
  {
    if IsBare(Word(s, p)) then p + 4 else if IsTransfer(Word(s, p)) then p + 4 + TXN_SIZE else p + 12
  }

  /** The return code when the command at `p` is not readable. */
  function StopCode(s: seq<byte>, p: nat): (code: int)
    ensures code < 0
  {
    if p + 4 > |s| || IsTransfer(Word(s, p)) then -EFAULT else -1
  }

  /** The events of the stream from cursor `p` on. */
  function Events(s: seq<byte>, p: nat): seq<Event>
    decreases if p < |s| then |s| - p else 0
  {
    if p >= |s| then []
    else if !Readable(s, p) then [Stop(StopCode(s, p))]
    else HeadEvents(s, p) + Events(s, After(s, p))
  }

  /** The other commands are skipped, or the walk stops. */
  lemma OtherEvents(s: seq<byte>, p: nat)
    requires p < |s|
    ensures p + 4 > |s| ==> Events(s, p) == [Stop(-EFAULT)]
    ensures p + 4 <= |s| && !IsTransfer(Word(s, p)) ==>
              Events(s, p) == if IsBare(Word(s, p)) then Events(s, p + 4)
                              else if IsRefcount(Word(s, p)) then Events(s, p + 12)
                              else [Stop(-1)]
  {
  }

  /** A transfer command at `body - 4` is a whole record, or the walk stops at it. */
  lemma TransferEvents(s: seq<byte>, body: nat)
    requires 4 <= body <= |s| && IsTransfer(Word(s, body - 4))
    ensures Events(s, body - 4) == if body + TXN_SIZE <= |s| then TxnEvents(s, body) + Events(s, body + TXN_SIZE)
                                   else [Stop(-EFAULT)]
  {
    assert !IsBare(Word(s, body - 4)) && !IsRefcount(Word(s, body - 4));
  }

  predicate InMapping(ptr: u32, base: Base) {
    base <= ptr < base + BINDER_VM_SIZE
  }

  /** `record_segment` takes event `e` as table entry `n`. */
  predicate Accepts(e: Event, n: nat, base: Base) {
    e.Segment? && n < MAX_SEGMENT_NUM && InMapping(e.ptr, base)
  }

  function Refusal(e: Event, n: nat): int {
    if e.Stop? then e.code else if n >= MAX_SEGMENT_NUM then -ENOMEM else -EFAULT
  }

  /** Number of leading events accepted, counting from event `n`. */
  function Accepted(evs: seq<Event>, n: nat, base: Base): (k: nat)
    requires n <= |evs|
    ensures n <= k <= |evs|
    ensures forall i :: n <= i < k ==> Accepts(evs[i], i, base)
    ensures k < |evs| ==> !Accepts(evs[k], k, base)
    decreases |evs| - n
  {
    if n < |evs| && Accepts(evs[n], n, base) then Accepted(evs, n + 1, base) else n
  }

  predicate AllAccepted(evs: seq<Event>, base: Base) {
    forall i :: 0 <= i < |evs| ==> Accepts(evs[i], i, base)
  }

  function Sites(evs: seq<Event>): (t: seq<nat>)
    ensures |t| == |evs|
  {
    seq(|evs|, i requires 0 <= i < |evs| => if evs[i].Segment? then evs[i].site else 0)
  }

  /** The table entries of accepted events. */
  function Recorded(evs: seq<Event>, base: Base): (d: seq<DataSegment>)
    requires AllAccepted(evs, base)
    ensures |d| == |evs|
    ensures forall i :: 0 <= i < |d| ==> d[i] == DataSegment(evs[i].ptr - base, evs[i].length)
  {
    seq(|evs|, i requires 0 <= i < |evs| => DataSegment(evs[i].ptr - base, evs[i].length))
  }

  /** The stream with the pointer of every listed event turned into an offset. */
  function Relocated(s: seq<byte>, evs: seq<Event>, base: Base): (t: seq<byte>)
    requires InBounds(Sites(evs), |s|)
    ensures |t| == |s|
  {
    AddAt(s, Sites(evs), Neg32(base))
  }

  predicate Inside(d: DataSegment) {
    d.offset + d.length <= REACH
  }

  predicate AllInside(segs: seq<DataSegment>) {
    forall i :: 0 <= i < |segs| ==> Inside(segs[i])
  }

  function Payload(d: DataSegment, vm: Mapping): (b: seq<byte>)
    requires Inside(d)
    ensures |b| == d.length
  {
    vm[d.offset..d.offset + d.length]
  }

  /** `<offset, length, data>`. */
  function Record(d: DataSegment, vm: Mapping): (b: seq<byte>)
    requires Inside(d)
    ensures |b| == SEGMENT_HEADER + d.length
  {
    Bytes(d.offset) + Bytes(d.length) + Payload(d, vm)
  }

  function Total(segs: seq<DataSegment>): nat {
    if segs == [] then 0 else SEGMENT_HEADER + segs[0].length + Total(segs[1..])
  }

  function Records(segs: seq<DataSegment>, vm: Mapping): (b: seq<byte>)
    requires AllInside(segs)
    ensures |b| == Total(segs)
  {
    if segs == [] then [] else Record(segs[0], vm) + Records(segs[1..], vm)
  }

  /** How many of the segments are appended before one no longer fits, the
      write pointer standing at `w`. */
  function Fitting(segs: seq<DataSegment>, w: nat): (k: nat)
    ensures k <= |segs|
  {
    if segs == [] || MARSHALER_BUF_SIZE - w < SEGMENT_HEADER + segs[0].length then 0
    else 1 + Fitting(segs[1..], w + SEGMENT_HEADER + segs[0].length)
  }

  /** The value `marshaler_marshal` returns. */
  function Result(s: seq<byte>, base: Base): int {
    var evs := Events(s, 0);
    var k := Accepted(evs, 0, base);
    if k < |evs| then Refusal(evs[k], k)
    else if |s| + Total(Recorded(evs, base)) <= MARSHALER_BUF_SIZE then 0
    else -1
  }

  /** The first segment that does not fit, if any, is seen not to: the size of its record
      does not wrap around. */
  predicate Refusable(segs: seq<DataSegment>, w: nat) {
    var k := Fitting(segs, w);
    k < |segs| ==> SEGMENT_HEADER + segs[k].length < TWO32
  }

  /** Kernel promise: the read fits the buffer, and if the walk gets through it, the space
      check means what it says. */
  predicate KernelInput(s: seq<byte>, base: Base) {
    var evs := Events(s, 0);
    var k := Accepted(evs, 0, base);
    |s| <= MARSHALER_BUF_SIZE && (k == |evs| ==> Refusable(Recorded(evs[..k], base), |s|))
  }

  /** Every segment starts in the mapping. */
  predicate StartInside(segs: seq<DataSegment>) {
    forall i :: 0 <= i < |segs| ==> segs[i].offset < BINDER_VM_SIZE
  }

  /** What fits is within reach. */
  lemma {:induction false} FittingInside(segs: seq<DataSegment>, w: nat)
    requires StartInside(segs)
    ensures AllInside(segs[..Fitting(segs, w)])
  {
    var k := Fitting(segs, w);
    if k > 0 {
      FittingInside(segs[1..], w + SEGMENT_HEADER + segs[0].length);
      assert segs[..k] == [segs[0]] + segs[1..][..k - 1];
    }
  }

  // ---- Structure of the event list ------------------------------------

  /** Every site is an aligned word of the stream, after the cursor. */
  predicate SitesAfter(evs: seq<Event>, p: nat, n: nat) {
    forall i :: 0 <= i < |evs| && evs[i].Segment? ==> evs[i].site % 4 == 0 && p <= evs[i].site && evs[i].site + 4 <= n
  }

  lemma AfterAppend(a: seq<Event>, b: seq<Event>, p: nat, q: nat, n: nat)
    requires SitesAfter(a, p, n) && SitesAfter(b, q, n) && p <= q
    ensures SitesAfter(a + b, p, n)
  {
  }

  lemma HeadSites(s: seq<byte>, p: nat)
    requires Readable(s, p) && p % 4 == 0
    ensures SitesAfter(HeadEvents(s, p), p, |s|) && SitesIncrease(HeadEvents(s, p))
    ensures forall e :: e in HeadEvents(s, p) ==> e.Segment? && e.site + 4 <= After(s, p)
  {
    if IsTransfer(Word(s, p)) {
      TxnSites(s, p + 4);
      var evs := HeadEvents(s, p);
      forall i | 0 <= i < |evs| && evs[i].Segment?
        ensures evs[i].site % 4 == 0 && p <= evs[i].site && evs[i].site + 4 <= |s|
      {
        assert evs[i] in evs;
      }
    }
  }

  lemma TxnSites(s: seq<byte>, body: nat)
    requires body + TXN_SIZE <= |s|
    ensures SitesIncrease(TxnEvents(s, body))
    ensures forall e :: e in TxnEvents(s, body) ==>
              e.Segment? && (e.site == body + TXN_BUFFER || e.site == body + TXN_OFFSETS)
  {
    PairSites(HalfEvents(s, body + TXN_DATA_SIZE, body + TXN_BUFFER),
              HalfEvents(s, body + TXN_OFFSETS_SIZE, body + TXN_OFFSETS), body + TXN_BUFFER, body + TXN_OFFSETS);
  }

  lemma PairSites(a: seq<Event>, b: seq<Event>, x: nat, y: nat)
    requires |a| <= 1 && (a != [] ==> a[0].Segment? && a[0].site == x)
    requires |b| <= 1 && (b != [] ==> b[0].Segment? && b[0].site == y)
    requires x + 4 <= y
    ensures SitesIncrease(a + b)
    ensures forall e :: e in a + b ==> e.Segment? && (e.site == x || e.site == y)
  {
  }

  lemma {:induction false} EventSites(s: seq<byte>, p: nat)
    requires p % 4 == 0
    ensures SitesAfter(Events(s, p), p, |s|)
    decreases if p < |s| then |s| - p else 0
  {
    if p < |s| && Readable(s, p) {
      EventSites(s, After(s, p));
      HeadSites(s, p);
      AfterAppend(HeadEvents(s, p), Events(s, After(s, p)), p, After(s, p), |s|);
    }
  }

  /** Sites appear in strictly increasing order and never overlap. */
  predicate SitesIncrease(evs: seq<Event>) {
    forall i, j :: 0 <= i < j < |evs| && evs[i].Segment? && evs[j].Segment? ==> evs[i].site + 4 <= evs[j].site
  }

  lemma IncreaseAppend(a: seq<Event>, b: seq<Event>, p: nat, n: nat)
    requires SitesIncrease(a) && SitesIncrease(b) && SitesAfter(b, p, n)
    requires forall i :: 0 <= i < |a| && a[i].Segment? ==> a[i].site + 4 <= p
    ensures SitesIncrease(a + b)
  {
    var c := a + b;
    forall i, j | 0 <= i < j < |c| && c[i].Segment? && c[j].Segment?
      ensures c[i].site + 4 <= c[j].site
    {
      if j < |a| {
        assert c[i] == a[i] && c[j] == a[j];
      } else if i < |a| {
        assert c[i] == a[i] && c[j] == b[j - |a|];
      } else {
        assert c[i] == b[i - |a|] && c[j] == b[j - |a|];
      }
    }
  }

  lemma {:induction false} EventSitesIncrease(s: seq<byte>, p: nat)
    requires p % 4 == 0
    ensures SitesIncrease(Events(s, p))
    decreases if p < |s| then |s| - p else 0
  {
    if p < |s| && Readable(s, p) {
      EventSites(s, After(s, p));
      EventSitesIncrease(s, After(s, p));
      HeadSites(s, p);
      IncreaseAppend(HeadEvents(s, p), Events(s, After(s, p)), After(s, p), |s|);
    }
  }

  /** A word that no listed site touches still reads as in the original stream. */
  lemma WordStays(s: seq<byte>, evs: seq<Event>, base: Base, at: nat)
    requires InBounds(Sites(evs), |s|) && at + 4 <= |s|
    requires forall i :: 0 <= i < |evs| ==> Sites(evs)[i] + 4 <= at || at + 4 <= Sites(evs)[i]
    ensures Word(Relocated(s, evs, base), at) == Word(s, at)
  {
    forall j: nat | at <= j < at + 4
      ensures Relocated(s, evs, base)[j] == s[j]
    {
      AddAtFrame(s, Sites(evs), Neg32(base), j);
    }
  }

  lemma OffsetOf(ptr: u32, base: Base)
    requires InMapping(ptr, base)
    ensures Add32(ptr, Neg32(base)) == ptr - base
  {
  }

  /** Where the events of a stream of `n` bytes have their pointer words. */
  predicate Placed(evs: seq<Event>, n: nat) {
    SitesAfter(evs, 0, n) && SitesIncrease(evs)
  }

  lemma EventsPlaced(s: seq<byte>)
    ensures Placed(Events(s, 0), |s|)
  {
    EventSites(s, 0);
    EventSitesIncrease(s, 0);
  }

  predicate Leading(evs: seq<Event>, k: nat) {
    k <= |evs| && forall i :: 0 <= i < k ==> evs[i].Segment?
  }

  lemma SitesOk(evs: seq<Event>, k: nat, n: nat)
    requires Placed(evs, n) && Leading(evs, k)
    ensures InBounds(Sites(evs[..k]), n) && Aligned(Sites(evs[..k]))
  {
  }

  lemma RecordedAppend(evs: seq<Event>, k: nat, base: Base)
    requires k < |evs| && AllAccepted(evs[..k + 1], base)
    ensures AllAccepted(evs[..k], base)
    ensures Recorded(evs[..k + 1], base) == Recorded(evs[..k], base) + [DataSegment(evs[k].ptr - base, evs[k].length)]
  {
    assert forall i :: 0 <= i < k ==> evs[..k][i] == evs[..k + 1][i];
    assert evs[..k + 1][k] == evs[k];
  }

  lemma SitesSnoc(evs: seq<Event>, k: nat)
    requires Leading(evs, k + 1)
    ensures Sites(evs[..k + 1]) == Sites(evs[..k]) + [evs[k].site]
  {
  }

  /** Every one of the first `k` sites is clear of the word at `at`. */
  predicate ClearOfSites(evs: seq<Event>, k: nat, at: nat) {
    Leading(evs, k) && forall i :: 0 <= i < k ==> evs[i].site + 4 <= at || at + 4 <= evs[i].site
  }

  /** What the walk reads at a word clear of the recorded sites is original. */
  lemma ReadsOriginal(s: seq<byte>, evs: seq<Event>, k: nat, at: nat, base: Base, tail: seq<byte>)
    requires Placed(evs, |s|) && ClearOfSites(evs, k, at) && at + 4 <= |s|
    requires InBounds(Sites(evs[..k]), |s|)
    ensures Word(Relocated(s, evs[..k], base) + tail, at) == Word(s, at)
  {
    forall i | 0 <= i < k
      ensures Sites(evs[..k])[i] + 4 <= at || at + 4 <= Sites(evs[..k])[i]
    {
      assert evs[..k][i] == evs[i];
    }
    WordStays(s, evs[..k], base, at);
    WordInPrefix(Relocated(s, evs[..k], base), tail, at, 0);
  }

  /** The marshaler after `k` events: its segment table and its buffer, the
      stream copy followed by `tail`. */
  predicate WalkState(s: seq<byte>, evs: seq<Event>, k: nat, base: Base,
                      table: seq<DataSegment>, bytes: seq<byte>, tail: seq<byte>) {
    && k <= |evs| && AllAccepted(evs[..k], base)
    && table == Recorded(evs[..k], base)
    && InBounds(Sites(evs[..k]), |s|)
    && bytes == Relocated(s, evs[..k], base) + tail
  }

  lemma FreshWalk(s: seq<byte>, evs: seq<Event>, base: Base, tail: seq<byte>)
    ensures WalkState(s, evs, 0, base, [], s + tail, tail)
  {
    assert evs[..0] == [] && Sites([]) == [];
  }

  /** Recording one more event: one table entry, one pointer word. */
  lemma WalkStep(s: seq<byte>, evs: seq<Event>, k: nat, base: Base,
                 table: seq<DataSegment>, bytes: seq<byte>, tail: seq<byte>)
    requires Placed(evs, |s|) && k < |evs| && WalkState(s, evs, k, base, table, bytes, tail)
    requires evs[k].Segment? && evs[k].site + 4 <= |s| && Word(s, evs[k].site) == evs[k].ptr
    ensures evs[k].site + 4 <= |bytes| && Word(bytes, evs[k].site) == evs[k].ptr
    ensures Accepts(evs[k], k, base) ==>
              WalkState(s, evs, k + 1, base, table + [DataSegment(evs[k].ptr - base, evs[k].length)],
                        PutWord(bytes, evs[k].site, evs[k].ptr - base), tail)
  {
    var at := evs[k].site;
    var t := Relocated(s, evs[..k], base);
    assert forall i :: 0 <= i < k ==> evs[i] == evs[..k][i];
    assert Leading(evs, k + 1);
    ReadsOriginal(s, evs, k, at, base, tail);
    if Accepts(evs[k], k, base) {
      SitesOk(evs, k + 1, |s|);
      assert forall i :: 0 <= i <= k ==> evs[..k + 1][i] == evs[i];
      RecordedAppend(evs, k, base);
      SitesSnoc(evs, k);
      AddAtSnoc(s, Sites(evs[..k]), at, Neg32(base));
      OffsetOf(evs[k].ptr, base);
      WordInPrefix(t, tail, at, evs[k].ptr - base);
    }
  }

  lemma {:induction false} StopsNegative(s: seq<byte>, p: nat, i: nat)
    requires i < |Events(s, p)| && Events(s, p)[i].Stop?
    ensures Events(s, p)[i].code < 0
    decreases if p < |s| then |s| - p else 0
  {
    if p < |s| && Readable(s, p) {
      var head := HeadEvents(s, p);
      StopsNegative(s, After(s, p), i - |head|);
    }
  }

  lemma {:induction false} TotalAppend(a: seq<DataSegment>, d: DataSegment)
    ensures Total(a + [d]) == Total(a) + SEGMENT_HEADER + d.length
  {
    if a != [] {
      assert (a + [d])[1..] == a[1..] + [d];
      TotalAppend(a[1..], d);
    }
  }

  lemma {:induction false} AllFit(segs: seq<DataSegment>, w: nat)
    requires w <= MARSHALER_BUF_SIZE
    ensures Fitting(segs, w) == |segs| <==> w + Total(segs) <= MARSHALER_BUF_SIZE
  {
    if segs != [] && SEGMENT_HEADER + segs[0].length <= MARSHALER_BUF_SIZE - w {
      AllFit(segs[1..], w + SEGMENT_HEADER + segs[0].length);
    }
  }

  lemma {:induction false} RecordsAppend(a: seq<DataSegment>, d: DataSegment, vm: Mapping)
    requires AllInside(a) && Inside(d)
    ensures Records(a + [d], vm) == Records(a, vm) + Record(d, vm)
  {
    if a != [] {
      assert (a + [d])[1..] == a[1..] + [d];
      RecordsAppend(a[1..], d, vm);
    } else {
      assert [d][1..] == [];
    }
  }

  /** A buffer that held `was`, after the first `k` records were appended at `w`:
      only the bytes between `w` and the write pointer `ptr` differ. */
  predicate Appended(segs: seq<DataSegment>, k: nat, vm: Mapping, was: seq<byte>, w: nat, bytes: seq<byte>, ptr: nat) {
    && k <= |segs| && AllInside(segs[..k])
    && w <= ptr == w + Total(segs[..k]) <= |was|
    && bytes == was[..w] + Records(segs[..k], vm) + was[ptr..]
  }

  /** Growing the middle of a buffer: first `mid`, then `more`. */
  lemma GrowMiddle(was: seq<byte>, w: nat, mid: seq<byte>, more: seq<byte>)
    requires w + |mid| + |more| <= |was|
    ensures var b := was[..w] + mid + was[w + |mid|..];
            b[..w + |mid|] + more + b[w + |mid| + |more|..] == was[..w] + (mid + more) + was[w + |mid| + |more|..]
  {
    var at := w + |mid|;
    var b := was[..w] + mid + was[at..];
    assert b[..at] == was[..w] + mid;
    assert b[at + |more|..] == was[at + |more|..];
  }

  lemma AppendOne(segs: seq<DataSegment>, k: nat, vm: Mapping, was: seq<byte>, w: nat, bytes: seq<byte>, ptr: nat)
    requires Appended(segs, k, vm, was, w, bytes, ptr) && k < |segs| && Inside(segs[k])
    requires ptr + SEGMENT_HEADER + segs[k].length <= |was|
    ensures var next := ptr + SEGMENT_HEADER + segs[k].length;
            Appended(segs, k + 1, vm, was, w, bytes[..ptr] + Record(segs[k], vm) + bytes[next..], next)
  {
    assert segs[..k + 1] == segs[..k] + [segs[k]];
    TotalAppend(segs[..k], segs[k]);
    RecordsAppend(segs[..k], segs[k], vm);
    GrowMiddle(was, w, Records(segs[..k], vm), Record(segs[k], vm));
  }

  lemma FittingStep(segs: seq<DataSegment>, i: nat, w: nat)
    requires i < |segs|
    ensures Fitting(segs[i..], w) == if MARSHALER_BUF_SIZE - w < SEGMENT_HEADER + segs[i].length then 0
                                     else 1 + Fitting(segs[i + 1..], w + SEGMENT_HEADER + segs[i].length)
  {
    assert segs[i..][1..] == segs[i + 1..];
  }

  lemma AcceptedIs(evs: seq<Event>, n: nat, k: nat, base: Base)
    requires n <= k <= |evs|
    requires forall i :: n <= i < k ==> Accepts(evs[i], i, base)
    requires k < |evs| ==> !Accepts(evs[k], k, base)
    ensures Accepted(evs, n, base) == k
  {
  }

  /** What the marshaler holds when it returns `ret` on stream `s`: `was` is the
      buffer before the call. */
  predicate Outcome(s: seq<byte>, base: Base, vm: Mapping, was: seq<byte>,
                    ret: int, table: seq<DataSegment>, bytes: seq<byte>, ptr: nat)
    requires KernelInput(s, base) && |was| == MARSHALER_BUF_SIZE
  {
    var evs := Events(s, 0);
    var k := Accepted(evs, 0, base);
    && ret == Result(s, base)
    && table == Recorded(evs[..k], base)
    && InBounds(Sites(evs[..k]), |s|)
    && var walked := Relocated(s, evs[..k], base) + was[|s|..];
       if k < |evs| then bytes == walked && ptr == |s|
       else Appended(table, Fitting(table, |s|), vm, walked, |s|, bytes, ptr)
  }

  /** The walk was refused: nothing is appended. */
  lemma RefusedOutcome(s: seq<byte>, base: Base, vm: Mapping, was: seq<byte>, k: nat,
                       ret: int, table: seq<DataSegment>, bytes: seq<byte>)
    requires KernelInput(s, base) && |was| == MARSHALER_BUF_SIZE && k < |Events(s, 0)|
    requires WalkState(s, Events(s, 0), k, base, table, bytes, was[|s|..])
    requires !Accepts(Events(s, 0)[k], k, base) && ret == Refusal(Events(s, 0)[k], k)
    ensures Outcome(s, base, vm, was, ret, table, bytes, |s|)
  {
    WalkAccepted(s, k, base, table, bytes, was[|s|..]);
  }

  lemma WalkAccepted(s: seq<byte>, k: nat, base: Base, table: seq<DataSegment>, bytes: seq<byte>, tail: seq<byte>)
    requires WalkState(s, Events(s, 0), k, base, table, bytes, tail)
    requires k < |Events(s, 0)| ==> !Accepts(Events(s, 0)[k], k, base)
    ensures Accepted(Events(s, 0), 0, base) == k
  {
    var evs := Events(s, 0);
    assert forall i :: 0 <= i < k ==> evs[..k][i] == evs[i];
    AcceptedIs(evs, 0, k, base);
  }

  /** The walk went through: the records follow as far as they fit. */
  lemma AppendedOutcome(s: seq<byte>, base: Base, vm: Mapping, was: seq<byte>,
                        ret: int, table: seq<DataSegment>, walked: seq<byte>, bytes: seq<byte>, ptr: nat)
    requires KernelInput(s, base) && |was| == MARSHALER_BUF_SIZE
    requires WalkState(s, Events(s, 0), |Events(s, 0)|, base, table, walked, was[|s|..])
    requires Appended(table, Fitting(table, |s|), vm, walked, |s|, bytes, ptr)
    requires ret == if Fitting(table, |s|) == |table| then 0 else -1
    ensures Outcome(s, base, vm, was, ret, table, bytes, ptr)
  {
    WalkAccepted(s, |Events(s, 0)|, base, table, walked, was[|s|..]);
    assert Events(s, 0)[..|Events(s, 0)|] == Events(s, 0);
    ResultAfterWalk(s, base);
  }

  /** Every recorded segment starts in the mapping, and the space check will do. */
  lemma TableStartsInside(s: seq<byte>, base: Base, table: seq<DataSegment>, bytes: seq<byte>, tail: seq<byte>)
    requires KernelInput(s, base) && WalkState(s, Events(s, 0), |Events(s, 0)|, base, table, bytes, tail)
    ensures StartInside(table) && Refusable(table, |s|)
  {
    WalkAccepted(s, |Events(s, 0)|, base, table, bytes, tail);
    RecordedStart(Events(s, 0)[..|Events(s, 0)|], base);
  }

  lemma RecordedStart(evs: seq<Event>, base: Base)
    requires AllAccepted(evs, base)
    ensures StartInside(Recorded(evs, base))
  {
    forall i | 0 <= i < |evs|
      ensures Recorded(evs, base)[i].offset < BINDER_VM_SIZE
    {
      assert Accepts(evs[i], i, base);
    }
  }

  lemma ResultAfterWalk(s: seq<byte>, base: Base)
    requires |s| <= MARSHALER_BUF_SIZE && Accepted(Events(s, 0), 0, base) == |Events(s, 0)|
    ensures AllAccepted(Events(s, 0), base)
    ensures Result(s, base) == 0 <==> Fitting(Recorded(Events(s, 0), base), |s|) == |Events(s, 0)|
  {
    AllFit(Recorded(Events(s, 0), base), |s|);
  }
}
