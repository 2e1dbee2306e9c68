/** Upcalls on the wire: how the dispatcher splits a buffer into frames and which
    worker each frame goes to. */
module Upcalls {
  import opened Words

  const WORKER_NUM := 20
  /** Shifting a handle right by HANDLE_SHIFT, 13, divides by this. */
  const HANDLE_UNIT := 0x2000

  /** The opcodes of the venus protocol; only their being distinct, and below the
      call count, matters. */
  const CLOSE: u32 := 0
  const PIPE: u32 := 1
  const SOCKET: u32 := 2
  const POLL: u32 := 3
  const BINDER_WRITE_READ: u32 := 4
  const ALIEN_MMAP2: u32 := 5
  const FUTEX_WAIT: u32 := 6
  const FUTEX_WAKE: u32 := 7
  /** One more opcode, the registration of a helper, is below it. */
  const CALL_COUNT: u32 := 9

  /** The header: opcode, then payload size. */
  const HDR := 8

  predicate IsAsync(opcode: u32) {
    opcode == SOCKET || opcode == BINDER_WRITE_READ || opcode == POLL || opcode == FUTEX_WAIT || opcode == FUTEX_WAKE
  }

  /** The numbers of client threads: handles shifted right. */
  const THREADS := TWO32 / HANDLE_UNIT
  type Thread = i: nat | i < THREADS

  /** The client thread behind a handle. */
  function ThreadIndex(handle: u32): Thread {
    handle / HANDLE_UNIT
  }

  /** `find_worker`. */
  function FindWorker(opcode: u32, handle: u32): (w: Option<nat>)
    ensures w.Some? ==> w.value < WORKER_NUM
  {
    if opcode >= CALL_COUNT then None
    else if IsAsync(opcode) then Some(ThreadIndex(handle) % (WORKER_NUM - 1))
    else Some(WORKER_NUM - 1)
  }

  /** Who gets what, opcode by opcode: the calls that may block go by client thread, the
      others all to the last worker, and opcodes from 9 on to nobody. */
  lemma Routing(handle: u32)
    ensures FindWorker(SOCKET, handle) == Some(handle / 8192 % 19)
    ensures FindWorker(BINDER_WRITE_READ, handle) == Some(handle / 8192 % 19)
    ensures FindWorker(POLL, handle) == Some(handle / 8192 % 19)
    ensures FindWorker(FUTEX_WAIT, handle) == Some(handle / 8192 % 19)
    ensures FindWorker(FUTEX_WAKE, handle) == Some(handle / 8192 % 19)
    ensures FindWorker(CLOSE, handle) == FindWorker(PIPE, handle) == FindWorker(ALIEN_MMAP2, handle) == Some(19)
    ensures FindWorker(8, handle) == Some(19)
    ensures forall opcode: u32 :: opcode >= 9 ==> FindWorker(opcode, handle) == None
  {
  }

  datatype Upcall = Upcall(opcode: u32, payload: seq<byte>)

  /** A call of `post_upcall`: the worker `find_worker` gives, and the frame copied for it. */
  datatype Post = Post(worker: Option<nat>, frame: seq<byte>)

  function Encode(u: Upcall): (b: seq<byte>)
    requires HDR + |u.payload| < TWO32
    ensures |b| == HDR + |u.payload|
  {
    Bytes(u.opcode) + Bytes(|u.payload|) + u.payload
  }

  /** An upcall a client may send: its size fits the header field, and the handle
      comes first in the payload of an asynchronous call. */
  predicate Sendable(u: Upcall) {
    HDR + |u.payload| < TWO32 && (IsAsync(u.opcode) ==> |u.payload| >= 4)
  }

  function HandleOf(u: Upcall): u32 {
    if |u.payload| >= 4 then Word(u.payload, 0) else 0
  }

  function WorkerOf(u: Upcall): (w: Option<nat>)
    ensures w.Some? ==> w.value < WORKER_NUM
  {
    FindWorker(u.opcode, HandleOf(u))
  }

  /** The post that hands exactly upcall `u` to its worker. */
  function PostOf(u: Upcall): Post
    requires Sendable(u)
  {
    Post(WorkerOf(u), Encode(u))
  }

  // ---- The dispatcher loop -----------------------------------------------

  /** The frame size the code computes, in 32 bits. */
  function FrameSize(m: seq<byte>, p: nat): nat
    requires p + HDR <= |m|
  {
    Add32(HDR, Word(m, p + 4))
  }

  /** The buffer is read up to `end`; a header, and the handle after it, may reach
      into the memory behind. */
  predicate Readable(m: seq<byte>, end: nat) {
    end + HDR + 4 <= |m|
  }

  /** A whole frame starts at `p`, and the loop advances over it. */
  predicate Whole(m: seq<byte>, p: nat, end: nat)
    requires Readable(m, end)
  {
    p < end && 0 < FrameSize(m, p) && p + FrameSize(m, p) <= end
  }

  function PostAt(m: seq<byte>, p: nat): (x: Post)
    requires p + HDR + 4 <= |m| && p + FrameSize(m, p) <= |m|
  {
    Post(FindWorker(Word(m, p), Word(m, p + HDR)), m[p..p + FrameSize(m, p)])
  }

  /** What is posted from `p` on. */
  function Posts(m: seq<byte>, p: nat, end: nat): seq<Post>
    requires Readable(m, end)
    decreases if p < end then end - p else 0
  {
    if Whole(m, p, end) then [PostAt(m, p)] + Posts(m, p + FrameSize(m, p), end) else []
  }

  /** Where the loop stops when it starts at `p`. */
  function Stop(m: seq<byte>, p: nat, end: nat): nat
    requires Readable(m, end)
    decreases if p < end then end - p else 0
  {
    if Whole(m, p, end) then Stop(m, p + FrameSize(m, p), end) else p
  }

  /** It stops where no whole frame starts, and not past the end. */
  lemma {:induction false} StopsThere(m: seq<byte>, p: nat, end: nat)
    requires Readable(m, end)
    ensures var q := Stop(m, p, end); !Whole(m, q, end) && p <= q && (p <= end ==> q <= end)
    decreases if p < end then end - p else 0
  {
    if Whole(m, p, end) {
      StopsThere(m, p + FrameSize(m, p), end);
    }
  }

  /** The buffer lies at address `base` of the 32-bit address space. */
  predicate InMemory(m: seq<byte>, base: u32, end: nat) {
    Readable(m, end) && base + |m| <= TWO32
  }

  /** The address `ptr + s` that the code computes at `p`. */
  function NextAddress(m: seq<byte>, base: u32, p: nat): u32
    requires p + HDR <= |m| && base + |m| <= TWO32
  {
    Add32(base + p, FrameSize(m, p))
  }

  /** The loop turns at `p` and does not find the message malformed. */
  predicate Turns(m: seq<byte>, base: u32, p: nat, end: nat)
    requires InMemory(m, base, end)
  {
    p < end && NextAddress(m, base, p) <= base + end
  }

  /** Every turn of the loop from `p` on moves it forward. */
  predicate Advances(m: seq<byte>, base: u32, p: nat, end: nat)
    requires InMemory(m, base, end)
    decreases if p < end then end - p else 0
  {
    Turns(m, base, p, end) ==>
      NextAddress(m, base, p) > base + p && Advances(m, base, NextAddress(m, base, p) - base, end)
  }

  /** The loop that starts at `p` gets to `q`, moving forward. */
  predicate Visits(m: seq<byte>, base: u32, p: nat, end: nat, q: nat)
    requires InMemory(m, base, end)
    decreases if p < end then end - p else 0
  {
    q == p ||
    (Turns(m, base, p, end) && NextAddress(m, base, p) > base + p && Visits(m, base, NextAddress(m, base, p) - base, end, q))
  }

  class Dispatcher {
    /** The calls of `post_upcall` so far. */
    var posted: seq<Post>

    /** The inner loop of `dispatcher_loop` over one read of `end` bytes. */
    method Dispatch(buf: seq<byte>, base: u32, end: nat) returns (r: int)
      requires InMemory(buf, base, end) && Advances(buf, base, 0, end)
      modifies this`posted
      ensures posted == old(posted) + Posts(buf, 0, end)
      ensures r == if Stop(buf, 0, end) < end then -1 else 0
    {
      ghost var all, stop := Posts(buf, 0, end), Stop(buf, 0, end);
      var ptr := 0;
      while ptr < end
        invariant posted + Posts(buf, ptr, end) == old(posted) + all
        invariant Stop(buf, ptr, end) == stop && Advances(buf, base, ptr, end) == Advances(buf, base, 0, end)
        decreases end - ptr
      {
        ghost var q := Advance(buf, base, ptr, end);
        var next := NextAddress(buf, base, ptr);
        if next > base + end {
          return -1;
        }
        var x := PostAt(buf, ptr);
        Concat(posted, x, Posts(buf, q, end));
        posted := posted + [x];
        ptr := next - base;
      }
      return 0;
    }

    /** `dispatcher_loop`, over what the driver supplies; no result while it is blocked
        in the driver. */
    method Loop(ios: seq<Ioctl>, base: u32) returns (res: Option<int>)
      requires MovesOn(ios, base)
      modifies this`posted
      ensures posted == old(posted) + LoopPosts(ios) && res == LoopResult(ios)
    {
      var i := 0;
      assert ios[0..] == ios;
      while i < |ios|
        invariant 0 <= i <= |ios|
        invariant posted + LoopPosts(ios[i..]) == old(posted) + LoopPosts(ios)
        invariant LoopResult(ios[i..]) == LoopResult(ios)
      {
        var io := ios[i];
        ghost var before, rest := posted, ios[i + 1..];
        LoopStep(ios[i..], io, rest);
        if io.r != 0 {
          return Some(io.r);
        }
        var r := Dispatch(io.buf, base, io.end);
        Associative(before, Posts(io.buf, 0, io.end), LoopPosts(rest));
        if r != 0 {
          return Some(r);
        }
        i := i + 1;
      }
      return None;
    }
  }

  /** What one `ioctl` gives the dispatcher: its result, and a buffer of which `end` bytes
      were read. */
  datatype Ioctl = Ioctl(r: int, buf: seq<byte>, end: nat)

  predicate AllReadable(ios: seq<Ioctl>) {
    forall i :: 0 <= i < |ios| && ios[i].r == 0 ==> Readable(ios[i].buf, ios[i].end)
  }

  /** The inner loop moves forward on every read. */
  predicate MovesOn(ios: seq<Ioctl>, base: u32) {
    forall i :: 0 <= i < |ios| && ios[i].r == 0 ==>
      InMemory(ios[i].buf, base, ios[i].end) && Advances(ios[i].buf, base, 0, ios[i].end)
  }

  /** What is posted over the reads, up to the first that fails or is malformed. */
  function LoopPosts(ios: seq<Ioctl>): seq<Post>
    requires AllReadable(ios)
  {
    if ios == [] || ios[0].r != 0 then []
    else
      var io := ios[0];
      Posts(io.buf, 0, io.end) + if Stop(io.buf, 0, io.end) < io.end then [] else LoopPosts(ios[1..])
  }

  function LoopResult(ios: seq<Ioctl>): Option<int>
    requires AllReadable(ios)
  {
    if ios == [] then None
    else if ios[0].r != 0 then Some(ios[0].r)
    else if Stop(ios[0].buf, 0, ios[0].end) < ios[0].end then Some(-1)
    else LoopResult(ios[1..])
  }

  lemma LoopStep(ios: seq<Ioctl>, io: Ioctl, rest: seq<Ioctl>)
    requires AllReadable(ios) && ios != [] && io == ios[0] && rest == ios[1..]
    ensures AllReadable(rest)
    ensures if io.r != 0 then LoopPosts(ios) == [] && LoopResult(ios) == Some(io.r)
            else if Stop(io.buf, 0, io.end) < io.end then
              LoopPosts(ios) == Posts(io.buf, 0, io.end) && LoopResult(ios) == Some(-1)
            else
              LoopPosts(ios) == Posts(io.buf, 0, io.end) + LoopPosts(rest) && LoopResult(ios) == LoopResult(rest)
  {
  }

  /** One turn of the loop: it is over, or goes on at `q`, behind the frame at `p`. */
  lemma Advance(m: seq<byte>, base: u32, p: nat, end: nat) returns (q: nat)
    requires InMemory(m, base, end) && Advances(m, base, p, end) && p < end
    ensures NextAddress(m, base, p) > base + end ==> Stop(m, p, end) == p && Posts(m, p, end) == []
    ensures NextAddress(m, base, p) <= base + end ==>
              && p < q <= end && NextAddress(m, base, p) == base + q && p + FrameSize(m, p) == q
              && Posts(m, p, end) == [PostAt(m, p)] + Posts(m, q, end) && Stop(m, p, end) == Stop(m, q, end)
              && Advances(m, base, p, end) == Advances(m, base, q, end)
  {
    q := p + FrameSize(m, p);
    TurnExactly(m, base, p, end);
    if Whole(m, p, end) {
      GoesOn(m, base, p, q, end);
    } else {
      Stops(m, p, end);
    }
  }

  lemma GoesOn(m: seq<byte>, base: u32, p: nat, q: nat, end: nat)
    requires InMemory(m, base, end) && Whole(m, p, end) && q == p + FrameSize(m, p)
    ensures Posts(m, p, end) == [PostAt(m, p)] + Posts(m, q, end) && Stop(m, p, end) == Stop(m, q, end)
    ensures Advances(m, base, p, end) == Advances(m, base, q, end)
  {
    PostsCons(m, p, end);
    AdvancesOn(m, base, p, end);
  }

  lemma Stops(m: seq<byte>, p: nat, end: nat)
    requires Readable(m, end) && !Whole(m, p, end)
    ensures Posts(m, p, end) == [] && Stop(m, p, end) == p
  {
  }

  lemma AdvancesOn(m: seq<byte>, base: u32, p: nat, end: nat)
    requires InMemory(m, base, end) && Whole(m, p, end)
    ensures Advances(m, base, p, end) <==> Advances(m, base, p + FrameSize(m, p), end)
  {
    TurnExactly(m, base, p, end);
  }

  lemma Concat(a: seq<Post>, x: Post, b: seq<Post>)
    ensures a + [x] + b == a + ([x] + b)
  {
    Associative(a, [x], b);
  }

  // ---- When the loop moves forward ---------------------------------------

  /** The frame at `p` ends past the end of memory: header, size and address add up to
      2^32 or more, and the size alone does not wrap around to one of 1 to 7. */
  predicate Wraps(m: seq<byte>, base: u32, p: nat)
    requires p + HDR <= |m|
  {
    base + p + HDR + Word(m, p + 4) >= TWO32 && Word(m, p + 4) <= TWO32 - HDR
  }

  /** One turn: it goes forward just over the whole frames, and stands still or goes
      back just at the headers that wrap. */
  lemma TurnExactly(m: seq<byte>, base: u32, p: nat, end: nat)
    requires InMemory(m, base, end) && p < end
    ensures Turns(m, base, p, end) && NextAddress(m, base, p) > base + p <==> Whole(m, p, end)
    ensures Turns(m, base, p, end) && NextAddress(m, base, p) <= base + p <==> Wraps(m, base, p)
    ensures Whole(m, p, end) ==> NextAddress(m, base, p) == base + p + FrameSize(m, p)
  {
    Sums(base + p, Word(m, p + 4));
  }

  lemma Sums(at: nat, size: u32)
    requires at + HDR <= TWO32
    ensures var s := (HDR + size) % TWO32;
            && s == (if HDR + size < TWO32 then HDR + size else HDR + size - TWO32)
            && (at + s) % TWO32 == (if at + s < TWO32 then at + s else at + s - TWO32)
  {
  }

  /** The loop moves forward at every turn if and only if it meets no header that
      wraps. At the first such header it starts over at or before the same place. */
  lemma {:induction false} AdvancesExactly(m: seq<byte>, base: u32, p: nat, end: nat)
    requires InMemory(m, base, end)
    ensures Advances(m, base, p, end) <==> forall q: nat :: Visits(m, base, p, end, q) && q < end ==> !Wraps(m, base, q)
    decreases if p < end then end - p else 0
  {
    assert Visits(m, base, p, end, p);
    if p < end {
      TurnExactly(m, base, p, end);
      if Whole(m, p, end) {
        var next := NextAddress(m, base, p) - base;
        AdvancesExactly(m, base, next, end);
        assert forall q: nat :: Visits(m, base, p, end, q) <==> q == p || Visits(m, base, next, end, q);
      }
    }
  }

  /** A header can stand still: with this payload size the next frame starts where
      this one does, wherever the buffer lies. */
  lemma StandsStill(opcode: u32, behind: seq<byte>, base: u32)
    requires |behind| >= HDR + 4 && base + HDR + |behind| <= TWO32
    ensures var m := Bytes(opcode) + Bytes(TWO32 - HDR) + behind;
            InMemory(m, base, HDR) && Turns(m, base, 0, HDR) && NextAddress(m, base, 0) == base
  {
    var m := Bytes(opcode) + Bytes(TWO32 - HDR) + behind;
    WordOfBytes(Bytes(opcode), TWO32 - HDR, behind);
    assert Word(m, 0 + 4) == TWO32 - HDR;
    Sums(base, TWO32 - HDR);
    assert FrameSize(m, 0) == 0;
  }

  /** Not every size that wraps around does so: this one makes a frame of seven bytes,
      and the loop goes on behind them. */
  lemma ShortWrapAdvances(opcode: u32, behind: seq<byte>, base: u32)
    requires |behind| >= HDR + 4 && base + HDR + |behind| <= TWO32
    ensures var m := Bytes(opcode) + Bytes(TWO32 - 1) + behind;
            && InMemory(m, base, HDR) && base + HDR + Word(m, 4) >= TWO32
            && Turns(m, base, 0, HDR) && NextAddress(m, base, 0) == base + 7
  {
    var m := Bytes(opcode) + Bytes(TWO32 - 1) + behind;
    WordOfBytes(Bytes(opcode), TWO32 - 1, behind);
    assert Word(m, 0 + 4) == TWO32 - 1;
    Sums(base, TWO32 - 1);
    assert FrameSize(m, 0) == 7;
  }

  // ---- Frames against their encoding -------------------------------------

  predicate AllSendable(us: seq<Upcall>) {
    forall i :: 0 <= i < |us| ==> Sendable(us[i])
  }

  function EncodeAll(us: seq<Upcall>): seq<byte>
    requires AllSendable(us)
  {
    if us == [] then []
    else
      assert Sendable(us[0]);
      Encode(us[0]) + EncodeAll(us[1..])
  }

  lemma WordsOfFrame(m: seq<byte>, p: nat, u: Upcall, z: seq<byte>)
    requires Sendable(u) && p <= |m| && m[p..] == Encode(u) + z
    ensures p + HDR + |u.payload| <= |m|
    ensures Word(m, p) == u.opcode && Word(m, p + 4) == |u.payload|
    ensures |u.payload| >= 4 ==> Word(m, p + HDR) == HandleOf(u)
    ensures m[p..p + HDR + |u.payload|] == Encode(u) && m[p + HDR + |u.payload|..] == z
  {
    CutFrame(m, p, Encode(u), z);
    assert m == m[..p] + m[p..];
    HeaderWords(m[..p], u.opcode, |u.payload|, u.payload, z, m);
    if |u.payload| >= 4 {
      var h := m[..p] + Bytes(u.opcode) + Bytes(|u.payload|);
      assert m == h + (u.payload + z);
      HandleInFrame(m, h, u.payload, z);
    }
  }

  lemma CutFrame(m: seq<byte>, p: nat, e: seq<byte>, z: seq<byte>)
    requires p <= |m| && m[p..] == e + z
    ensures p + |e| <= |m| && m[p..p + |e|] == e && m[p + |e|..] == z
  {
    assert |m[p..]| == |e| + |z|;
    assert m[p..][..|e|] == e && m[p..][|e|..] == z;
  }

  /** Opcode, payload size, payload. */
  lemma FrameLayout(u: Upcall)
    requires Sendable(u)
    ensures |Encode(u)| == 8 + |u.payload| && Encode(u)[8..] == u.payload
    ensures Word(Encode(u), 0) == u.opcode && Word(Encode(u), 4) == |u.payload|
  {
    var m := Encode(u);
    assert m[0..] == m + [];
    WordsOfFrame(m, 0, u, []);
  }

  lemma HeaderWords(a: seq<byte>, x: u32, y: u32, payload: seq<byte>, z: seq<byte>, m: seq<byte>)
    requires m == a + (Bytes(x) + Bytes(y) + payload + z)
    ensures Word(m, |a|) == x && Word(m, |a| + 4) == y
  {
    WordOfBytes(a, x, Bytes(y) + payload + z);
    assert m == a + Bytes(x) + (Bytes(y) + payload + z);
    WordOfBytes(a + Bytes(x), y, payload + z);
    assert m == (a + Bytes(x)) + Bytes(y) + (payload + z);
  }

  lemma HandleInFrame(m: seq<byte>, a: seq<byte>, payload: seq<byte>, z: seq<byte>)
    requires m == a + (payload + z) && |payload| >= 4
    ensures Word(m, |a|) == Word(payload, 0)
  {
    assert m[|a|] == payload[0] && m[|a| + 1] == payload[1] && m[|a| + 2] == payload[2] && m[|a| + 3] == payload[3];
  }

  /** Upcall by upcall. */
  function PostsOf(us: seq<Upcall>): (posts: seq<Post>)
    requires AllSendable(us)
    ensures |posts| == |us|
  {
    if us == [] then []
    else
      assert Sendable(us[0]);
      [PostOf(us[0])] + PostsOf(us[1..])
  }

  /** The loop finds the frames of the client, and ends at the end. */
  lemma {:induction false} FindsFrames(m: seq<byte>, p: nat, us: seq<Upcall>, behind: seq<byte>, end: nat)
    requires AllSendable(us)
    requires Readable(m, end) && p <= end && m[p..] == EncodeAll(us) + behind && end == p + |EncodeAll(us)|
    ensures Posts(m, p, end) == PostsOf(us) && Stop(m, p, end) == end
    decreases |us|
  {
    if us != [] {
      FirstOfMany(m, p, us, behind, end);
      FindsFrames(m, p + FrameSize(m, p), us[1..], behind, end);
      PostsCons(m, p, end);
    }
  }

  /** Splitting undoes joining: whatever upcalls a client sends back to back, the
      loop posts exactly those, in order, to their workers, and ends at the end. */
  lemma DispatchDecodes(m: seq<byte>, p: nat, us: seq<Upcall>, behind: seq<byte>, end: nat)
    requires AllSendable(us)
    requires Readable(m, end) && p <= end && m[p..] == EncodeAll(us) + behind && end == p + |EncodeAll(us)|
    ensures Posts(m, p, end) == PostsOf(us) && Stop(m, p, end) == end
    ensures forall base: u32 :: InMemory(m, base, end) ==> Advances(m, base, p, end)
  {
    FindsFrames(m, p, us, behind, end);
    forall base: u32 | InMemory(m, base, end)
      ensures Advances(m, base, p, end)
    {
      ReachingAdvances(m, base, p, end);
    }
  }

  /** A read of just these upcalls. */
  predicate Carries(io: Ioctl, us: seq<Upcall>) {
    AllSendable(us) && io.r == 0 && Readable(io.buf, io.end) && io.end == |EncodeAll(us)| && EncodeAll(us) <= io.buf
  }

  predicate AllCarry(ios: seq<Ioctl>, uss: seq<seq<Upcall>>) {
    |ios| == |uss| && forall i :: 0 <= i < |ios| ==> Carries(ios[i], uss[i])
  }

  lemma {:induction false} PostsOfConcat(us: seq<Upcall>, vs: seq<Upcall>)
    requires AllSendable(us) && AllSendable(vs)
    ensures PostsOf(us + vs) == PostsOf(us) + PostsOf(vs)
  {
    if us == [] {
      assert us + vs == vs;
    } else {
      assert Sendable(us[0]);
      PostsOfConcat(us[1..], vs);
      assert (us + vs)[1..] == us[1..] + vs && (us + vs)[0] == us[0];
      Associative([PostOf(us[0])], PostsOf(us[1..]), PostsOf(vs));
    }
  }

  lemma ReadDecodes(io: Ioctl, us: seq<Upcall>)
    requires Carries(io, us)
    ensures Posts(io.buf, 0, io.end) == PostsOf(us) && Stop(io.buf, 0, io.end) == io.end
  {
    var behind := io.buf[io.end..];
    assert io.buf[0..] == EncodeAll(us) + behind;
    DispatchDecodes(io.buf, 0, us, behind, io.end);
  }

  /** However the upcalls clients send are spread over reads, the loop posts all of them, in
      order, and goes on with what comes after. */
  lemma {:induction false} LoopDecodes(ios: seq<Ioctl>, uss: seq<seq<Upcall>>, more: seq<Ioctl>)
    requires AllCarry(ios, uss) && AllReadable(more)
    ensures AllReadable(ios + more) && AllSendable(Flatten(uss))
    ensures LoopPosts(ios + more) == PostsOf(Flatten(uss)) + LoopPosts(more)
    ensures LoopResult(ios + more) == LoopResult(more)
    decreases |ios|
  {
    if ios == [] {
      assert ios + more == more;
    } else {
      var rest := ios[1..];
      assert (ios + more)[1..] == rest + more;
      LoopDecodes(rest, uss[1..], more);
      assert Carries(ios[0], uss[0]);
      ReadDecodes(ios[0], uss[0]);
      LoopStep(ios + more, ios[0], rest + more);
      PostsOfConcat(uss[0], Flatten(uss[1..]));
      Associative(PostsOf(uss[0]), PostsOf(Flatten(uss[1..])), LoopPosts(more));
    }
  }

  /** And it moves forward on all of them. */
  lemma CarriedMoves(ios: seq<Ioctl>, uss: seq<seq<Upcall>>, base: u32)
    requires AllCarry(ios, uss) && forall i :: 0 <= i < |ios| ==> InMemory(ios[i].buf, base, ios[i].end)
    ensures MovesOn(ios, base)
  {
    forall i | 0 <= i < |ios|
      ensures Advances(ios[i].buf, base, 0, ios[i].end)
    {
      ReadDecodes(ios[i], uss[i]);
      ReachingAdvances(ios[i].buf, base, 0, ios[i].end);
    }
  }

  /** The loop ends at the first `ioctl` that fails, with its result, or at the first read
      that does not split up, with -1, and not before. */
  lemma {:induction false} LoopEnds(ios: seq<Ioctl>, i: nat)
    requires AllReadable(ios) && i < |ios|
    requires forall j :: 0 <= j < i ==> ios[j].r == 0 && Stop(ios[j].buf, 0, ios[j].end) >= ios[j].end
    ensures ios[i].r != 0 ==> LoopResult(ios) == Some(ios[i].r)
    ensures ios[i].r == 0 && Stop(ios[i].buf, 0, ios[i].end) < ios[i].end ==> LoopResult(ios) == Some(-1)
    ensures ios[i].r == 0 && Stop(ios[i].buf, 0, ios[i].end) >= ios[i].end && i == |ios| - 1 ==> LoopResult(ios) == None
    decreases i
  {
    if i > 0 {
      LoopEnds(ios[1..], i - 1);
    }
  }

  /** The first frame is whole, and the others follow it. */
  lemma FirstOfMany(m: seq<byte>, p: nat, us: seq<Upcall>, behind: seq<byte>, end: nat)
    requires AllSendable(us) && us != []
    requires Readable(m, end) && p <= end && m[p..] == EncodeAll(us) + behind && end == p + |EncodeAll(us)|
    ensures AllSendable(us[1..]) && Whole(m, p, end)
    ensures Sendable(us[0]) && PostAt(m, p) == PostOf(us[0])
    ensures var next := p + FrameSize(m, p);
            m[next..] == EncodeAll(us[1..]) + behind && end == next + |EncodeAll(us[1..])|
  {
    SplitFirst(us, behind);
    FirstFrame(m, p, us[0], EncodeAll(us[1..]) + behind);
  }

  lemma FirstFrame(m: seq<byte>, p: nat, u: Upcall, z: seq<byte>)
    requires Sendable(u) && p <= |m| && m[p..] == Encode(u) + z && p + HDR + 4 <= |m|
    ensures FrameSize(m, p) == HDR + |u.payload| == |Encode(u)|
    ensures p + FrameSize(m, p) <= |m| && m[p + FrameSize(m, p)..] == z && PostAt(m, p) == PostOf(u)
  {
    WordsOfFrame(m, p, u, z);
    var h := Word(m, p + HDR);
    ByHandle(u, h);
    PostFrom(m, p, u.opcode, |u.payload|, h);
  }

  /** The worker depends on the handle only where there is one. */
  lemma ByHandle(u: Upcall, h: u32)
    requires Sendable(u) && (|u.payload| >= 4 ==> h == HandleOf(u))
    ensures FindWorker(u.opcode, h) == WorkerOf(u)
  {
  }

  lemma PostFrom(m: seq<byte>, p: nat, o: u32, n: nat, h: u32)
    requires p + HDR + 4 <= |m| && Word(m, p) == o && Word(m, p + 4) == n && Word(m, p + HDR) == h && HDR + n < TWO32
    requires p + HDR + n <= |m|
    ensures FrameSize(m, p) == HDR + n && PostAt(m, p) == Post(FindWorker(o, h), m[p..p + HDR + n])
  {
  }

  lemma SplitFirst(us: seq<Upcall>, behind: seq<byte>)
    requires us != [] && AllSendable(us)
    ensures Sendable(us[0]) && AllSendable(us[1..]) && |EncodeAll(us)| == |Encode(us[0])| + |EncodeAll(us[1..])|
    ensures EncodeAll(us) + behind == Encode(us[0]) + (EncodeAll(us[1..]) + behind)
  {
    assert Sendable(us[0]);
    Associative(Encode(us[0]), EncodeAll(us[1..]), behind);
  }

  lemma PostsCons(m: seq<byte>, p: nat, end: nat)
    requires Readable(m, end) && Whole(m, p, end)
    ensures Posts(m, p, end) == [PostAt(m, p)] + Posts(m, p + FrameSize(m, p), end)
    ensures Stop(m, p, end) == Stop(m, p + FrameSize(m, p), end)
  {
  }

  /** A loop that reaches the end has moved forward all the way. */
  lemma {:induction false} ReachingAdvances(m: seq<byte>, base: u32, p: nat, end: nat)
    requires InMemory(m, base, end) && Stop(m, p, end) >= end
    ensures Advances(m, base, p, end)
    decreases if p < end then end - p else 0
  {
    if p < end {
      TurnExactly(m, base, p, end);
      ReachingAdvances(m, base, p + FrameSize(m, p), end);
    }
  }

  // ---- The maximal run of frames -----------------------------------------

  /** `b` is a whole frame, as its header says. */
  predicate IsFrame(b: seq<byte>) {
    |b| >= HDR && Word(b, 4) == |b| - HDR
  }

  /** The frames are exactly the encodings of upcalls. */
  lemma FrameIsEncoding(b: seq<byte>)
    requires |b| < TWO32
    ensures IsFrame(b) <==> exists u: Upcall :: HDR + |u.payload| == |b| && Encode(u) == b
  {
    if IsFrame(b) {
      BytesOfWord(b, 0);
      BytesOfWord(b, 4);
      var u := Upcall(Word(b, 0), b[HDR..]);
      assert b == b[0..4] + b[4..8] + b[8..];
      assert Encode(u) == b;
    }
    if u: Upcall :| HDR + |u.payload| == |b| && Encode(u) == b {
      WordOfBytes(Bytes(u.opcode), |u.payload|, u.payload);
    }
  }

  /** `posts` are whole frames, one behind the other from `p` to `stop`. */
  predicate Cover(m: seq<byte>, p: nat, stop: nat, posts: seq<Post>)
    decreases |posts|
  {
    if posts == [] then stop == p
    else
      var f := posts[0].frame;
      p + |f| <= |m| && m[p..p + |f|] == f && IsFrame(f) && Cover(m, p + |f|, stop, posts[1..])
  }

  /** No whole frame starts at `p` and ends by `end`. */
  predicate NoFrameAt(m: seq<byte>, p: nat, end: nat)
    requires end <= |m|
  {
    forall q :: p + HDR <= q <= end ==> !IsFrame(m[p..q])
  }

  /** The loop does its job from `p` on: it moves forward, posts whole frames one
      behind the other, and what it leaves, if anything, starts with no whole frame. */
  predicate Splits(m: seq<byte>, base: u32, p: nat, end: nat)
    requires InMemory(m, base, end)
  {
    && Advances(m, base, p, end)
    && Covers(m, p, end)
    && Spent(m, Stop(m, p, end), end)
  }

  /** Nothing is left at `p`, or no whole frame starts there. */
  predicate Spent(m: seq<byte>, p: nat, end: nat)
    requires end <= |m|
  {
    p < end ==> NoFrameAt(m, p, end)
  }

  /** What the loop posts from `p` on are whole frames, up to where it stops. */
  predicate Covers(m: seq<byte>, p: nat, end: nat)
    requires Readable(m, end)
  {
    Cover(m, p, Stop(m, p, end), Posts(m, p, end))
  }

  /** The frame ends within memory; or its size wraps around to one of 1 to 7 bytes
      that the buffer does not have any more. */
  predicate Fair(m: seq<byte>, base: u32, p: nat, end: nat)
    requires p + HDR <= |m|
  {
    base + p + HDR + Word(m, p + 4) < TWO32 || p + HDR + Word(m, p + 4) - TWO32 > end
  }

  lemma FrameWord(m: seq<byte>, p: nat, q: nat)
    requires p + HDR <= q <= |m|
    ensures IsFrame(m[p..q]) <==> Word(m, p + 4) == q - p - HDR
  {
    assert Word(m[p..q], 4) == Word(m, p + 4);
  }

  /** One header: what is fair about it. */
  lemma FairExactly(m: seq<byte>, base: u32, p: nat, end: nat)
    requires InMemory(m, base, end) && p < end
    ensures Whole(m, p, end) ==> (Fair(m, base, p, end) <==> IsFrame(PostAt(m, p).frame))
    ensures !Whole(m, p, end) ==> (Fair(m, base, p, end) <==> !Turns(m, base, p, end))
    ensures !Whole(m, p, end) && Fair(m, base, p, end) ==> NoFrameAt(m, p, end)
  {
    Sums(base + p, Word(m, p + 4));
    if Whole(m, p, end) {
      if FrameSize(m, p) >= HDR {
        FrameWord(m, p, p + FrameSize(m, p));
      }
    } else {
      forall q | p + HDR <= q <= end
        ensures Fair(m, base, p, end) ==> !IsFrame(m[p..q])
      {
        FrameWord(m, p, q);
      }
    }
  }

  lemma SplitsStep(m: seq<byte>, base: u32, p: nat, end: nat)
    requires InMemory(m, base, end) && Whole(m, p, end)
    ensures Splits(m, base, p, end) <==> IsFrame(PostAt(m, p).frame) && Splits(m, base, p + FrameSize(m, p), end)
  {
    var x, q := PostAt(m, p), p + FrameSize(m, p);
    GoesOn(m, base, p, q, end);
    CoverStep(m, p, x, q, end);
  }

  lemma CoverStep(m: seq<byte>, p: nat, x: Post, q: nat, end: nat)
    requires Readable(m, end) && q <= end && p + |x.frame| == q && m[p..q] == x.frame
    requires Posts(m, p, end) == [x] + Posts(m, q, end) && Stop(m, p, end) == Stop(m, q, end)
    ensures Covers(m, p, end) <==> IsFrame(x.frame) && Covers(m, q, end)
  {
    CoverCons(m, p, q, Stop(m, q, end), x, Posts(m, p, end), Posts(m, q, end));
  }

  lemma CoverCons(m: seq<byte>, p: nat, q: nat, stop: nat, x: Post, all: seq<Post>, rest: seq<Post>)
    requires q <= |m| && p + |x.frame| == q && m[p..q] == x.frame && all == [x] + rest
    ensures Cover(m, p, stop, all) <==> IsFrame(x.frame) && Cover(m, q, stop, rest)
  {
    assert all[1..] == rest;
  }

  lemma VisitsStep(m: seq<byte>, base: u32, p: nat, end: nat, q: nat)
    requires InMemory(m, base, end) && Whole(m, p, end)
    ensures Visits(m, base, p, end, q) <==> q == p || Visits(m, base, p + FrameSize(m, p), end, q)
  {
    TurnExactly(m, base, p, end);
  }

  lemma SplitsHere(m: seq<byte>, base: u32, p: nat, end: nat)
    requires InMemory(m, base, end) && !Whole(m, p, end)
    ensures Splits(m, base, p, end) <==> (p < end ==> Fair(m, base, p, end))
    ensures forall q: nat :: Visits(m, base, p, end, q) <==> q == p
  {
    if p < end {
      TurnExactly(m, base, p, end);
      FairExactly(m, base, p, end);
    }
  }

  /** Every header the loop meets from `p` on is fair. */
  ghost predicate AllFair(m: seq<byte>, base: u32, p: nat, end: nat)
    requires InMemory(m, base, end)
  {
    forall q: nat :: Visits(m, base, p, end, q) && q < end ==> Fair(m, base, q, end)
  }

  lemma AllFairStep(m: seq<byte>, base: u32, p: nat, end: nat)
    requires InMemory(m, base, end) && Whole(m, p, end)
    ensures AllFair(m, base, p, end) <==> Fair(m, base, p, end) && AllFair(m, base, p + FrameSize(m, p), end)
  {
    forall q: nat
      ensures Visits(m, base, p, end, q) <==> q == p || Visits(m, base, p + FrameSize(m, p), end, q)
    {
      VisitsStep(m, base, p, end, q);
    }
  }

  /** On any buffer: the loop posts exactly the maximal run of whole leading frames, and
      reports it malformed exactly when bytes remain, a tail shorter than a header
      included, if and only if every header it meets is fair. */
  lemma {:induction false} DispatchMaximal(m: seq<byte>, base: u32, p: nat, end: nat)
    requires InMemory(m, base, end)
    ensures Splits(m, base, p, end) <==> AllFair(m, base, p, end)
    decreases if p < end then end - p else 0
  {
    if Whole(m, p, end) {
      DispatchMaximal(m, base, p + FrameSize(m, p), end);
      SplitsStep(m, base, p, end);
      AllFairStep(m, base, p, end);
      FairExactly(m, base, p, end);
    } else {
      SplitsHere(m, base, p, end);
    }
  }
}
