/** The venus IPC marshaler over its in-place buffer. */
module Marshaler {
  import opened Words
  import opened BinderProtocol
  import opened MarshalSpec

  /** Every recorded site lies before position `p`. */
  predicate Behind(evs: seq<Event>, k: nat, p: nat) {
    Leading(evs, k) && forall i :: 0 <= i < k ==> evs[i].site + 4 <= p
  }

  /** From `k` to `j` recorded events at most the one at `site` was added. */
  predicate OnlyAdds(evs: seq<Event>, k: nat, j: nat, site: nat) {
    j == k || (j == k + 1 && k < |evs| && evs[k].Segment? && evs[k].site == site)
  }

  lemma StillBehind(evs: seq<Event>, k: nat, j: nat, p: nat, site: nat, at: nat)
    requires Behind(evs, k, p) && OnlyAdds(evs, k, j, site) && p <= site
    ensures Behind(evs, j, site + 4)
    ensures p <= at && at + 4 <= site ==> ClearOfSites(evs, j, at)
  {
  }

  lemma StopsHere(evs: seq<Event>, k: nat, e: Event)
    requires k <= |evs| && evs[k..] == [e]
    ensures k < |evs| && evs[k] == e
  {
    assert evs[k] == evs[k..][0];
  }

  /** `struct ipc_marshaler`, with the binder mapping it reads from. */
  class IpcMarshaler {
    const buf: array<byte>
    const segments: array<DataSegment>
    const vmStart: Base
    const vm: Mapping
    var writePtr: nat
    var dataEntries: nat

    ghost predicate Valid()
      reads this
    {
      buf.Length == MARSHALER_BUF_SIZE && segments.Length == MAX_SEGMENT_NUM && dataEntries <= MAX_SEGMENT_NUM
    }

    /** The zero-initialised marshaler of `handle_binder_write_read`. */
    constructor (vmStart: Base, vm: Mapping)
      ensures Valid() && fresh(buf) && fresh(segments)
      ensures dataEntries == 0 && this.vmStart == vmStart && this.vm == vm
    {
      this.buf := new byte[MARSHALER_BUF_SIZE];
      this.segments := new DataSegment[MAX_SEGMENT_NUM](_ => DataSegment(0, 0));
      this.vmStart, this.vm := vmStart, vm;
      this.writePtr, this.dataEntries := 0, 0;
    }

    /** `record_segment`: `ptr` is the position of the pointer word. */
    method RecordSegment(ptr: nat, length: u32) returns (ret: int)
      requires Valid() && ptr + 4 <= buf.Length
      modifies this`dataEntries, segments, buf
      ensures Valid()
      ensures var e := Segment(ptr, Word(old(buf[..]), ptr), length);
              if old(dataEntries) < 16 && vmStart <= e.ptr < vmStart + 4190208 then
                && ret == 0
                && dataEntries == old(dataEntries) + 1
                && segments[..dataEntries] == old(segments[..dataEntries]) + [DataSegment(e.ptr - vmStart, length)]
                && buf[..] == PutWord(old(buf[..]), ptr, e.ptr - vmStart)
              else
                && ret == Refusal(e, old(dataEntries)) && ret == (if old(dataEntries) == 16 then -12 else -14)
                && dataEntries == old(dataEntries)
                && segments[..] == old(segments[..])
                && buf[..] == old(buf[..])
    {
      if dataEntries >= MAX_SEGMENT_NUM {
        return -ENOMEM;
      }
      var dataPtr := ReadWord(buf, ptr);
      if dataPtr < vmStart || dataPtr >= vmStart + BINDER_VM_SIZE {
        return -EFAULT;
      }
      var offset: u32 := dataPtr - vmStart;
      segments[dataEntries] := DataSegment(offset, length);
      dataEntries := dataEntries + 1;
      WriteWord(buf, ptr, offset);
      return 0;
    }

    /** The state after the first `k` events of stream `s`. */
    ghost predicate Walked(s: seq<byte>, evs: seq<Event>, k: nat, tail: seq<byte>)
      reads this, buf, segments
    {
      && Valid() && dataEntries == k
      && WalkState(s, evs, k, vmStart, segments[..k], buf[..], tail)
    }

    /** The walk stopped at an event the table refused. */
    ghost predicate Stopped(evs: seq<Event>, ret: int)
      reads this
    {
      && dataEntries < |evs|
      && !Accepts(evs[dataEntries], dataEntries, vmStart)
      && ret == Refusal(evs[dataEntries], dataEntries) && ret < 0
    }

    /** Record event `k`, a segment whose pointer word is still original. */
    method RecordEvent(ptr: nat, length: u32, ghost s: seq<byte>, ghost evs: seq<Event>, ghost k: nat, ghost tail: seq<byte>)
      returns (ret: int)
      requires Placed(evs, |s|) && Walked(s, evs, k, tail) && k < |evs|
      requires ptr + 4 <= |s| && evs[k] == Segment(ptr, Word(s, ptr), length)
      modifies this`dataEntries, segments, buf
      ensures ret == 0 ==> Walked(s, evs, k + 1, tail)
      ensures ret != 0 ==> Walked(s, evs, k, tail) && Stopped(evs, ret)
    {
      WalkStep(s, evs, k, vmStart, segments[..k], buf[..], tail);
      ret := RecordSegment(ptr, length);
    }

    /** Record one half of a transaction, unless its size word is zero. */
    method MarshalHalf(size: nat, ptr: nat, ghost s: seq<byte>, ghost evs: seq<Event>, ghost k: nat,
                       ghost rest: seq<Event>, ghost tail: seq<byte>)
      returns (ret: int)
      requires Placed(evs, |s|) && Walked(s, evs, k, tail)
      requires size + 4 <= |s| && ptr + 4 <= |s| && ClearOfSites(evs, k, size)
      requires k <= |evs| && evs[k..] == HalfEvents(s, size, ptr) + rest
      modifies this`dataEntries, segments, buf
      ensures ret == 0 ==>
                && Walked(s, evs, dataEntries, tail) && evs[dataEntries..] == rest
                && OnlyAdds(evs, k, dataEntries, ptr)
      ensures ret != 0 ==> Walked(s, evs, dataEntries, tail) && Stopped(evs, ret)
      ensures ret <= 0
    {
      ReadsOriginal(s, evs, k, size, vmStart, tail);
      var length := ReadWord(buf, size);
      ret := 0;
      if length != 0 {
        assert evs[k] == evs[k..][0];
        assert evs[k + 1..] == evs[k..][1..];
        ret := RecordEvent(ptr, length, s, evs, k, tail);
      }
    }

    /** `marshal_transaction` on the record at `body`; `k` events came before it
        and `rest` are the events after it. */
    method MarshalTransaction(body: nat, ghost s: seq<byte>, ghost evs: seq<Event>, ghost k: nat,
                              ghost rest: seq<Event>, ghost tail: seq<byte>)
      returns (ret: int)
      requires Placed(evs, |s|) && Walked(s, evs, k, tail) && body + TXN_SIZE <= |s| && Behind(evs, k, body)
      requires k <= |evs| && evs[k..] == TxnEvents(s, body) + rest
      modifies this`dataEntries, segments, buf
      ensures ret == 0 ==>
                Walked(s, evs, dataEntries, tail) && Behind(evs, dataEntries, body + TXN_SIZE) && evs[dataEntries..] == rest
      ensures ret != 0 ==> Walked(s, evs, dataEntries, tail) && Stopped(evs, ret)
      ensures ret <= 0
    {
      ghost var second := HalfEvents(s, body + TXN_OFFSETS_SIZE, body + TXN_OFFSETS);
      TxnSplit(s, body, rest);
      ret := MarshalHalf(body + TXN_DATA_SIZE, body + TXN_BUFFER, s, evs, k, second + rest, tail);
      if ret < 0 {
        return;
      }
      ghost var j := dataEntries;
      StillBehind(evs, k, j, body, body + TXN_BUFFER, body + TXN_OFFSETS_SIZE);
      ret := MarshalHalf(body + TXN_OFFSETS_SIZE, body + TXN_OFFSETS, s, evs, j, rest, tail);
      if ret == 0 {
        StillBehind(evs, j, dataEntries, body + TXN_OFFSETS, body + TXN_OFFSETS, 0);
      }
    }

    /** Write one `<offset, length, data>` record at the write pointer. */
    method AppendSegment(e: DataSegment)
      requires Valid() && Inside(e) && writePtr + SEGMENT_HEADER + e.length <= buf.Length
      modifies this`writePtr, buf
      ensures writePtr == old(writePtr) + SEGMENT_HEADER + e.length
      ensures buf[..] == old(buf[..writePtr]) + Record(e, vm) + old(buf[..])[writePtr..]
    {
      CopyTwice(Bytes(e.offset) + Bytes(e.length), vm[e.offset..e.offset + e.length]);
    }

    /** Two `memcpy` one behind the other. */
    method CopyTwice(header: seq<byte>, data: seq<byte>)
      requires writePtr + |header| + |data| <= buf.Length
      modifies this`writePtr, buf
      ensures writePtr == old(writePtr) + |header| + |data|
      ensures buf[..] == old(buf[..writePtr]) + (header + data) + old(buf[..])[writePtr..]
    {
      GrowMiddle(buf[..], writePtr, header, data);
      CopyInto(buf, writePtr, header);
      writePtr := writePtr + |header|;
      CopyInto(buf, writePtr, data);
      writePtr := writePtr + |data|;
    }

    /** The record of segment `k` joins the ones before it. */
    method AppendNext(e: DataSegment, ghost segs: seq<DataSegment>, ghost k: nat, ghost was: seq<byte>, ghost w: nat)
      requires Valid() && Appended(segs, k, vm, was, w, buf[..], writePtr) && |was| == buf.Length
      requires k < |segs| && e == segs[k] && Inside(e) && writePtr + SEGMENT_HEADER + e.length <= buf.Length
      modifies this`writePtr, buf
      ensures writePtr == old(writePtr) + SEGMENT_HEADER + e.length
      ensures Appended(segs, k + 1, vm, was, w, buf[..], writePtr)
    {
      AppendOne(segs, k, vm, was, w, buf[..], writePtr);
      AppendSegment(e);
    }

    /** `append_data_segments`. */
    method AppendDataSegments() returns (ret: int)
      requires Valid() && writePtr <= buf.Length
      requires StartInside(segments[..dataEntries]) && Refusable(segments[..dataEntries], writePtr)
      modifies this`writePtr, buf
      ensures var segs := segments[..dataEntries];
              var k := Fitting(segs, old(writePtr));
              && ret == (if k == |segs| then 0 else -ENOMEM)
              && Appended(segs, k, vm, old(buf[..]), old(writePtr), buf[..], writePtr)
    {
      var i := 0;
      ghost var segs, w, was := segments[..dataEntries], writePtr, buf[..];
      assert segs[0..] == segs && segs[..0] == [] && was == was[..w] + [] + was[w..];
      while i < dataEntries
        invariant 0 <= i <= dataEntries
        invariant Fitting(segs, w) == i + Fitting(segs[i..], writePtr)
        invariant Appended(segs, i, vm, was, w, buf[..], writePtr)
      {
        FittingStep(segs, i, writePtr);
        var e := segments[i];
        assert e == segs[i];
        assert dataEntries == |segs| && e.offset < BINDER_VM_SIZE;
        if buf.Length - writePtr < Add32(SEGMENT_HEADER, e.length) {
          assert Fitting(segs, w) == i;
          return -ENOMEM;
        }
        AppendNext(e, segs, i, was, w);
        i := i + 1;
      }
      assert segs[i..] == [] && Fitting(segs, w) == i;
      return 0;
    }

    /** The cursor at `ptr`: what lies behind it is recorded, what lies ahead is
        still to be walked. */
    ghost predicate AtCursor(s: seq<byte>, evs: seq<Event>, ptr: nat, tail: seq<byte>)
      reads this, buf, segments
    {
      && Placed(evs, |s|) && Walked(s, evs, dataEntries, tail) && Behind(evs, dataEntries, ptr)
      && dataEntries <= |evs| && evs[dataEntries..] == Events(s, ptr)
    }

    /** The transaction record of the command word before `body`. */
    method MarshalTransfer(body: nat, size: nat, ghost s: seq<byte>, ghost evs: seq<Event>, ghost tail: seq<byte>)
      returns (ret: int, ptr: nat)
      requires size == |s| && 4 <= body <= size && IsTransfer(Word(s, body - 4)) && AtCursor(s, evs, body - 4, tail)
      modifies this`dataEntries, segments, buf
      ensures ret <= 0
      ensures ret == 0 ==> ptr == body + TXN_SIZE && AtCursor(s, evs, ptr, tail)
      ensures ret != 0 ==> Walked(s, evs, dataEntries, tail) && Stopped(evs, ret)
    {
      ptr := body;
      TransferEvents(s, body);
      if ptr + TXN_SIZE > size {
        StopsHere(evs, dataEntries, Stop(-EFAULT));
        return -EFAULT, ptr;
      }
      ptr := ptr + TXN_SIZE;
      ret := MarshalTransaction(body, s, evs, dataEntries, Events(s, ptr), tail);
    }

    /** One turn of the loop of `marshaler_marshal`. */
    method MarshalCommand(start: nat, size: nat, ghost s: seq<byte>, ghost evs: seq<Event>, ghost tail: seq<byte>)
      returns (ret: int, ptr: nat)
      requires size == |s| && start < size && AtCursor(s, evs, start, tail)
      modifies this`dataEntries, segments, buf
      ensures ret <= 0
      ensures ret == 0 ==> start < ptr && AtCursor(s, evs, ptr, tail)
      ensures ret != 0 ==> Walked(s, evs, dataEntries, tail) && Stopped(evs, ret)
    {
      ptr := start;
      OtherEvents(s, start);
      if ptr + 4 > size {
        StopsHere(evs, dataEntries, Stop(-EFAULT));
        return -EFAULT, ptr;
      }
      ReadsOriginal(s, evs, dataEntries, ptr, vmStart, tail);
      var cmd := ReadWord(buf, ptr);
      ptr := ptr + 4;
      ret := 0;
      if IsBare(cmd) {
      } else if IsTransfer(cmd) {
        ret, ptr := MarshalTransfer(ptr, size, s, evs, tail);
      } else if IsRefcount(cmd) {
        ptr := ptr + 8;
      } else {
        StopsHere(evs, dataEntries, Stop(-1));
        return -1, ptr;
      }
    }

    /** The loop of `marshaler_marshal`. */
    method Walk(size: nat, ghost s: seq<byte>, ghost evs: seq<Event>, ghost tail: seq<byte>) returns (ret: int)
      requires size == |s| && AtCursor(s, evs, 0, tail)
      modifies this`dataEntries, segments, buf
      ensures ret <= 0 && Walked(s, evs, dataEntries, tail)
      ensures ret == 0 ==> dataEntries == |evs|
      ensures ret != 0 ==> Stopped(evs, ret)
    {
      var ptr := 0;
      while ptr < size
        invariant AtCursor(s, evs, ptr, tail)
        decreases size - ptr
      {
        ret, ptr := MarshalCommand(ptr, size, s, evs, tail);
        if ret < 0 {
          return;
        }
      }
      return 0;
    }

    /** The read buffer at the start of the marshaler's, and nothing walked yet. */
    method Load(readBuffer: seq<byte>)
      requires Valid() && dataEntries == 0 && |readBuffer| <= buf.Length
      modifies this`writePtr, buf
      ensures writePtr == |readBuffer|
      ensures AtCursor(readBuffer, Events(readBuffer, 0), 0, old(buf[|readBuffer|..]))
    {
      ghost var evs := Events(readBuffer, 0);
      writePtr := 0;
      CopyInto(buf, writePtr, readBuffer);
      writePtr := writePtr + |readBuffer|;
      EventsPlaced(readBuffer);
      FreshWalk(readBuffer, evs, vmStart, old(buf[|readBuffer|..]));
      assert segments[..0] == [] && evs[0..] == evs;
    }

    /** After a walk that never stopped the segments are appended. */
    method Finish(ghost s: seq<byte>, ghost was: seq<byte>) returns (ret: int)
      requires KernelInput(s, vmStart) && |was| == MARSHALER_BUF_SIZE
      requires Walked(s, Events(s, 0), |Events(s, 0)|, was[|s|..]) && writePtr == |s|
      modifies this`writePtr, buf
      ensures Outcome(s, vmStart, vm, was, ret, segments[..dataEntries], buf[..], writePtr)
    {
      ghost var walked := buf[..];
      TableStartsInside(s, vmStart, segments[..dataEntries], walked, was[|s|..]);
      var r := AppendDataSegments();
      ret := if r != 0 then -1 else 0;
      AppendedOutcome(s, vmStart, vm, was, ret, segments[..dataEntries], walked, buf[..], writePtr);
    }

    /** `marshaler_marshal` on the bytes the kernel put into the read buffer. */
    method Marshal(readBuffer: seq<byte>) returns (ret: int)
      requires Valid() && dataEntries == 0 && KernelInput(readBuffer, vmStart)
      modifies this, segments, buf
      ensures Valid()
      ensures Outcome(readBuffer, vmStart, vm, old(buf[..]), ret, segments[..dataEntries], buf[..], writePtr)
    {
      ghost var s, evs, was := readBuffer, Events(readBuffer, 0), buf[..];
      assert was[|s|..] == buf[|s|..];
      Load(readBuffer);
      ret := Walk(|readBuffer|, s, evs, was[|s|..]);
      if ret < 0 {
        RefusedOutcome(s, vmStart, vm, was, dataEntries, ret, segments[..dataEntries], buf[..]);
        return;
      }
      ret := Finish(s, was);
    }
  }
}
