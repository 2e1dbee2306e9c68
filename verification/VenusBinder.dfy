/** `handle_binder_write_read`: relocate the payload, run the driver, marshal
    what it returned, and assemble the downcall. */
module VenusBinder {
  import opened Words
  import opened Relocation
  import opened MarshalSpec
  import opened MarshalTheorems
  import opened MarshalEntries
  import opened MarshalRoundTrip
  import opened Marshaler

  const READ_BUFFER_SIZE := 8 * 1024

  /** What the driver answers: on success the bytes it put into the read buffer. */
  datatype IoctlResult = IoctlResult(ret: int, writeConsumed: nat, readConsumed: nat, data: seq<byte>)

  /** The fields of the downcall that this handler fills in. */
  datatype Downcall = Downcall(handle: u32, buffer: u32, ret: int, writeConsumed: nat, readConsumed: nat,
                               payloadSize: nat, dataEntries: nat, payload: seq<byte>)

  /** The request: where its patch table is, and what is echoed back. */
  datatype Request = Request(handle: u32, buffer: u32, entries: int, offset: int)

  predicate DriverAnswer(io: IoctlResult, base: Base) {
    io.ret >= 0 ==> |io.data| == io.readConsumed <= READ_BUFFER_SIZE && KernelInput(io.data, base)
  }

  method HandleBinderWriteRead(u: Request, payload: array<byte>, payloadAddress: u32, io: IoctlResult,
                               vmStart: Base, vm: Mapping, ghost patch: seq<seq<byte>>)
    returns (d: Downcall)
    requires PatchRun(patch, payload[..], u.entries, u.offset, payloadAddress) && DriverAnswer(io, vmStart)
    modifies payload
    ensures payload[..] == patch[|patch| - 1]
    ensures Patchable(old(payload[..]), u.entries, u.offset) ==>
              payload[..] == AddAt(old(payload[..]), TableOf(old(payload[..]), u.entries, u.offset), payloadAddress)
    ensures d.handle == u.handle && d.buffer == u.buffer
    ensures d.writeConsumed == io.writeConsumed && d.readConsumed == io.readConsumed
    ensures d.ret == if io.ret < 0 then io.ret else Result(io.data, vmStart)
    ensures io.ret >= 0 ==>
              forall cmds, rest :: Parses(io.data, cmds, rest) ==> d.ret == ReturnOf(io.data, vmStart, cmds, rest)
    ensures d.payloadSize == |d.payload| <= MARSHALER_BUF_SIZE
    ensures d.ret < 0 ==> d.payload == []
    ensures d.dataEntries == if io.ret < 0 then 0 else Accepted(Events(io.data, 0), 0, vmStart)
    ensures io.ret >= 0 ==>
              forall cmds, rest :: Parses(io.data, cmds, rest) ==>
                d.dataEntries == Taken(References(cmds), 0, vmStart) &&
                (d.dataEntries == 0 <==> References(cmds) == [] || !Known(References(cmds)[0], vmStart))
    ensures io.ret >= 0 && d.ret == 0 ==>
              forall cmds :: InGrammar(cmds) && Stream(cmds) == io.data ==>
                Fetchable(References(cmds), vmStart) && d.readConsumed <= |d.payload| &&
                Decode(d.payload, d.readConsumed, d.dataEntries, vmStart) ==
                Some(Message(io.data, FetchAll(References(cmds), vmStart, vm)))
  {
    var m := new IpcMarshaler(vmStart, vm);
    PatchPayloadPtr(payload, u.entries, u.offset, payloadAddress, patch);
    var ret := io.ret;
    var marshaled := [];
    if ret >= 0 {
      ghost var was := m.buf[..];
      ret := m.Marshal(io.data);
      forall cmds, rest | Parses(io.data, cmds, rest)
        ensures Accepted(Events(io.data, 0), 0, vmStart) == Taken(References(cmds), 0, vmStart)
        ensures Result(io.data, vmStart) == ReturnOf(io.data, vmStart, cmds, rest)
      {
        EntriesExactly(io.data, vmStart, cmds, rest);
        ResultExactly(io.data, vmStart, cmds, rest);
      }
      marshaled := if ret < 0 then [] else m.buf[..m.writePtr];
      if ret == 0 {
        forall cmds | InGrammar(cmds) && Stream(cmds) == io.data
          ensures Fetchable(References(cmds), vmStart) && |io.data| <= |marshaled|
          ensures Decode(marshaled, |io.data|, m.dataEntries, vmStart) ==
                  Some(Message(io.data, FetchAll(References(cmds), vmStart, vm)))
        {
          DecodeUndoesMarshal(io.data, vmStart, vm, was, m.segments[..m.dataEntries], m.buf[..], m.writePtr, cmds);
          assert m.buf[..][..m.writePtr] == m.buf[..m.writePtr];
        }
      }
    }
    d := Downcall(u.handle, u.buffer, ret, io.writeConsumed, io.readConsumed, |marshaled|, m.dataEntries, marshaled);
  }
}
