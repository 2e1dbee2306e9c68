/** Command codes and record sizes of the binder driver on the 32-bit target.
    Only their being distinct and the sizes matter to the proofs. */
module BinderProtocol {
  import opened Words

  const BR_NOOP: u32 := 0x0000_720c
  const BR_TRANSACTION_COMPLETE: u32 := 0x0000_7206
  const BR_SPAWN_LOOPER: u32 := 0x0000_720d
  const BR_TRANSACTION: u32 := 0x8028_7202
  const BR_REPLY: u32 := 0x8028_7203
  const BR_INCREFS: u32 := 0x8008_7207
  const BR_ACQUIRE: u32 := 0x8008_7208
  const BR_RELEASE: u32 := 0x8008_7209
  const BR_DECREFS: u32 := 0x8008_720a
  const BR_DEAD_REPLY: u32 := 0x0000_7205
  const BR_FAILED_REPLY: u32 := 0x0000_7211
  const BR_DEAD_BINDER: u32 := 0x8004_720f

  const EFAULT := 14
  const ENOMEM := 12

  /** sizeof(struct binder_transaction_data), and the offsets of its tail fields. */
  const TXN_SIZE := 40
  const TXN_DATA_SIZE := 24
  const TXN_OFFSETS_SIZE := 28
  const TXN_BUFFER := 32
  const TXN_OFFSETS := 36

  predicate IsRefcount(cmd: u32) {
    cmd == BR_INCREFS || cmd == BR_DECREFS || cmd == BR_ACQUIRE || cmd == BR_RELEASE
  }

  predicate IsTransfer(cmd: u32) {
    cmd == BR_TRANSACTION || cmd == BR_REPLY
  }

  /** struct binder_txn. */
  datatype Txn = Txn(target: u32, cookie: u32, code: u32, flags: u32, senderPid: u32, senderEuid: u32,
                     dataSize: u32, offsSize: u32, data: u32, offs: u32)

  /** The record as it lies in memory. */
  function TxnBytes(t: Txn): (b: seq<byte>)
    ensures |b| == TXN_SIZE
  {
    Bytes(t.target) + Bytes(t.cookie) + Bytes(t.code) + Bytes(t.flags) + Bytes(t.senderPid) + Bytes(t.senderEuid) +
    Bytes(t.dataSize) + Bytes(t.offsSize) + Bytes(t.data) + Bytes(t.offs)
  }

  /** The four words the marshaler looks at are the sizes and pointers of the record. */
  lemma TailFields(t: Txn)
    ensures var b := TxnBytes(t);
            && Word(b, TXN_DATA_SIZE) == t.dataSize && Word(b, TXN_OFFSETS_SIZE) == t.offsSize
            && Word(b, TXN_BUFFER) == t.data && Word(b, TXN_OFFSETS) == t.offs
  {
    var head := Bytes(t.target) + Bytes(t.cookie) + Bytes(t.code) + Bytes(t.flags) + Bytes(t.senderPid) + Bytes(t.senderEuid);
    var d, o, p, q := Bytes(t.dataSize), Bytes(t.offsSize), Bytes(t.data), Bytes(t.offs);
    var b := TxnBytes(t);
    assert b == head + d + (o + p + q);
    WordOfBytes(head, t.dataSize, o + p + q);
    assert b == (head + d) + o + (p + q);
    WordOfBytes(head + d, t.offsSize, p + q);
    WordOfBytes(head + d + o, t.data, q);
    assert b == (head + d + o + p) + q + [];
    WordOfBytes(head + d + o + p, t.offs, []);
  }
}
