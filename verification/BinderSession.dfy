/** A parcel on its whole way: built in one buffer, copied unchanged into another, and
    read there. */
module BinderSession {
  import opened Words
  import opened BinderProtocol
  import opened Parcel
  import opened ParcelTheorems
  import opened BinderIo

  lemma BothStored(m: seq<byte>, i: nat, a: seq<byte>, j: nat, b: seq<byte>)
    requires i + |a| <= j && j + |b| <= |m|
    ensures var x := Stored(Stored(m, i, a), j, b); x[i..i + |a|] == a && x[j..j + |b|] == b
  {
  }

  method CopyBoth(x: array<byte>, i: nat, a: seq<byte>, j: nat, b: seq<byte>)
    requires i + |a| <= j && j + |b| <= x.Length
    modifies x
    ensures x[..][i..i + |a|] == a && x[..][j..j + |b|] == b
  {
    ghost var was := x[..];
    CopyInto(x, i, a);
    CopyInto(x, j, b);
    assert x[..] == Stored(Stored(was, i, a), j, b);
    BothStored(was, i, a, j, b);
  }

  /** The used data and the used offsets of a parcel, with the sizes `binder_call`
      computes, are copied unchanged, and a transaction says where. No object is
      translated on the way. */
  method Deliver(msg: BinderIo, inbox: array<byte>, dataAt: u32, offsAt: u32) returns (txn: Txn)
    requires msg.Writing() && msg.live && !msg.flags.overflow && inbox != msg.mem
    requires dataAt + msg.mem.Length <= offsAt && offsAt + msg.mem.Length <= inbox.Length < TWO32
    modifies inbox
    ensures txn.data == dataAt && Mapped(inbox[..], txn) && ReaderAt(inbox[..], txn) == Open(msg.Written())
  {
    ghost var m := msg.mem[..];
    var data, offs := msg.mem[msg.data0..msg.data], msg.mem[msg.offs0..msg.offs];
    CopyBoth(inbox, dataAt, data, offsAt, offs);
    txn := Txn(0, 0, 0, 0, 0, 0, |data|, |offs|, dataAt, offsAt);
    DeliveredOpens(m, msg.data0, msg.data, msg.dataAvail, msg.offs0, msg.offs, msg.offsAvail, inbox[..], txn);
  }

  /** A parcel built from the start. */
  method Build(buf: array<byte>, maxoffs: u32, puts: seq<Put>) returns (msg: BinderIo)
    requires buf.Length < TWO32 && (maxoffs < 0x4000_0000 || Reserved(maxoffs) > buf.Length)
    requires forall i :: 0 <= i < |puts| ==> Callable(puts[i])
    modifies buf
    ensures fresh(msg) && msg.mem == buf && msg.Writing() && (msg.live <==> Reserved(maxoffs) <= buf.Length)
    ensures msg.Written() == Run(Init(old(buf[..]), maxoffs), puts)
  {
    msg := new BinderIo(buf);
    assert buf[0..buf.Length] == buf[..];
    msg.BioInit(0, buf.Length, maxoffs);
    msg.PutAll(puts);
  }

  /** The matching gets on a received parcel. */
  method Receive(inbox: array<byte>, txn: Txn, asks: seq<Ask>) returns (clear: bool, vs: seq<Value>)
    requires Mapped(inbox[..], txn)
    ensures vs == Answers(ReaderAt(inbox[..], txn), asks).1
    ensures clear == !Answers(ReaderAt(inbox[..], txn), asks).0.overflow
  {
    var reply := new BinderIo(inbox);
    reply.BioInitFromTxn(txn);
    vs := reply.GetAll(asks);
    clear := !reply.flags.overflow;
  }

  /** Deliver a parcel built by `puts` from `w`, and do the matching gets. */
  method DeliverAndGet(msg: BinderIo, puts: seq<Put>, inbox: array<byte>, dataAt: u32, offsAt: u32, ghost w: Writer)
    returns (clear: bool, vs: seq<Value>, size: u32)
    requires msg.Writing() && msg.live && !msg.flags.overflow && inbox != msg.mem
    requires dataAt + msg.mem.Length <= offsAt && offsAt + msg.mem.Length <= inbox.Length < TWO32
    requires w.data == [] && w.offs == [] && !w.overflow && |w.free| < TWO32 && msg.Written() == Run(w, puts)
    modifies inbox
    ensures |vs| == |puts| && dataAt + size <= inbox.Length
    ensures clear && AllReturned(puts, vs, inbox[..][dataAt..dataAt + size]) <==> AllReturnable(puts)
  {
    var txn := Deliver(msg, inbox, dataAt, offsAt);
    clear, vs := Receive(inbox, txn, AsksFor(puts));
    size := txn.dataSize;
    Concluded(w, puts, ReaderAt(inbox[..], txn), clear, vs, inbox[..][dataAt..dataAt + size]);
  }

  /** Put, deliver, get: a parcel that does not overflow is delivered, and the matching
      gets return every value put, with the reader's flag clear, if and only if all of
      them are returnable. */
  method PutThenGet(buf: array<byte>, maxoffs: u32, puts: seq<Put>, inbox: array<byte>, dataAt: u32, offsAt: u32)
    returns (fits: bool, clear: bool, vs: seq<Value>, size: u32)
    requires buf.Length < TWO32 && (maxoffs < 0x4000_0000 || Reserved(maxoffs) > buf.Length)
    requires forall i :: 0 <= i < |puts| ==> Callable(puts[i])
    requires inbox != buf && dataAt + buf.Length <= offsAt && offsAt + buf.Length <= inbox.Length < TWO32
    modifies buf, inbox
    ensures fits <==> Reserved(maxoffs) <= buf.Length && Fits(Init(old(buf[..]), maxoffs), puts)
    ensures fits ==> |vs| == |puts| && dataAt + size <= inbox.Length
    ensures fits ==> (clear && AllReturned(puts, vs, inbox[..][dataAt..dataAt + size]) <==> AllReturnable(puts))
  {
    ghost var w := Init(buf[..], maxoffs);
    InitRoom(buf[..], maxoffs);
    var msg := Build(buf, maxoffs, puts);
    OverflowDecides(w, puts);
    fits := !msg.flags.overflow;
    if fits {
      clear, vs, size := DeliverAndGet(msg, puts, inbox, dataAt, offsAt, w);
    } else {
      clear, vs, size := false, [], 0;
    }
  }

  lemma InitRoom(region: seq<byte>, maxoffs: u32)
    requires |region| < TWO32
    ensures var w := Init(region, maxoffs);
            w.data == [] && w.offs == [] && |w.free| < TWO32 && (w.overflow <==> Reserved(maxoffs) > |region|)
  {
  }

  lemma Concluded(w: Writer, puts: seq<Put>, r: Reader, clear: bool, vs: seq<Value>, d: seq<byte>)
    requires w.data == [] && w.offs == [] && !w.overflow && |w.free| < TWO32 && !Run(w, puts).overflow
    requires r == Open(Run(w, puts)) && d == r.data && vs == Answers(r, AsksFor(puts)).1 && clear == !Answers(r, AsksFor(puts)).0.overflow
    ensures |vs| == |puts| && (clear && AllReturned(puts, vs, d) <==> AllReturnable(puts))
  {
    ParcelRoundTrip(w, puts);
  }

  /** The flag of a parcel built from the start, overflow at initialisation included. */
  lemma OverflowDecides(w: Writer, puts: seq<Put>)
    ensures Run(w, puts).overflow <==> w.overflow || !Fits(w, puts)
  {
    if w.overflow {
      RunGrows(w, puts);
    } else {
      var _ := OverflowExact(w, puts);
    }
  }
}
