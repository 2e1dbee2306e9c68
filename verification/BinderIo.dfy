/** `struct binder_io` over memory: the `bio_*` calls move its cursors and write
    the buffer in place. Pointers are indices into `mem`. */
module BinderIo {
  import opened Words
  import opened BinderProtocol
  import opened Parcel
  import ParcelTheorems

  datatype Flags = Flags(shared: bool, overflow: bool, ioerror: bool)

  /** `m` with `b` stored at `at`. */
  function Stored(m: seq<byte>, at: nat, b: seq<byte>): (r: seq<byte>)
    requires at + |b| <= |m|
    ensures |r| == |m|
  {
    m[..at] + b + m[at + |b|..]
  }

  lemma OffsetsStay(m: seq<byte>, x: seq<byte>, at: nat, n: nat)
    requires |m| == |x| && at + 4 * n <= |m| && m[at..at + 4 * n] == x[at..at + 4 * n]
    ensures WordsAt(m, at, n) == WordsAt(x, at, n)
  {
    OffsetsMove(m, at, x, at, n);
  }

  /** The words of an offset table are determined by its bytes, wherever they lie. */
  lemma OffsetsMove(m: seq<byte>, at: nat, x: seq<byte>, to: nat, n: nat)
    requires at + 4 * n <= |m| && to + 4 * n <= |x| && m[at..at + 4 * n] == x[to..to + 4 * n]
    ensures WordsAt(m, at, n) == WordsAt(x, to, n)
  {
    forall i | 0 <= i < n
      ensures Word(m, at + 4 * i) == Word(x, to + 4 * i)
    {
      var a, b := m[at..at + 4 * n], x[to..to + 4 * n];
      var k := 4 * i;
      assert a[k] == m[at + k] && a[k + 1] == m[at + k + 1] && a[k + 2] == m[at + k + 2] && a[k + 3] == m[at + k + 3];
      assert b[k] == x[to + k] && b[k + 1] == x[to + k + 1] && b[k + 2] == x[to + k + 2] && b[k + 3] == x[to + k + 3];
    }
  }

  /** A transaction whose data and offsets lie in memory. */
  predicate Mapped(m: seq<byte>, txn: Txn) {
    txn.data + txn.dataSize <= |m| < TWO32 && txn.offs + txn.offsSize <= |m|
  }

  /** The reader a transaction opens to. */
  function ReaderAt(m: seq<byte>, txn: Txn): Reader
    requires Mapped(m, txn)
  {
    Reader(m[txn.data..txn.data + txn.dataSize], 0, txn.dataSize, WordsAt(m, txn.offs, txn.offsSize / 4), false)
  }

  /** The writer a memory and a set of cursors stand for. */
  function WriterAt(m: seq<byte>, data0: nat, data: nat, avail: nat, offs0: nat, offs: nat, slots: nat, overflow: bool): Writer
    requires data0 <= data && data + avail <= |m| && offs0 <= offs <= |m|
  {
    Writer(m[data0..data], m[data..data + avail], WordsAt(m, offs0, (offs - offs0) / 4), slots, overflow)
  }

  lemma SliceOfSlice(m: seq<byte>, i: nat, len: nat, a: nat, b: nat)
    requires i + len <= |m| && a <= b <= len
    ensures m[i..i + len][a..b] == m[i + a..i + b]
  {
    var x := m[i..i + len];
    forall k | 0 <= k < b - a
      ensures x[a..b][k] == m[i + a..i + b][k]
    {
      assert x[a + k] == m[i + (a + k)];
    }
    assert |x[a..b]| == |m[i + a..i + b]|;
  }

  lemma StoredSlice(m: seq<byte>, from: nat, at: nat, b: seq<byte>, to: nat)
    requires from <= at && at + |b| <= to <= |m|
    ensures Stored(m, at, b)[from..to] == m[from..at] + b + m[at + |b|..to]
  {
  }

  lemma PutWordIsStored(m: seq<byte>, at: nat, w: u32)
    requires at + 4 <= |m|
    ensures PutWord(m, at, w) == Stored(m, at, Bytes(w))
  {
  }

  lemma StoredTwice(m: seq<byte>, at: nat, a: seq<byte>, b: seq<byte>)
    requires at + |a| + |b| <= |m|
    ensures Stored(Stored(m, at, a), at + |a|, b) == Stored(m, at, a + b)
  {
    var x := Stored(m, at, a);
    assert x[..at + |a|] == m[..at] + a;
    assert x[at + |a| + |b|..] == m[at + |a| + |b|..];
  }

  /** One more word behind `done`. */
  lemma StoredWord(m: seq<byte>, at: nat, done: seq<byte>, w: u32)
    requires at + |done| + 4 <= |m|
    ensures PutWord(Stored(m, at, done), at + |done|, w) == Stored(m, at, done + Bytes(w))
  {
    PutWordIsStored(Stored(m, at, done), at + |done|, w);
    StoredTwice(m, at, done, Bytes(w));
  }

  /** The second word first. */
  lemma StoredSwapped(m: seq<byte>, at: nat, a: u32, b: u32)
    requires at + 8 <= |m|
    ensures PutWord(PutWord(m, at + 4, b), at, a) == Stored(m, at, Bytes(a) + Bytes(b))
  {
    PutWordIsStored(m, at + 4, b);
    PutWordIsStored(Stored(m, at + 4, Bytes(b)), at, a);
    StoredBefore(m, at, Bytes(a), Bytes(b));
  }

  lemma StoredBefore(m: seq<byte>, at: nat, a: seq<byte>, b: seq<byte>)
    requires at + |a| + |b| <= |m|
    ensures Stored(Stored(m, at + |a|, b), at, a) == Stored(m, at, a + b)
  {
    var x := Stored(m, at + |a|, b);
    assert x[..at] == m[..at];
    assert x[at + |a|..] == b + m[at + |a| + |b|..];
  }

  lemma FourWords(m: seq<byte>, at: nat, a: u32, b: u32, c: u32, d: u32)
    requires at + 16 <= |m|
    ensures PutWord(PutWord(PutWord(PutWord(m, at + 4, b), at, a), at + 8, c), at + 12, d) ==
            Stored(m, at, Bytes(a) + Bytes(b) + Bytes(c) + Bytes(d))
  {
    StoredSwapped(m, at, a, b);
    StoredWord(m, at, Bytes(a) + Bytes(b), c);
    StoredWord(m, at, Bytes(a) + Bytes(b) + Bytes(c), d);
  }

  /** Storing a payload at the data cursor and moving it is one append. */
  lemma StoreIsAppend(m: seq<byte>, data0: nat, data: nat, avail: nat, offs0: nat, offs: nat, slots: nat, overflow: bool,
                      payload: seq<byte>)
    requires offs0 <= offs <= data0 <= data && data + avail <= |m|
    requires |payload| <= TWO32 - 4 && Round4(|payload|) <= avail
    ensures var n := Round4(|payload|);
            WriterAt(Stored(m, data, payload), data0, data + n, avail - n, offs0, offs, slots, overflow) ==
            Append(WriterAt(m, data0, data, avail, offs0, offs, slots, overflow), payload)
  {
    var n := Round4(|payload|);
    var x := Stored(m, data, payload);
    var free := m[data..data + avail];
    SliceOfSlice(m, data, avail, |payload|, n);
    StoredSlice(m, data0, data, payload, data + n);
    assert x[data + n..data + n + (avail - n)] == free[n..];
    var k := (offs - offs0) / 4;
    assert x[offs0..offs0 + 4 * k] == m[offs0..offs0 + 4 * k];
    OffsetsStay(m, x, offs0, k);
  }

  /** Storing an object at the data cursor and its offset at the offset cursor is
      one object append, because the two regions are apart. */
  lemma StoreIsAppendObject(m: seq<byte>, data0: nat, data: nat, avail: nat, offs0: nat, offs: nat, slots: nat,
                            overflow: bool, kind: u32, ptr: u32)
    requires offs0 <= offs && (offs - offs0) % 4 == 0 && offs + 4 * slots <= data0 <= data && data + avail <= |m|
    requires slots > 0 && OBJECT_SIZE <= avail && data - data0 < TWO32
    ensures WriterAt(Stored(PutWord(m, offs, data - data0), data, Object(kind, ptr)),
                     data0, data + OBJECT_SIZE, avail - OBJECT_SIZE, offs0, offs + 4, slots - 1, overflow) ==
            AppendObject(WriterAt(m, data0, data, avail, offs0, offs, slots, overflow), kind, ptr)
  {
    var b := Object(kind, ptr);
    var y := PutWord(m, offs, data - data0);
    var x := Stored(y, data, b);
    ObjectSlices(m, y, data0, data, avail, b);
    ObjectOffset(m, data, offs0, offs, b, data - data0);
    IsAppendObject(WriterAt(m, data0, data, avail, offs0, offs, slots, overflow), kind, ptr,
                   WriterAt(x, data0, data + OBJECT_SIZE, avail - OBJECT_SIZE, offs0, offs + 4, slots - 1, overflow));
  }

  /** Neither is written outside the buffer, from `from` to `to`. */
  lemma ObjectFrame(m: seq<byte>, from: nat, slot: nat, at: nat, to: nat, v: u32, b: seq<byte>)
    requires from <= slot && slot + 4 <= at && at + |b| <= to <= |m|
    ensures var x := Stored(PutWord(m, slot, v), at, b); x[..from] == m[..from] && x[to..] == m[to..]
  {
    var y := PutWord(m, slot, v);
    assert y[..from] == m[..from] && y[to..] == m[to..];
    StoredFrame(y, from, at, b, to);
  }

  lemma StoredFrame(m: seq<byte>, from: nat, at: nat, b: seq<byte>, to: nat)
    requires from <= at && at + |b| <= to <= |m|
    ensures Stored(m, at, b)[..from] == m[..from] && Stored(m, at, b)[to..] == m[to..]
  {
  }

  /** Storing an object behind the offset table, and its offset in it, adds that offset. */
  lemma ObjectOffset(m: seq<byte>, data: nat, offs0: nat, offs: nat, b: seq<byte>, v: u32)
    requires offs0 <= offs && (offs - offs0) % 4 == 0 && offs + 4 <= data && data + |b| <= |m|
    ensures WordsAt(Stored(PutWord(m, offs, v), data, b), offs0, (offs + 4 - offs0) / 4) ==
            WordsAt(m, offs0, (offs - offs0) / 4) + [v]
  {
    var y := PutWord(m, offs, v);
    var x := Stored(y, data, b);
    Quarters(offs - offs0);
    assert x[offs0..offs + 4] == y[offs0..offs + 4];
    OffsetAdded(m, y, x, offs0, (offs - offs0) / 4, v);
  }

  lemma Quarters(d: nat)
    requires d % 4 == 0
    ensures d == 4 * (d / 4) && (d + 4) / 4 == d / 4 + 1 && (d + 4) % 4 == 0
  {
  }

  lemma SameSlice(m: seq<byte>, y: seq<byte>, from: nat, i: nat, j: nat)
    requires from <= i <= j <= |m| == |y| && y[from..] == m[from..]
    ensures y[i..j] == m[i..j]
  {
    forall k | i <= k < j
      ensures y[k] == m[k]
    {
      assert y[k] == y[from..][k - from] && m[k] == m[from..][k - from];
    }
  }

  /** Storing an object moves the border between used and free bytes over it. */
  lemma ObjectSlices(m: seq<byte>, y: seq<byte>, data0: nat, data: nat, avail: nat, b: seq<byte>)
    requires |m| == |y| && data0 <= data && data + avail <= |m| && |b| <= avail && y[data0..] == m[data0..]
    ensures var x := Stored(y, data, b);
            x[data0..data + |b|] == m[data0..data] + b && x[data + |b|..data + avail] == m[data..data + avail][|b|..]
  {
    var n, x := data + |b|, Stored(y, data, b);
    SameSlice(m, y, data0, data0, data);
    SameSlice(m, y, data0, n, data + avail);
    StoredSlice(y, data0, data, b, n);
    assert x[n..] == y[n..];
    assert m[data..data + avail][|b|..] == m[n..data + avail];
  }

  lemma IsAppendObject(w: Writer, kind: u32, ptr: u32, x: Writer)
    requires OBJECT_SIZE <= |w.free| && w.slots > 0
    requires x.data == w.data + Object(kind, ptr) && x.free == w.free[OBJECT_SIZE..]
    requires x.offs == w.offs + [|w.data|] && x.slots == w.slots - 1 && x.overflow == w.overflow
    ensures x == AppendObject(w, kind, ptr)
  {
  }

  /** Writing one word behind the offset table, and then elsewhere, adds one offset. */
  lemma OffsetAdded(m: seq<byte>, y: seq<byte>, x: seq<byte>, offs0: nat, k: nat, v: u32)
    requires offs0 + 4 * k + 4 <= |m| == |x| && y == PutWord(m, offs0 + 4 * k, v)
    requires x[offs0..offs0 + 4 * k + 4] == y[offs0..offs0 + 4 * k + 4]
    ensures WordsAt(x, offs0, k + 1) == WordsAt(m, offs0, k) + [v]
  {
    OffsetsStay(y, x, offs0, k + 1);
    OffsetsSnoc(y, offs0, k);
    assert y[offs0..offs0 + 4 * k] == m[offs0..offs0 + 4 * k];
    OffsetsStay(y, m, offs0, k);
  }

  /** Space taken without a slot: the cursor moves, nothing is stored. */
  lemma SkipIsAppendObject(m: seq<byte>, data0: nat, data: nat, avail: nat, offs0: nat, offs: nat,
                           overflow: bool, kind: u32, ptr: u32)
    requires offs0 <= offs <= data0 <= data && data + avail <= |m| && OBJECT_SIZE <= avail
    ensures WriterAt(m, data0, data + OBJECT_SIZE, avail - OBJECT_SIZE, offs0, offs, 0, true) ==
            AppendObject(WriterAt(m, data0, data, avail, offs0, offs, 0, overflow), kind, ptr)
  {
    SliceOfSlice(m, data, avail, 0, OBJECT_SIZE);
    SliceOfSlice(m, data, avail, OBJECT_SIZE, avail);
    assert m[data0..data + OBJECT_SIZE] == m[data0..data] + m[data..data + OBJECT_SIZE];
  }

  lemma OffsetsSnoc(m: seq<byte>, at: nat, n: nat)
    requires at + 4 * (n + 1) <= |m|
    ensures WordsAt(m, at, n + 1) == WordsAt(m, at, n) + [Word(m, at + 4 * n)]
  {
  }

  /** The string a NUL-terminated array holds. */
  function CString(s: seq<u16>): (t: seq<u16>)
    requires 0 in s
    ensures |t| < |s| && t == s[..|t|] && s[|t|] == 0
    ensures forall i :: 0 <= i < |t| ==> s[i] != 0
  {
    if s[0] == 0 then [] else [s[0]] + CString(s[1..])
  }

  /** A C string argument: terminated, and short enough to be counted in 32 bits. */
  predicate Argument(s: Option<seq<u16>>) {
    s.Some? ==> 0 in s.value && |s.value| <= TWO32
  }

  function TextOf(s: Option<seq<u16>>): Option<seq<u16>>
    requires Argument(s)
  {
    if s.Some? then Some(CString(s.value)) else None
  }

  /** The length of a terminated string, counted unit by unit. */
  method Length(str: seq<u16>) returns (len: nat)
    requires 0 in str
    ensures len == |CString(str)|
  {
    ghost var t := CString(str);
    len := 0;
    while str[len] != 0
      invariant len <= |t|
      decreases |t| - len
    {
      len := len + 1;
    }
  }

  lemma {:induction false} UnitsAppend(a: seq<u16>, b: seq<u16>)
    ensures Units(a + b) == Units(a) + Units(b)
  {
    if a == [] {
      assert a + b == b;
    } else {
      assert (a + b)[1..] == a[1..] + b;
      UnitsAppend(a[1..], b);
    }
  }

  lemma UnitsSnoc(t: seq<u16>, i: nat)
    requires i < |t|
    ensures Units(t[..i + 1]) == Units(t[..i]) + Units([t[i]])
  {
    assert t[..i + 1] == t[..i] + [t[i]];
    UnitsAppend(t[..i], [t[i]]);
  }

  lemma StoredUnit(m: seq<byte>, at: nat, str: seq<u16>, i: nat)
    requires i < |str| && at + 2 * |str| <= |m|
    ensures Stored(Stored(m, at, Units(str[..i])), at + 2 * i, Units([str[i]])) == Stored(m, at, Units(str[..i + 1]))
  {
    UnitsSnoc(str, i);
    StoredTwice(m, at, Units(str[..i]), Units([str[i]]));
  }

  /** What a text put does for a terminated string of `len` units. */
  lemma TextStep(w: Writer, s: seq<u16>, len: nat)
    requires 0 in s && len == |CString(s)|
    ensures len < MAX_UNITS ==>
              Step(w, PutText(Some(CString(s)))) == Append(Append(w, Bytes(len)), Units(s[..len + 1]))
    ensures len >= MAX_UNITS ==> Step(w, PutText(Some(CString(s)))) == Append(w, Bytes(NO_STRING))
  {
    assert s[..len + 1] == CString(s) + [0];
  }

  lemma TerminatedText(t: seq<u16>)
    requires 0 !in t && |t| < TWO32
    ensures Argument(Some(t + [0])) && CString(t + [0]) == t
  {
    var s := t + [0];
    assert s[|t|] == 0;
    forall i | 0 <= i < |t|
      ensures s[i] != 0
    {
      assert t[i] in t;
    }
    assert |CString(s)| == |t|;
    assert s[..|t|] == t;
  }

  /** A string put made from a C string: no NUL inside, counted in 32 bits. */
  predicate Callable(p: Put) {
    match p
    case PutText(t) => t.Some? ==> 0 !in t.value && |t.value| < TWO32
    case PutBytes(s) => s.Some? ==> 0 !in s.value && |s.value| < TWO32
    case _ => true
  }

  lemma TerminatedBytes(s: seq<byte>)
    requires 0 !in s && |s| < TWO32
    ensures Argument(Some(Widen(s + [0]))) && TextOf(Some(Widen(s + [0]))) == Some(Widen(s))
  {
    var t := Widen(s);
    assert Widen(s + [0]) == t + [0];
    forall i | 0 <= i < |t|
      ensures t[i] != 0
    {
      assert s[i] in s;
    }
    TerminatedText(t);
  }

  class BinderIo {
    const mem: array<byte>
    var data: nat
    var offs: nat
    var dataAvail: u32
    var offsAvail: u32
    var data0: nat
    var offs0: nat
    var flags: Flags
    /** Whether the cursors were ever set, and where the data region ends. */
    ghost var live: bool
    ghost var limit: nat

    /** An uninitialised `struct binder_io`. */
    constructor (mem: array<byte>)
      ensures this.mem == mem
    {
      this.mem := mem;
      this.flags := Flags(false, false, false);
    }

    // ---- Writing ---------------------------------------------------------

    /** A parcel under construction: the offset region lies before the data region. */
    ghost predicate Writing()
      reads this, mem
    {
      if live then
        && offs0 <= offs && (offs - offs0) % 4 == 0 && offs + 4 * offsAvail <= data0 <= data
        && data + dataAvail == limit <= mem.Length < TWO32
      else dataAvail == 0 && offsAvail == 0 && flags.overflow
    }

    ghost function Written(): Writer
      requires Writing()
      reads this, mem
    {
      if live then WriterAt(mem[..], data0, data, dataAvail, offs0, offs, offsAvail, flags.overflow)
      else Writer([], [], [], 0, true)
    }

    /** Only the buffer of the parcel may have changed since `was`. */
    ghost predicate OnlyBuffer(was: seq<byte>)
      reads this, mem
    {
      |was| == mem.Length && (live ==> offs0 <= limit <= mem.Length && mem[..offs0] == was[..offs0] && mem[limit..] == was[limit..])
      && (!live ==> mem[..] == was)
    }

    /** `bio_init`. When the reservation wraps around, the offset region is too
        small for the slots it promises. */
    method BioInit(base: nat, maxdata: u32, maxoffs: u32)
      requires base + maxdata <= mem.Length < TWO32
      modifies this
      ensures Writing() <==> maxoffs < 0x4000_0000 || Reserved(maxoffs) > maxdata
      ensures Writing() ==> Written() == Init(mem[base..base + maxdata], maxoffs)
      ensures live <==> Reserved(maxoffs) <= maxdata
      ensures live ==> offs0 == offs == base && limit == base + maxdata && data0 == data == base + Reserved(maxoffs)
      ensures live ==> dataAvail == maxdata - Reserved(maxoffs) && offsAvail == maxoffs
      ensures maxoffs < 0x4000_0000 ==> (live <==> 4 * maxoffs <= maxdata) && (live ==> data0 == base + 4 * maxoffs)
      ensures !flags.shared && flags.overflow == !live
    {
      var n := maxoffs * 4 % TWO32;
      if n > maxdata {
        flags := Flags(false, true, false);
        dataAvail, offsAvail := 0, 0;
        live := false;
        return;
      }
      data0 := base + n;
      data := data0;
      offs0 := base;
      offs := offs0;
      dataAvail, offsAvail := maxdata - n, maxoffs;
      flags := Flags(false, false, false);
      live, limit := true, base + maxdata;
      assert WordsAt(mem[..], offs0, 0) == [];
      assert mem[base..base + maxdata][n..] == mem[base + n..base + maxdata];
    }

    /** `bio_alloc`. */
    method Alloc(size: u32) returns (p: Option<nat>)
      modifies this`data, this`dataAvail, this`flags
      ensures var n := Round4(size);
              if n > old(dataAvail) then
                p == None && data == old(data) && dataAvail == old(dataAvail) && flags == old(flags).(overflow := true)
              else
                p == Some(old(data)) && data == old(data) + n && dataAvail == old(dataAvail) - n && flags == old(flags)
    {
      var n := (size + 3) % TWO32 / 4 * 4;
      if n > dataAvail {
        flags := flags.(overflow := true);
        return None;
      }
      p := Some(data);
      data := data + n;
      dataAvail := dataAvail - n;
    }

    /** The state after `payload` was stored at the cursor of a live parcel in
        state `w` over memory `m`. */
    ghost predicate Holding(m: seq<byte>, payload: seq<byte>, at: nat)
      reads this, mem
    {
      && live && at + |payload| <= |m| && mem[..] == Stored(m, at, payload)
      && |payload| <= TWO32 - 4 && data == at + Round4(|payload|)
    }

    /** Allocating and storing a payload is one append on the abstract parcel. */
    lemma AppendDone(m: seq<byte>, payload: seq<byte>, at: nat, avail: nat)
      requires Holding(m, payload, at) && offs0 <= offs && (offs - offs0) % 4 == 0
      requires offs + 4 * offsAvail <= data0 <= at && at + avail == limit <= mem.Length < TWO32
      requires avail == dataAvail + Round4(|payload|)
      ensures Writing() && OnlyBuffer(m)
      ensures Written() == Append(WriterAt(m, data0, at, avail, offs0, offs, offsAvail, flags.overflow), payload)
    {
      StoreIsAppend(m, data0, at, avail, offs0, offs, offsAvail, flags.overflow, payload);
    }

    /** `bio_put_uint32`. */
    method PutUint32(n: u32)
      requires Writing()
      modifies this`data, this`dataAvail, this`flags, mem
      ensures Writing() && Written() == Step(old(Written()), PutNumber(n))
      ensures !flags.overflow ==> ParcelTheorems.Stores(Written().data, |old(Written()).data|, PutNumber(n))
      ensures OnlyBuffer(old(mem[..])) && flags.shared == old(flags.shared)
    {
      ghost var w, m, avail := Written(), mem[..], dataAvail;
      var ptr := Alloc(4);
      if ptr.Some? {
        StoreNumber(ptr.value, n, m, avail);
      }
      PutStores(w, PutNumber(n));
    }

    /** A put that leaves the flag clear is in the buffer. */
    lemma PutStores(w: Writer, p: Put)
      requires Writing() && Written() == Step(w, p)
      ensures !flags.overflow ==> ParcelTheorems.Stores(Written().data, |w.data|, p)
    {
      if !flags.overflow {
        ParcelTheorems.StepStores(w, p);
      }
    }

    /** `*ptr = n`, on the word just allocated. */
    method StoreNumber(p: nat, n: u32, ghost m: seq<byte>, ghost avail: nat)
      requires live && offs0 <= offs && (offs - offs0) % 4 == 0 && offs + 4 * offsAvail <= data0 <= p
      requires mem[..] == m && p + avail == limit <= mem.Length < TWO32 && avail == dataAvail + 4 && data == p + 4
      modifies mem
      ensures Writing() && OnlyBuffer(m)
      ensures Written() == Append(WriterAt(m, data0, p, avail, offs0, offs, offsAvail, flags.overflow), Bytes(n))
    {
      WriteWord(mem, p, n);
      PutWordIsStored(m, p, n);
      AppendDone(m, Bytes(n), p, avail);
    }

    /** `bio_alloc` followed by `memcpy`. */
    method PutBlock(src: seq<byte>)
      requires Writing() && 0 < |src| <= TWO32 - 4
      modifies this`data, this`dataAvail, this`flags, mem
      ensures Writing() && Written() == Append(old(Written()), src)
      ensures OnlyBuffer(old(mem[..])) && flags.shared == old(flags.shared)
    {
      ghost var m, avail := mem[..], dataAvail;
      var ptr := Alloc(|src|);
      if ptr.Some? {
        CopyInto(mem, ptr.value, src);
        AppendDone(m, src, ptr.value, avail);
      }
    }

    /** `bio_put_string16`. */
    method PutString16(str: Option<seq<u16>>)
      requires Writing() && Argument(str)
      modifies this`data, this`dataAvail, this`flags, mem
      ensures Writing() && Written() == Step(old(Written()), PutText(TextOf(str)))
      ensures !flags.overflow ==> ParcelTheorems.StoresText(Written().data, |old(Written()).data|, TextOf(str))
      ensures OnlyBuffer(old(mem[..])) && flags.shared == old(flags.shared)
    {
      ghost var w := Written();
      if str == None {
        PutUint32(NO_STRING);
        PutStores(w, PutText(None));
        return;
      }
      var len := Length(str.value);
      TextStep(w, str.value, len);
      if len >= MAX_UNITS {
        PutUint32(NO_STRING);
      } else {
        PutUint32(len);
        PutBlock(Units(str.value[..len + 1]));
      }
      PutStores(w, PutText(TextOf(str)));
    }

    method CopyUnit(at: nat, h: u16)
      requires at + 2 <= mem.Length
      modifies mem
      ensures mem[..] == Stored(old(mem[..]), at, Units([h]))
    {
      mem[at], mem[at + 1] := h % 0x100, h / 0x100;
    }

    method CopyNext(at: nat, str: seq<u16>, i: nat, ghost m: seq<byte>)
      requires i < |str| && at + 2 * |str| <= mem.Length == |m| && mem[..] == Stored(m, at, Units(str[..i]))
      modifies mem
      ensures mem[..] == Stored(m, at, Units(str[..i + 1]))
    {
      StoredUnit(m, at, str, i);
      CopyUnit(at + 2 * i, str[i]);
    }

    /** The copy loop of `bio_put_string16_x`: one unit at a time, the terminator last. */
    method CopyUnits(at: nat, str: seq<u16>)
      requires at + 2 * |str| <= mem.Length
      modifies mem
      ensures mem[..] == Stored(old(mem[..]), at, Units(str))
    {
      ghost var m := mem[..];
      var i := 0;
      assert str[..0] == [] && Stored(m, at, []) == m;
      while i < |str|
        invariant 0 <= i <= |str|
        invariant mem[..] == Stored(m, at, Units(str[..i]))
      {
        CopyNext(at, str, i, m);
        i := i + 1;
      }
      assert str[..i] == str;
    }

    /** `bio_alloc` followed by the copy loop. */
    method PutUnits(str: seq<u16>)
      requires Writing() && 0 < 2 * |str| <= TWO32 - 4
      modifies this`data, this`dataAvail, this`flags, mem
      ensures Writing() && Written() == Append(old(Written()), Units(str))
      ensures OnlyBuffer(old(mem[..])) && flags.shared == old(flags.shared)
    {
      ghost var m, avail := mem[..], dataAvail;
      var ptr := Alloc(|str| * 2);
      if ptr.Some? {
        CopyUnits(ptr.value, str);
        AppendDone(m, Units(str), ptr.value, avail);
      }
    }

    /** `bio_put_string16_x`: the bytes of a C string, widened. */
    method PutString16X(str: Option<seq<byte>>)
      requires Writing() && (str.Some? ==> Argument(Some(Widen(str.value))))
      modifies this`data, this`dataAvail, this`flags, mem
      ensures Writing()
      ensures Written() == Step(old(Written()), PutText(if str.Some? then TextOf(Some(Widen(str.value))) else None))
      ensures !flags.overflow ==>
                ParcelTheorems.StoresText(Written().data, |old(Written()).data|,
                                          if str.Some? then TextOf(Some(Widen(str.value))) else None)
      ensures OnlyBuffer(old(mem[..])) && flags.shared == old(flags.shared)
    {
      ghost var w := Written();
      if str == None {
        PutUint32(NO_STRING);
        PutStores(w, PutText(None));
        return;
      }
      var units := Widen(str.value);
      var len := Length(units);
      TextStep(w, units, len);
      if len >= MAX_UNITS {
        PutUint32(NO_STRING);
      } else {
        PutUint32(len);
        PutUnits(units[..len + 1]);
      }
      PutStores(w, PutText(TextOf(Some(units))));
    }

    /** `bio_alloc_obj`: allocate, then take an offset slot if one is left. */
    method AllocObj() returns (obj: Option<nat>)
      requires dataAvail >= OBJECT_SIZE && offsAvail > 0 ==> offs + 4 <= mem.Length && data0 <= data && data - data0 < TWO32
      modifies this`data, this`dataAvail, this`offs, this`offsAvail, this`flags, mem
      ensures flags.shared == old(flags.shared)
      ensures if old(dataAvail) >= OBJECT_SIZE && old(offsAvail) > 0 then
                && obj == Some(old(data)) && data == old(data) + OBJECT_SIZE && dataAvail == old(dataAvail) - OBJECT_SIZE
                && offs == old(offs) + 4 && offsAvail == old(offsAvail) - 1 && flags == old(flags)
                && old(offs) + 4 <= mem.Length && data0 <= old(data) && old(data) - data0 < TWO32
                && mem[..] == PutWord(old(mem[..]), old(offs), old(data) - data0)
              else
                && obj == None && flags.overflow && offs == old(offs) && offsAvail == old(offsAvail) && mem[..] == old(mem[..])
                && (old(dataAvail) >= OBJECT_SIZE ==> data == old(data) + OBJECT_SIZE && dataAvail == old(dataAvail) - OBJECT_SIZE)
                && (old(dataAvail) < OBJECT_SIZE ==> data == old(data) && dataAvail == old(dataAvail))
    {
      obj := Alloc(OBJECT_SIZE);
      if obj.Some? && offsAvail > 0 {
        offsAvail := offsAvail - 1;
        WriteWord(mem, offs, obj.value - data0);
        offs := offs + 4;
        return;
      }
      flags := flags.(overflow := true);
      return None;
    }

    /** The field stores of `bio_put_obj` and `bio_put_ref`. */
    method FillObject(at: nat, kind: u32, ptr: u32)
      requires at + OBJECT_SIZE <= mem.Length
      modifies mem
      ensures mem[..] == Stored(old(mem[..]), at, Object(kind, ptr))
    {
      ghost var m := mem[..];
      WriteWord(mem, at + 4, OBJECT_FLAGS);
      WriteWord(mem, at, kind);
      WriteWord(mem, at + 8, ptr);
      WriteWord(mem, at + 12, 0);
      FourWords(m, at, kind, OBJECT_FLAGS, ptr, 0);
    }

    /** The state after an object and its offset were stored over memory `m`. */
    ghost predicate ObjectIn(m: seq<byte>, at: nat, avail: nat, slot: nat, slots: nat, kind: u32, ptr: u32)
      reads this, mem
    {
      && live && offs0 <= slot && (slot - offs0) % 4 == 0 && slot + 4 * slots <= data0 <= at
      && at + avail == limit <= mem.Length == |m| < TWO32
      && slots > 0 && avail >= OBJECT_SIZE && offs == slot + 4 && offsAvail == slots - 1
      && data == at + OBJECT_SIZE && dataAvail == avail - OBJECT_SIZE
      && at - data0 < TWO32 && mem[..] == Stored(PutWord(m, slot, at - data0), at, Object(kind, ptr))
    }

    /** Storing an object and its offset is one object append. */
    lemma ObjectDone(m: seq<byte>, at: nat, avail: nat, slot: nat, slots: nat, kind: u32, ptr: u32)
      requires ObjectIn(m, at, avail, slot, slots, kind, ptr)
      ensures Writing() && OnlyBuffer(m)
      ensures Written() == AppendObject(WriterAt(m, data0, at, avail, offs0, slot, slots, flags.overflow), kind, ptr)
    {
      ObjectKeeps(m, at, avail, slot, slots, kind, ptr);
      StoreIsAppendObject(m, data0, at, avail, offs0, slot, slots, flags.overflow, kind, ptr);
    }

    lemma ObjectKeeps(m: seq<byte>, at: nat, avail: nat, slot: nat, slots: nat, kind: u32, ptr: u32)
      requires ObjectIn(m, at, avail, slot, slots, kind, ptr)
      ensures Writing() && OnlyBuffer(m)
    {
      Quarters(slot - offs0);
      ObjectFrame(m, offs0, slot, at, limit, at - data0, Object(kind, ptr));
      assert mem[..offs0] == mem[..][..offs0] && mem[limit..] == mem[..][limit..];
    }

    /** Running out of slots uses up the space and stores nothing. */
    lemma SkipDone(at: nat, avail: nat, overflow: bool, kind: u32, ptr: u32)
      requires live && offs0 <= offs <= data0 <= at && (offs - offs0) % 4 == 0 && offsAvail == 0 && flags.overflow
      requires at + avail == limit <= mem.Length < TWO32 && avail >= OBJECT_SIZE
      requires data == at + OBJECT_SIZE && dataAvail == avail - OBJECT_SIZE
      ensures Writing()
      ensures Written() == AppendObject(WriterAt(mem[..], data0, at, avail, offs0, offs, 0, overflow), kind, ptr)
    {
      SkipIsAppendObject(mem[..], data0, at, avail, offs0, offs, overflow, kind, ptr);
    }

    /** `bio_put_obj`, and `bio_put_ref` of a pointer: the offset goes to the
        offset region, the object to the data region. */
    method PutRecorded(kind: u32, ptr: u32)
      requires Writing()
      modifies this`data, this`dataAvail, this`offs, this`offsAvail, this`flags, mem
      ensures Writing() && Written() == AppendObject(old(Written()), kind, ptr)
      ensures OnlyBuffer(old(mem[..])) && flags.shared == old(flags.shared)
    {
      ghost var m, avail, slot, slots := mem[..], dataAvail, offs, offsAvail;
      var at := data;
      var obj := AllocObj();
      if obj == None {
        if live && avail >= OBJECT_SIZE {
          SkipDone(at, avail, old(flags.overflow), kind, ptr);
        }
        return;
      }
      StoreObject(m, at, avail, slot, slots, kind, ptr);
    }

    /** Fill in an object whose offset was just recorded. */
    method StoreObject(ghost m: seq<byte>, at: nat, ghost avail: nat, ghost slot: nat, ghost slots: nat, kind: u32, ptr: u32)
      requires live && offs0 <= slot && (slot - offs0) % 4 == 0 && slot + 4 * slots <= data0 <= at
      requires at + avail == limit <= mem.Length == |m| < TWO32
      requires slots > 0 && avail >= OBJECT_SIZE && offs == slot + 4 && offsAvail == slots - 1
      requires data == at + OBJECT_SIZE && dataAvail == avail - OBJECT_SIZE
      requires mem[..] == PutWord(m, slot, at - data0)
      modifies mem
      ensures Writing() && OnlyBuffer(m)
      ensures Written() == AppendObject(WriterAt(m, data0, at, avail, offs0, slot, slots, flags.overflow), kind, ptr)
    {
      FillObject(at, kind, ptr);
      ObjectDone(m, at, avail, slot, slots, kind, ptr);
    }

    /** `bio_put_obj`. */
    method PutObj(ptr: u32)
      requires Writing()
      modifies this`data, this`dataAvail, this`offs, this`offsAvail, this`flags, mem
      ensures Writing() && Written() == Step(old(Written()), Parcel.PutObj(ptr))
      ensures !flags.overflow ==> ParcelTheorems.StoresObject(Written().data, |old(Written()).data|, 0x7362_2a85, ptr)
      ensures OnlyBuffer(old(mem[..])) && flags.shared == old(flags.shared)
    {
      ghost var w := Written();
      PutRecorded(BINDER_TYPE_BINDER, ptr);
      PutStores(w, Parcel.PutObj(ptr));
    }

    /** `bio_put_ref`: a NULL reference takes no offset slot. */
    method PutRef(ptr: u32)
      requires Writing()
      modifies this`data, this`dataAvail, this`offs, this`offsAvail, this`flags, mem
      ensures Writing() && Written() == Step(old(Written()), Parcel.PutRef(ptr))
      ensures !flags.overflow ==> ParcelTheorems.StoresObject(Written().data, |old(Written()).data|, 0x7368_2a85, ptr)
      ensures OnlyBuffer(old(mem[..])) && flags.shared == old(flags.shared)
    {
      ghost var w := Written();
      if ptr != 0 {
        PutRecorded(BINDER_TYPE_HANDLE, ptr);
      } else {
        PutNullRef();
      }
      PutStores(w, Parcel.PutRef(ptr));
    }

    method PutNullRef()
      requires Writing()
      modifies this`data, this`dataAvail, this`flags, mem
      ensures Writing() && Written() == Append(old(Written()), Object(BINDER_TYPE_HANDLE, 0))
      ensures OnlyBuffer(old(mem[..])) && flags.shared == old(flags.shared)
    {
      ghost var m, avail := mem[..], dataAvail;
      var obj := Alloc(OBJECT_SIZE);
      if obj == None {
        return;
      }
      FillObject(obj.value, BINDER_TYPE_HANDLE, 0);
      AppendDone(m, Object(BINDER_TYPE_HANDLE, 0), obj.value, avail);
    }

    /** The call a put stands for; strings are passed terminated. */
    method PutOne(p: Put)
      requires Writing() && Callable(p)
      modifies this`data, this`dataAvail, this`offs, this`offsAvail, this`flags, mem
      ensures Writing() && Written() == Step(old(Written()), p)
      ensures OnlyBuffer(old(mem[..])) && flags.shared == old(flags.shared)
    {
      match p {
        case PutNumber(n) => PutUint32(n);
        case PutText(t) =>
          if t.Some? {
            TerminatedText(t.value);
            PutString16(Some(t.value + [0]));
          } else {
            PutString16(None);
          }
        case PutBytes(s) =>
          if s.Some? {
            TerminatedBytes(s.value);
            PutString16X(Some(s.value + [0]));
          } else {
            PutString16X(None);
          }
        case PutRef(ptr) => PutRef(ptr);
        case PutObj(ptr) => PutObj(ptr);
      }
    }

    /** The calls of a list of puts, in order. */
    method PutAll(puts: seq<Put>)
      requires Writing() && forall i :: 0 <= i < |puts| ==> Callable(puts[i])
      modifies this`data, this`dataAvail, this`offs, this`offsAvail, this`flags, mem
      ensures Writing() && Written() == Run(old(Written()), puts)
      ensures OnlyBuffer(old(mem[..])) && flags.shared == old(flags.shared)
    {
      ghost var w, m := Written(), mem[..];
      var i := 0;
      assert puts[0..] == puts;
      while i < |puts|
        invariant 0 <= i <= |puts|
        invariant Writing() && OnlyBuffer(m) && flags.shared == old(flags.shared)
        invariant Run(w, puts) == Run(Written(), puts[i..])
      {
        assert puts[i..][1..] == puts[i + 1..];
        PutOne(puts[i]);
        i := i + 1;
      }
    }

    // ---- Reading ---------------------------------------------------------

    /** A received parcel: cursors inside its data, offsets inside memory. */
    ghost predicate Reading()
      reads this
    {
      && data0 <= data && data + dataAvail <= limit <= mem.Length < TWO32
      && offs + 4 * offsAvail <= mem.Length
    }

    ghost function Received(): Reader
      requires Reading()
      reads this, mem
      ensures Received().Valid()
    {
      Reader(mem[data0..limit], data - data0, dataAvail, WordsAt(mem[..], offs, offsAvail), flags.overflow)
    }

    /** A pointer into the data, relative to its start. */
    ghost function Relative(p: Option<nat>): Option<int>
      reads this`data0
    {
      if p.Some? then Some(p.value - data0) else None
    }

    /** `bio_init_from_txn` copies the pointers and sizes of the transaction. */
    method BioInitFromTxn(txn: Txn)
      modifies this
      ensures data == data0 == txn.data && offs == offs0 == txn.offs
      ensures dataAvail == txn.dataSize && offsAvail == txn.offsSize / 4 && flags == Flags(true, false, false)
      ensures limit == txn.data + txn.dataSize
      ensures Mapped(mem[..], txn) ==> Reading() && Received() == ReaderAt(mem[..], txn)
    {
      data0 := txn.data;
      data := data0;
      offs0 := txn.offs;
      offs := offs0;
      dataAvail := txn.dataSize;
      offsAvail := txn.offsSize / 4;
      flags := Flags(true, false, false);
      live, limit := true, txn.data + txn.dataSize;
    }

    /** `bio_get`. */
    method BioGet(size: u32) returns (ptr: Option<nat>)
      requires Reading()
      modifies this`data, this`dataAvail, this`flags
      ensures Reading() && flags.shared == old(flags.shared)
      ensures (Received(), Relative(ptr)) == Get(old(Received()), size)
      ensures ptr.Some? ==> ptr.value + Round4(size) <= limit
    {
      var n := (size + 3) % TWO32 / 4 * 4;
      if dataAvail < n {
        dataAvail := 0;
        flags := flags.(overflow := true);
        return None;
      }
      ptr := Some(data);
      data := data + n;
      dataAvail := dataAvail - n;
    }

    /** A word of the received data. */
    method ReadData(p: nat) returns (w: u32)
      requires Reading() && data0 <= p && p + 4 <= limit
      ensures w == Word(Received().data, p - data0)
    {
      w := ReadWord(mem, p);
    }

    /** `bio_get_uint32`. */
    method GetUint32() returns (n: u32)
      requires Reading()
      modifies this`data, this`dataAvail, this`flags
      ensures Reading() && flags.shared == old(flags.shared)
      ensures (Received(), n) == GetNumber(old(Received()))
    {
      var ptr := BioGet(4);
      if ptr == None {
        return 0;
      }
      n := ReadData(ptr.value);
    }

    /** `bio_get_string16`, with the length it reports through `sz`. */
    method GetString16() returns (sz: u32, ptr: Option<nat>)
      requires Reading()
      modifies this`data, this`dataAvail, this`flags
      ensures Reading() && flags.shared == old(flags.shared)
      ensures (Received(), sz, Relative(ptr)) == GetText(old(Received()))
    {
      sz := GetUint32();
      ptr := BioGet((sz + 1) * 2 % TWO32);
    }

    /** The search loop of `_bio_get_obj`. */
    method FindOffset(off: nat) returns (found: bool)
      requires Reading()
      ensures found <==> off in Received().offs
    {
      ghost var o := Received().offs;
      var n := 0;
      while n < offsAvail
        invariant 0 <= n <= offsAvail && off !in o[..n]
      {
        var word := ReadWord(mem, offs + 4 * n);
        assert word == o[n] && o[..n + 1] == o[..n] + [o[n]];
        if word == off {
          return true;
        }
        n := n + 1;
      }
      assert o[..n] == o;
      return false;
    }

    /** `_bio_get_obj`. */
    method GetObj() returns (obj: Option<nat>)
      requires Reading()
      modifies this`data, this`dataAvail, this`flags
      ensures Reading() && flags.shared == old(flags.shared)
      ensures (Received(), Relative(obj)) == GetObject(old(Received()))
      ensures obj.Some? ==> data0 <= obj.value && obj.value + OBJECT_SIZE <= limit
    {
      var found := FindOffset(data - data0);
      GetObjectBy(Received());
      if found {
        obj := BioGet(OBJECT_SIZE);
        return;
      }
      dataAvail := 0;
      flags := flags.(overflow := true);
      return None;
    }

    /** `bio_get_ref`. */
    method GetRef() returns (ref: u32)
      requires Reading()
      modifies this`data, this`dataAvail, this`flags
      ensures Reading() && flags.shared == old(flags.shared)
      ensures (Received(), ref) == Parcel.GetRef(old(Received()))
    {
      ghost var r := Received();
      var obj := GetObj();
      ghost var end := Received();
      GetRefBy(r, end);
      ref := 0;
      if obj.Some? {
        ref := ReadRef(obj.value);
        assert Received() == end;
      }
    }

    /** The handle in the object found at `p`. */
    method ReadRef(p: nat) returns (ref: u32)
      requires Reading() && data0 <= p && p + OBJECT_SIZE <= limit
      ensures ref == RefAt(Received().data, p - data0)
    {
      var kind := ReadData(p);
      if kind == BINDER_TYPE_HANDLE {
        ref := ReadData(p + 8);
        return;
      }
      return 0;
    }

    /** The call an ask stands for; a string pointer is reported relative to the data. */
    method GetOne(a: Ask) returns (v: Value)
      requires Reading()
      modifies this`data, this`dataAvail, this`flags
      ensures Reading() && flags.shared == old(flags.shared)
      ensures (Received(), v) == Answer(old(Received()), a)
    {
      match a {
        case AskNumber =>
          var n := GetUint32();
          v := Number(n);
        case AskText =>
          ghost var r := Received();
          var sz, ptr := GetString16();
          v := Text(sz, if ptr.Some? && ptr.value >= data0 then Some(ptr.value - data0) else None);
          assert Relative(ptr) == GetText(r).2;
        case AskRef =>
          var ref := GetRef();
          v := Pointer(ref);
      }
    }

    method GetNext(a: Ask, ghost start: Reader, ghost asks: seq<Ask>, ghost i: nat, ghost vs: seq<Value>) returns (v: Value)
      requires Reading() && start.Valid() && i < |asks| && a == asks[i] && Got(start, asks, i, Received(), vs)
      modifies this`data, this`dataAvail, this`flags
      ensures Reading() && flags.shared == old(flags.shared) && Got(start, asks, i + 1, Received(), vs + [v])
    {
      ghost var r := Received();
      v := GetOne(a);
      GetsStep(start, asks, i, r, vs, Received(), v);
    }

    /** The calls of a list of asks, in order. */
    method GetAll(asks: seq<Ask>) returns (vs: seq<Value>)
      requires Reading()
      modifies this`data, this`dataAvail, this`flags
      ensures Reading() && flags.shared == old(flags.shared)
      ensures (Received(), vs) == Answers(old(Received()), asks)
    {
      ghost var start := Received();
      vs := [];
      var i := 0;
      GetsBegin(start, asks);
      while i < |asks|
        invariant 0 <= i <= |asks|
        invariant Reading() && flags.shared == old(flags.shared)
        invariant Got(start, asks, i, Received(), vs)
      {
        var v := GetNext(asks[i], start, asks, i, vs);
        vs := vs + [v];
        i := i + 1;
      }
      GetsEnd(start, asks, Received(), vs);
    }
  }

  /** After `i` of the asks the reader is `r`, and they were answered by `vs`. */
  predicate Got(start: Reader, asks: seq<Ask>, i: nat, r: Reader, vs: seq<Value>)
    requires start.Valid() && r.Valid()
  {
    i <= |asks| && Answers(start, asks).0 == Answers(r, asks[i..]).0 && Answers(start, asks).1 == vs + Answers(r, asks[i..]).1
  }

  lemma GetsBegin(start: Reader, asks: seq<Ask>)
    requires start.Valid()
    ensures Got(start, asks, 0, start, [])
  {
    assert asks[0..] == asks && [] + Answers(start, asks).1 == Answers(start, asks).1;
  }

  lemma GetsStep(start: Reader, asks: seq<Ask>, i: nat, r: Reader, vs: seq<Value>, r1: Reader, v: Value)
    requires start.Valid() && r.Valid() && i < |asks| && Got(start, asks, i, r, vs) && (r1, v) == Answer(r, asks[i])
    ensures r1.Valid() && Got(start, asks, i + 1, r1, vs + [v])
  {
    assert asks[i..][0] == asks[i] && asks[i..][1..] == asks[i + 1..];
    AnswersStep(r, asks[i..], vs, r1, v);
  }

  lemma GetsEnd(start: Reader, asks: seq<Ask>, r: Reader, vs: seq<Value>)
    requires start.Valid() && r.Valid() && Got(start, asks, |asks|, r, vs)
    ensures Answers(start, asks) == (r, vs)
  {
    assert asks[|asks|..] == [] && vs + [] == vs;
  }

  lemma AnswersStep(r: Reader, asks: seq<Ask>, before: seq<Value>, r1: Reader, v: Value)
    requires r.Valid() && asks != [] && (r1, v) == Answer(r, asks[0])
    ensures r1.Valid() && Answers(r, asks).0 == Answers(r1, asks[1..]).0
    ensures before + Answers(r, asks).1 == before + [v] + Answers(r1, asks[1..]).1
  {
    Associative(before, [v], Answers(r1, asks[1..]).1);
  }

  lemma GetObjectBy(r: Reader)
    ensures r.pos in r.offs ==> GetObject(r) == Get(r, OBJECT_SIZE)
    ensures r.pos !in r.offs ==> GetObject(r) == (Drain(r), None)
  {
  }

  lemma GetRefBy(r: Reader, end: Reader)
    requires r.Valid() && GetObject(r).0 == end
    ensures end.data == r.data
    ensures Parcel.GetRef(r) == (end, if GetObject(r).1.Some? then RefAt(end.data, GetObject(r).1.value) else 0)
  {
  }

  /** Delivery: whoever copies the used data and the used offsets of a parcel to
      other addresses, with the sizes `binder_call` computes, hands over a
      transaction that opens to the parcel written. */
  lemma DeliveredOpens(m: seq<byte>, data0: nat, data: nat, avail: nat, offs0: nat, offs: nat, slots: nat,
                       x: seq<byte>, txn: Txn)
    requires data0 <= data && data + avail <= |m| && offs0 <= offs <= |m| && (offs - offs0) % 4 == 0
    requires txn.dataSize == data - data0 && txn.offsSize == offs - offs0
    requires Mapped(x, txn)
    requires x[txn.data..txn.data + txn.dataSize] == m[data0..data]
    requires x[txn.offs..txn.offs + txn.offsSize] == m[offs0..offs]
    ensures ReaderAt(x, txn) == Open(WriterAt(m, data0, data, avail, offs0, offs, slots, false))
  {
    var k := (offs - offs0) / 4;
    assert offs == offs0 + 4 * k;
    OffsetsMove(m, offs0, x, txn.offs, k);
  }

  lemma StoredOverOffset(m: seq<byte>, kind: u32, ptr: u32)
    requires |m| == OBJECT_SIZE
    ensures WordsAt(Stored(PutWord(m, 0, 0), 0, Object(kind, ptr)), 0, 1) == [kind]
  {
    var x := Stored(PutWord(m, 0, 0), 0, Object(kind, ptr));
    WordOfBytes([], kind, Bytes(OBJECT_FLAGS) + Bytes(ptr) + Bytes(0));
    assert x == [] + Bytes(kind) + (Bytes(OBJECT_FLAGS) + Bytes(ptr) + Bytes(0));
  }

  /** Why the reservation must not wrap: initialised with 2^30 slots, a parcel reserves
      nothing for them, and the first object put overwrites the offset that was to
      locate it, with no flag raised. */
  method WrappedReservation(ptr: u32) returns (bio: BinderIo)
    ensures fresh(bio) && bio.offs0 + 4 == bio.offs <= bio.mem.Length && bio.data == bio.data0 + OBJECT_SIZE
    ensures !bio.flags.overflow && WordsAt(bio.mem[..], bio.offs0, 1) == [BINDER_TYPE_BINDER]
  {
    var mem := new byte[OBJECT_SIZE];
    bio := new BinderIo(mem);
    bio.BioInit(0, OBJECT_SIZE, 0x4000_0000);
    ghost var m := mem[..];
    var obj := bio.AllocObj();
    bio.FillObject(obj.value, BINDER_TYPE_BINDER, ptr);
    StoredOverOffset(m, BINDER_TYPE_BINDER, ptr);
  }
}
