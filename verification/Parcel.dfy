/** The parcel format of the binder benchmark, on values: what the `bio_put_*`
    calls leave in the buffer and what the `bio_get_*` calls find in it. */
module Parcel {
  import opened Words

  const OBJECT_SIZE := 16
  const BINDER_TYPE_BINDER: u32 := 0x7362_2a85
  const BINDER_TYPE_HANDLE: u32 := 0x7368_2a85
  /** 0x7f | FLAT_BINDER_FLAG_ACCEPTS_FDS */
  const OBJECT_FLAGS: u32 := 0x17f
  /** MAX_BIO_SIZE / sizeof(uint16_t) */
  const MAX_UNITS := 0x2000_0000
  /** The length word of a NULL string. */
  const NO_STRING: u32 := 0xffff_ffff

  /** `(size + 3) & ~3` in 32-bit arithmetic. */
  function Round4(size: u32): (n: u32)
    ensures n % 4 == 0
    ensures size <= TWO32 - 4 ==> size <= n < size + 4
  {
    (size + 3) % TWO32 / 4 * 4
  }

  // ---- Writing -----------------------------------------------------------

  /** A parcel being written: the bytes used, the bytes still free (whatever
      they hold), the recorded object offsets and the offset slots left. */
  datatype Writer = Writer(data: seq<byte>, free: seq<byte>, offs: seq<nat>, slots: nat, overflow: bool)

  /** Two bytes per unit. */
  function Units(t: seq<u16>): (b: seq<byte>)
    ensures |b| == 2 * |t|
  {
    if t == [] then [] else [t[0] % 0x100, t[0] / 0x100] + Units(t[1..])
  }

  function Widen(s: seq<byte>): (t: seq<u16>)
    ensures |t| == |s| && forall i :: 0 <= i < |s| ==> t[i] == s[i]
  {
    seq(|s|, i requires 0 <= i < |s| => s[i] as u16)
  }

  function Object(kind: u32, ptr: u32): (b: seq<byte>)
    ensures |b| == OBJECT_SIZE
  {
    Bytes(kind) + Bytes(OBJECT_FLAGS) + Bytes(ptr) + Bytes(0)
  }

  /** Allocate room for `payload`, rounded up to whole words, and store it; the
      rounding bytes keep what the buffer held. */
  function Append(w: Writer, payload: seq<byte>): Writer
    requires |payload| <= TWO32 - 4
  {
    var n := Round4(|payload|);
    if n > |w.free| then w.(overflow := true)
    else w.(data := w.data + payload + w.free[|payload|..n], free := w.free[n..])
  }

  /** Allocate an object and record its offset; without a slot the space is
      used up but nothing is stored. */
  function AppendObject(w: Writer, kind: u32, ptr: u32): Writer {
    if OBJECT_SIZE > |w.free| then w.(overflow := true)
    else if w.slots == 0 then
      w.(data := w.data + w.free[..OBJECT_SIZE], free := w.free[OBJECT_SIZE..], overflow := true)
    else
      w.(data := w.data + Object(kind, ptr), free := w.free[OBJECT_SIZE..],
         offs := w.offs + [|w.data|], slots := w.slots - 1)
  }

  datatype Put =
    | PutNumber(n: u32)
    | PutText(t: Option<seq<u16>>)
    | PutBytes(s: Option<seq<byte>>)
    | PutRef(ptr: u32)
    | PutObj(ptr: u32)

  /** The string a text put really sends: NULL and oversized strings are dropped. */
  function Sent(t: Option<seq<u16>>): (r: Option<seq<u16>>)
    ensures r.Some? ==> r == t && |r.value| < MAX_UNITS
  {
    if t.Some? && |t.value| < MAX_UNITS then t else None
  }

  /** The string of units a byte string is sent as. */
  function Widened(s: Option<seq<byte>>): Option<seq<u16>> {
    if s.Some? then Some(Widen(s.value)) else None
  }

  predicate IsText(p: Put) {
    p.PutText? || p.PutBytes?
  }

  /** The string of a text put, as units. */
  function TextOfPut(p: Put): Option<seq<u16>>
    requires IsText(p)
  {
    if p.PutText? then p.t else Widened(p.s)
  }

  function StepText(w: Writer, t: Option<seq<u16>>): Writer {
    if Sent(t).None? then Append(w, Bytes(NO_STRING))
    else Append(Append(w, Bytes(|t.value|)), Units(t.value + [0]))
  }

  function Step(w: Writer, p: Put): Writer {
    match p
    case PutNumber(n) => Append(w, Bytes(n))
    case PutText(t) => StepText(w, t)
    case PutBytes(s) => StepText(w, Widened(s))
    case PutRef(ptr) =>
      if ptr != 0 then AppendObject(w, BINDER_TYPE_HANDLE, ptr)
      else Append(w, Object(BINDER_TYPE_HANDLE, 0))
    case PutObj(ptr) => AppendObject(w, BINDER_TYPE_BINDER, ptr)
  }

  /** The bytes `bio_init` reserves for offsets: `maxoffs * 4` in 32 bits. */
  function Reserved(maxoffs: u32): u32 {
    maxoffs * 4 % TWO32
  }

  /** `bio_init` over a buffer holding `region`. */
  function Init(region: seq<byte>, maxoffs: u32): Writer {
    if Reserved(maxoffs) > |region| then Writer([], [], [], 0, true)
    else Writer([], region[Reserved(maxoffs)..], [], maxoffs, false)
  }

  function Run(w: Writer, puts: seq<Put>): Writer
    decreases |puts|
  {
    if puts == [] then w else Run(Step(w, puts[0]), puts[1..])
  }

  // ---- Reading -----------------------------------------------------------

  /** A parcel being read: `avail` bytes are left from `pos` on, or none after a
      failed read. */
  datatype Reader = Reader(data: seq<byte>, pos: nat, avail: nat, offs: seq<nat>, overflow: bool)
  {
    predicate Valid() {
      pos + avail <= |data|
    }
  }

  function Drain(r: Reader): Reader {
    r.(avail := 0, overflow := true)
  }

  /** `bio_get`: where the bytes are, if there are enough. */
  function Get(r: Reader, size: u32): (g: (Reader, Option<nat>))
    ensures r.Valid() ==> g.0.Valid()
    ensures r.Valid() && g.1.Some? ==> g.1.value + Round4(size) <= |r.data|
    ensures g.0.data == r.data && g.0.offs == r.offs && (r.overflow ==> g.0.overflow)
  {
    var n := Round4(size);
    if r.avail < n then (Drain(r), None)
    else (r.(pos := r.pos + n, avail := r.avail - n), Some(r.pos))
  }

  function GetNumber(r: Reader): (Reader, u32)
    requires r.Valid()
  {
    var g := Get(r, 4);
    (g.0, if g.1.Some? then Word(r.data, g.1.value) else 0)
  }

  /** The byte count a length word asks for: `(len + 1) * 2`, which wraps. */
  function TextSize(length: u32): u32 {
    (length + 1) * 2 % TWO32
  }

  function GetText(r: Reader): (Reader, u32, Option<nat>)
    requires r.Valid()
  {
    var (r1, length) := GetNumber(r);
    var g := Get(r1, TextSize(length));
    (g.0, length, g.1)
  }

  /** `_bio_get_obj`: only a recorded offset starts an object. */
  function GetObject(r: Reader): (g: (Reader, Option<nat>))
    ensures r.Valid() ==> g.0.Valid() && (g.1.Some? ==> g.1.value + OBJECT_SIZE <= |r.data|)
  {
    if r.pos in r.offs then Get(r, OBJECT_SIZE) else (Drain(r), None)
  }

  function GetRef(r: Reader): (Reader, u32)
    requires r.Valid()
  {
    var g := GetObject(r);
    (g.0, if g.1.Some? then RefAt(r.data, g.1.value) else 0)
  }

  /** The reference in the object at `at`: only a handle is one. */
  function RefAt(d: seq<byte>, at: nat): u32
    requires at + OBJECT_SIZE <= |d|
  {
    if Word(d, at) == BINDER_TYPE_HANDLE then Word(d, at + 8) else 0
  }

  datatype Ask = AskNumber | AskText | AskRef

  datatype Value = Number(n: u32) | Text(length: u32, at: Option<nat>) | Pointer(ptr: u32)

  function Answer(r: Reader, a: Ask): (g: (Reader, Value))
    requires r.Valid()
    ensures g.0.Valid()
  {
    match a
    case AskNumber => var (r1, n) := GetNumber(r); (r1, Number(n))
    case AskText => var (r1, length, at) := GetText(r); (r1, Text(length, at))
    case AskRef => var (r1, ptr) := GetRef(r); (r1, Pointer(ptr))
  }

  function Answers(r: Reader, asks: seq<Ask>): (g: (Reader, seq<Value>))
    requires r.Valid()
    ensures g.0.Valid() && |g.1| == |asks|
    decreases |asks|
  {
    if asks == [] then (r, [])
    else
      var (r1, v) := Answer(r, asks[0]);
      var (r2, rest) := Answers(r1, asks[1..]);
      (r2, [v] + rest)
  }

  /** The reader of a written parcel, as `bio_init_from_txn` opens it. */
  function Open(w: Writer): Reader {
    Reader(w.data, 0, |w.data|, w.offs, false)
  }
}
