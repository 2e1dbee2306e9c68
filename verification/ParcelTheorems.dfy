/** What the parcel writer and reader promise, against a layout that does not
    follow their code. */
module ParcelTheorems {
  import opened Words
  import opened Parcel

  // ---- The layout --------------------------------------------------------

  /** The bytes a string contributes. */
  function TextWire(t: Option<seq<u16>>): (b: seq<byte>)
    ensures 4 <= |b| <= 6 + 2 * MAX_UNITS
  {
    if Sent(t).None? then Bytes(NO_STRING) else Bytes(|t.value|) + Units(t.value + [0])
  }

  /** The bytes a put contributes, without rounding. */
  function Wire(p: Put): (b: seq<byte>)
    ensures 4 <= |b| <= 6 + 2 * MAX_UNITS
  {
    match p
    case PutNumber(n) => Bytes(n)
    case PutText(t) => TextWire(t)
    case PutBytes(s) => TextWire(Widened(s))
    case PutRef(ptr) => Object(BINDER_TYPE_HANDLE, ptr)
    case PutObj(ptr) => Object(BINDER_TYPE_BINDER, ptr)
  }

  /** Rounded up to whole words. */
  function Padded(n: nat): (m: nat)
    ensures m % 4 == 0 && n <= m < n + 4
  {
    if n % 4 == 0 then n else n + 4 - n % 4
  }

  /** The whole words a put occupies. */
  function Size(p: Put): (n: nat)
    ensures n % 4 == 0 && |Wire(p)| <= n < |Wire(p)| + 4
  {
    Padded(|Wire(p)|)
  }

  function TotalSize(puts: seq<Put>): nat {
    if puts == [] then 0 else Size(puts[0]) + TotalSize(puts[1..])
  }

  predicate TakesSlot(p: Put) {
    p.PutObj? || (p.PutRef? && p.ptr != 0)
  }

  /** Where the recorded objects of a put list lie, the first put starting at `at`. */
  function Slots(puts: seq<Put>, at: nat): seq<nat> {
    if puts == [] then []
    else (if TakesSlot(puts[0]) then [at] else []) + Slots(puts[1..], at + Size(puts[0]))
  }

  /** `d` holds exactly the puts, one after the other on word boundaries. */
  predicate Holds(d: seq<byte>, puts: seq<Put>) {
    if puts == [] then d == []
    else Size(puts[0]) <= |d| && Wire(puts[0]) <= d && Holds(d[Size(puts[0])..], puts[1..])
  }

  predicate Fits(w: Writer, puts: seq<Put>) {
    TotalSize(puts) <= |w.free| && |Slots(puts, 0)| <= w.slots
  }

  // ---- One put -----------------------------------------------------------

  lemma Round4Is(n: u32)
    requires n <= TWO32 - 4
    ensures Round4(n) == Padded(n)
  {
  }

  lemma AppendFits(w: Writer, payload: seq<byte>)
    requires |payload| <= TWO32 - 4
    ensures var n := Padded(|payload|);
            Append(w, payload) == if n > |w.free| then w.(overflow := true)
                                  else w.(data := w.data + payload + w.free[|payload|..n], free := w.free[n..])
  {
    Round4Is(|payload|);
  }

  lemma PaddedSum(m: nat, n: nat)
    requires m % 4 == 0
    ensures Padded(m + n) == m + Padded(n)
  {
  }

  lemma JoinParts(w: Writer, a: seq<byte>, b: seq<byte>, n: nat, w1: Writer, x: Writer)
    requires |b| <= n && |a| + n <= |w.free| && w1 == w.(data := w.data + a, free := w.free[|a|..])
    requires x == Appended(w1, b, n)
    ensures x == Appended(w, a + b, |a| + n)
  {
    assert w1.free[|b|..n] == w.free[|a| + |b|..|a| + n];
    assert w1.free[n..] == w.free[|a| + n..];
    assert w.data + a + b == w.data + (a + b);
  }

  /** A whole number of words is appended as it is. */
  lemma AppendWords(w: Writer, a: seq<byte>)
    requires |a| % 4 == 0 && |a| <= TWO32 - 4
    ensures |a| <= |w.free| ==> Append(w, a) == w.(data := w.data + a, free := w.free[|a|..])
    ensures |a| > |w.free| ==> Append(w, a) == w.(overflow := true)
  {
    PaddedSum(|a|, 0);
    AppendFits(w, a);
    assert |a| <= |w.free| ==> w.data + a + w.free[|a|..|a|] == w.data + a;
  }

  /** Two appends, the first a whole number of words, are one append. */
  lemma AppendTwice(w: Writer, a: seq<byte>, b: seq<byte>)
    requires |a| % 4 == 0 && |a| + |b| <= TWO32 - 4
    ensures Padded(|a + b|) == |a| + Padded(|b|)
    ensures |a| + Padded(|b|) <= |w.free| ==> Append(Append(w, a), b) == Append(w, a + b)
    ensures |a| + Padded(|b|) > |w.free| ==> Append(Append(w, a), b).overflow
  {
    PaddedSum(|a|, |b|);
    AppendWords(w, a);
    if |a| + Padded(|b|) <= |w.free| {
      AppendBoth(w, a, b);
    } else {
      AppendFits(Append(w, a), b);
    }
  }

  lemma AppendBoth(w: Writer, a: seq<byte>, b: seq<byte>)
    requires |a| % 4 == 0 && |a| + |b| <= TWO32 - 4 && |a| + Padded(|b|) <= |w.free|
    ensures Append(Append(w, a), b) == Append(w, a + b)
  {
    PaddedSum(|a|, |b|);
    AppendWords(w, a);
    var w1, n := Append(w, a), Padded(|b|);
    var x := Appended(w1, b, n);
    JoinParts(w, a, b, n, w1, x);
    AppendRoom(w1, b, n, x);
    AppendRoom(w, a + b, |a| + n, x);
  }

  /** `payload` stored in the first `n` free bytes. */
  function Appended(w: Writer, payload: seq<byte>, n: nat): Writer
    requires |payload| <= n <= |w.free|
  {
    w.(data := w.data + payload + w.free[|payload|..n], free := w.free[n..])
  }

  lemma AppendRoom(w: Writer, payload: seq<byte>, n: nat, x: Writer)
    requires |payload| <= TWO32 - 4 && n == Padded(|payload|) <= |w.free| && x == Appended(w, payload, n)
    ensures Append(w, payload) == x
  {
    AppendFits(w, payload);
  }

  predicate Fit(w: Writer, p: Put) {
    Size(p) <= |w.free| && (TakesSlot(p) ==> w.slots > 0)
  }

  /** `x` is `w` with `p` written: its wire bytes, and at most one slot. */
  predicate Stepped(w: Writer, p: Put, x: Writer)
    requires Fit(w, p)
  {
    && x.data == w.data + Wire(p) + w.free[|Wire(p)|..Size(p)]
    && x.free == w.free[Size(p)..]
    && x.offs == w.offs + (if TakesSlot(p) then [|w.data|] else [])
    && x.slots == w.slots - (if TakesSlot(p) then 1 else 0)
    && x.overflow == w.overflow
  }

  lemma StepFits(w: Writer, p: Put)
    requires Fit(w, p)
    ensures Stepped(w, p, Step(w, p))
  {
    AppendFits(w, Wire(p));
    if IsText(p) && Sent(TextOfPut(p)).Some? {
      var t := TextOfPut(p).value;
      AppendTwice(w, Bytes(|t|), Units(t + [0]));
    }
  }

  /** A put that does not fit raises the overflow flag. */
  lemma StepOverflows(w: Writer, p: Put)
    requires !Fit(w, p)
    ensures Step(w, p).overflow
  {
    if IsText(p) {
      TextOverflows(w, TextOfPut(p));
    } else {
      AppendFits(w, Wire(p));
    }
  }

  lemma TextOverflows(w: Writer, t: Option<seq<u16>>)
    requires Padded(|TextWire(t)|) > |w.free|
    ensures StepText(w, t).overflow
  {
    AppendFits(w, TextWire(t));
    if Sent(t).Some? {
      AppendTwice(w, Bytes(|t.value|), Units(t.value + [0]));
    }
  }

  // ---- What is stored, word by word --------------------------------------

  /** The string `t` and its terminator at position `at`, low byte before high byte. */
  predicate Spelled(d: seq<byte>, at: nat, t: seq<u16>) {
    && at + 2 * (|t| + 1) <= |d|
    && (forall i :: 0 <= i < |t| ==> (d[at + 2 * i] as int) + 0x100 * (d[at + 2 * i + 1] as int) == t[i])
    && d[at + 2 * |t|] == 0 && d[at + 2 * |t| + 1] == 0
  }

  /** A length word and the string; a NULL string or one of 2^29 units or more is the length
      word of all ones. */
  predicate StoresText(d: seq<byte>, at: nat, t: Option<seq<u16>>) {
    && at + 4 <= |d|
    && if t.None? || |t.value| >= 0x2000_0000 then Word(d, at) == 0xffff_ffff
       else Word(d, at) == |t.value| && Spelled(d, at + 4, t.value)
  }

  /** The four words of an object: type, flags, pointer and cookie. */
  predicate StoresObject(d: seq<byte>, at: nat, kind: u32, ptr: u32) {
    && at + 16 <= |d|
    && Word(d, at) == kind && Word(d, at + 4) == 0x17f && Word(d, at + 8) == ptr && Word(d, at + 12) == 0
  }

  /** What a put leaves at position `at`. */
  predicate Stores(d: seq<byte>, at: nat, p: Put) {
    match p
    case PutNumber(n) => at + 4 <= |d| && Word(d, at) == n
    case PutText(t) => StoresText(d, at, t)
    case PutBytes(s) => StoresText(d, at, if s.Some? then Some(Widen(s.value)) else None)
    case PutRef(ptr) => StoresObject(d, at, 0x7368_2a85, ptr)
    case PutObj(ptr) => StoresObject(d, at, 0x7362_2a85, ptr)
  }

  lemma {:induction false} UnitsAt(t: seq<u16>, i: nat)
    requires i < |t|
    ensures (Units(t)[2 * i] as int) + 0x100 * (Units(t)[2 * i + 1] as int) == t[i]
    decreases i
  {
    if i > 0 {
      UnitsAt(t[1..], i - 1);
    }
  }

  lemma UnitsSpell(d: seq<byte>, at: nat, t: seq<u16>)
    requires At(d, at, Units(t + [0]))
    ensures Spelled(d, at, t)
  {
    var s := t + [0];
    var u := Units(s);
    forall i | 0 <= i < |s|
      ensures (d[at + 2 * i] as int) + 0x100 * (d[at + 2 * i + 1] as int) == s[i]
    {
      UnitsAt(s, i);
      assert d[at..at + |u|][2 * i] == u[2 * i] && d[at..at + |u|][2 * i + 1] == u[2 * i + 1];
    }
    var n := |t|;
    assert (d[at + 2 * n] as int) + 0x100 * (d[at + 2 * n + 1] as int) == s[n] == 0;
    assert forall i :: 0 <= i < n ==> s[i] == t[i];
  }

  lemma WireStores(d: seq<byte>, at: nat, p: Put)
    requires at <= |d| && Wire(p) <= d[at..]
    ensures Stores(d, at, p)
  {
    if IsText(p) {
      TextStores(d, at, TextOfPut(p));
    } else if p.PutNumber? {
      assert Bytes(p.n) + [] == Bytes(p.n);
      FirstWord(d, at, p.n, []);
    } else {
      ObjectStores(d, at, if p.PutRef? then BINDER_TYPE_HANDLE else BINDER_TYPE_BINDER, p.ptr);
    }
  }

  lemma TextStores(d: seq<byte>, at: nat, t: Option<seq<u16>>)
    requires at <= |d| && TextWire(t) <= d[at..]
    ensures StoresText(d, at, t)
  {
    if Sent(t).None? {
      assert Bytes(NO_STRING) + [] == Bytes(NO_STRING);
      FirstWord(d, at, NO_STRING, []);
    } else {
      var u := Units(t.value + [0]);
      FirstWord(d, at, |t.value|, u);
      SliceOfWire(d, at, Bytes(|t.value|), u);
      UnitsSpell(d, at + 4, t.value);
    }
  }

  lemma ObjectStores(d: seq<byte>, at: nat, kind: u32, ptr: u32)
    requires at <= |d| && Object(kind, ptr) <= d[at..]
    ensures StoresObject(d, at, kind, ptr)
  {
    var k, f, q, c := Bytes(kind), Bytes(OBJECT_FLAGS), Bytes(ptr), Bytes(0);
    assert Object(kind, ptr) == k + (f + q + c);
    FirstWord(d, at, kind, f + q + c);
    assert Object(kind, ptr) == k + f + (q + c);
    WordsOfWire(d, at, k, OBJECT_FLAGS, q + c);
    assert Object(kind, ptr) == (k + f) + q + c;
    WordsOfWire(d, at, k + f, ptr, c);
    assert Object(kind, ptr) == (k + f + q) + c + [];
    WordsOfWire(d, at, k + f + q, 0, []);
  }

  lemma {:induction false} RunJoin(w: Writer, a: seq<Put>, b: seq<Put>)
    ensures Run(w, a + b) == Run(Run(w, a), b)
    decreases |a|
  {
    if a == [] {
      assert a + b == b;
    } else {
      assert (a + b)[1..] == a[1..] + b && (a + b)[0] == a[0];
      RunJoin(Step(w, a[0]), a[1..], b);
    }
  }

  /** What was stored stays where it is, whatever is put later. */
  lemma StoredStays(w: Writer, p: Put, z: Writer)
    requires !Step(w, p).overflow && Step(w, p).data <= z.data
    ensures Stores(z.data, |w.data|, p)
  {
    if !Fit(w, p) {
      StepOverflows(w, p);
    }
    StepFits(w, p);
    StartsWith(w.data, Wire(p), w.free[|Wire(p)|..Size(p)], z.data);
    WireStores(z.data, |w.data|, p);
  }

  /** A put that leaves the flag clear is stored at the cursor. */
  lemma StepStores(w: Writer, p: Put)
    requires !Step(w, p).overflow
    ensures Stores(Step(w, p).data, |w.data|, p)
  {
    StoredStays(w, p, Step(w, p));
  }

  lemma StartsWith(a: seq<byte>, b: seq<byte>, c: seq<byte>, d: seq<byte>)
    requires a + b + c <= d
    ensures |a| <= |d| && b <= d[|a|..]
  {
    assert |d| >= |a + b + c| && d[..|a + b + c|] == a + b + c;
    assert d[|a|..|a| + |b|] == b;
  }

  /** After any puts that leave the flag clear the parcel stores each of them, word by word,
      behind the ones before it. */
  lemma RunStores(w: Writer, before: seq<Put>, p: Put, after: seq<Put>)
    requires w.data == [] && w.offs == [] && !Run(w, before + ([p] + after)).overflow
    ensures Stores(Run(w, before + ([p] + after)).data, TotalSize(before), p)
  {
    var x := Run(w, before);
    var y := Step(x, p);
    var z := Run(y, after);
    RunJoin(w, before, [p] + after);
    assert ([p] + after)[1..] == after;
    assert Run(x, [p] + after) == z;
    RunGrows(y, after);
    StepGrows(x, p);
    RunGrows(w, before);
    var _ := OverflowExact(w, before);
    StoredStays(x, p, z);
  }

  /** A put that does not fit uses up the room of what it got to: nothing, or the length word
      of a string, or the sixteen bytes of an object that finds no slot left. */
  lemma FailedPutUses(w: Writer, p: Put)
    requires !Fit(w, p)
    ensures var x := Step(w, p);
            && x.offs == w.offs && x.slots == w.slots
            && |x.data| == |w.data| + if TakesSlot(p) && |w.free| >= 16 then 16
                                      else if IsText(p) && Sent(TextOfPut(p)).Some? && |w.free| >= 4 then 4
                                      else 0
  {
    if IsText(p) {
      FailedTextUses(w, TextOfPut(p));
    } else {
      AppendFits(w, Wire(p));
    }
  }

  lemma FailedTextUses(w: Writer, t: Option<seq<u16>>)
    requires Padded(|TextWire(t)|) > |w.free|
    ensures var x := StepText(w, t);
            && x.offs == w.offs && x.slots == w.slots
            && |x.data| == |w.data| + if Sent(t).Some? && |w.free| >= 4 then 4 else 0
  {
    AppendFits(w, TextWire(t));
    if Sent(t).Some? {
      var u := Units(t.value + [0]);
      SentWire(t.value);
      AppendWords(w, Bytes(|t.value|));
      AppendFits(Append(w, Bytes(|t.value|)), u);
    }
  }

  /** From `w` to `x` no flag was cleared, and no byte or slot created or lost. */
  predicate Grows(w: Writer, x: Writer) {
    && (w.overflow ==> x.overflow)
    && |x.data| + |x.free| == |w.data| + |w.free|
    && |x.offs| + x.slots == |w.offs| + w.slots
    && (|w.data| % 4 == 0 ==> |x.data| % 4 == 0)
    && w.data <= x.data && w.offs <= x.offs
  }

  lemma AppendGrows(w: Writer, payload: seq<byte>)
    requires |payload| <= TWO32 - 4
    ensures Grows(w, Append(w, payload))
  {
    var n := Padded(|payload|);
    AppendFits(w, payload);
    if n <= |w.free| {
      AppendedGrows(w, payload, n);
    }
  }

  lemma AppendedGrows(w: Writer, payload: seq<byte>, n: nat)
    requires |payload| <= n <= |w.free| && n % 4 == 0
    ensures Grows(w, Appended(w, payload, n))
  {
    assert w.data <= w.data + payload + w.free[|payload|..n];
  }

  lemma StepGrows(w: Writer, p: Put)
    ensures Grows(w, Step(w, p))
  {
    AppendGrows(w, Wire(p));
    if IsText(p) && Sent(TextOfPut(p)).Some? {
      var t := TextOfPut(p).value;
      AppendGrows(w, Bytes(|t|));
      AppendGrows(Append(w, Bytes(|t|)), Units(t + [0]));
    }
  }

  /** Conservation over any sequence of puts, overflowing or not. */
  lemma {:induction false} RunGrows(w: Writer, puts: seq<Put>)
    ensures Grows(w, Run(w, puts))
    decreases |puts|
  {
    if puts != [] {
      StepGrows(w, puts[0]);
      RunGrows(Step(w, puts[0]), puts[1..]);
    }
  }

  // ---- All puts ----------------------------------------------------------

  /** Moving the start moves every slot with it. */
  lemma {:induction false} SlotsAt(puts: seq<Put>, at: nat)
    ensures |Slots(puts, at)| == |Slots(puts, 0)|
    decreases |puts|
  {
    if puts != [] {
      SlotsAt(puts[1..], at + Size(puts[0]));
      SlotsAt(puts[1..], Size(puts[0]));
    }
  }

  /** The puts `puts` turned `w` into `x`, writing `tail`. */
  predicate Wrote(w: Writer, puts: seq<Put>, x: Writer, tail: seq<byte>) {
    && x.data == w.data + tail && Holds(tail, puts) && |tail| == TotalSize(puts)
    && x.offs == w.offs + Slots(puts, |w.data|)
  }

  lemma HoldsCons(puts: seq<Put>, pad: seq<byte>, more: seq<byte>)
    requires puts != [] && |Wire(puts[0])| + |pad| == Size(puts[0])
    requires Holds(more, puts[1..]) && |more| == TotalSize(puts[1..])
    ensures Holds(Wire(puts[0]) + pad + more, puts)
    ensures |Wire(puts[0]) + pad + more| == TotalSize(puts)
  {
    HoldsParts(Wire(puts[0]), pad, more);
  }

  lemma HoldsParts(wire: seq<byte>, pad: seq<byte>, more: seq<byte>)
    ensures var d := wire + pad + more; |d| == |wire| + |pad| + |more| && wire <= d && d[|wire| + |pad|..] == more
  {
    assert wire + pad + more == wire + (pad + more);
  }

  lemma Joined(offs: seq<nat>, one: seq<nat>, more: seq<nat>, offs1: seq<nat>, offs2: seq<nat>, all: seq<nat>)
    requires offs1 == offs + one && offs2 == offs1 + more && all == one + more
    ensures offs2 == offs + all
  {
  }

  /** Offsets before the first put, after it, and after all of them. */
  lemma SlotsCons(puts: seq<Put>, at: nat, offs: seq<nat>, mid: nat, offs1: seq<nat>, offs2: seq<nat>)
    requires puts != [] && mid == at + Size(puts[0])
    requires offs1 == offs + (if TakesSlot(puts[0]) then [at] else []) && offs2 == offs1 + Slots(puts[1..], mid)
    ensures offs2 == offs + Slots(puts, at)
  {
    var first, more := FirstSlot(puts, at, mid);
    Joined(offs, first, more, offs1, offs2, Slots(puts, at));
  }

  lemma FirstSlot(puts: seq<Put>, at: nat, mid: nat) returns (first: seq<nat>, more: seq<nat>)
    requires puts != [] && mid == at + Size(puts[0])
    ensures first == (if TakesSlot(puts[0]) then [at] else []) && more == Slots(puts[1..], mid)
    ensures Slots(puts, at) == first + more
  {
    first, more := if TakesSlot(puts[0]) then [at] else [], Slots(puts[1..], mid);
  }

  lemma Regroup(a: seq<byte>, b: seq<byte>, c: seq<byte>, d: seq<byte>)
    ensures a + b + c + d == a + (b + c + d)
  {
    Associative(a, b, c);
    Associative(a, b + c, d);
  }

  lemma WroteOne(w: Writer, puts: seq<Put>, x1: Writer, x: Writer, more: seq<byte>) returns (tail: seq<byte>)
    requires puts != [] && Fit(w, puts[0]) && Stepped(w, puts[0], x1) && Wrote(x1, puts[1..], x, more)
    ensures Wrote(w, puts, x, tail)
  {
    var wire := Wire(puts[0]);
    var pad := w.free[|wire|..Size(puts[0])];
    tail := wire + pad + more;
    HoldsCons(puts, pad, more);
    assert x.data == w.data + tail by {
      Regroup(w.data, wire, pad, more);
    }
    SlotsCons(puts, |w.data|, w.offs, |x1.data|, x1.offs, x.offs);
  }

  lemma FitsStep(w: Writer, puts: seq<Put>, x1: Writer)
    requires puts != [] && Fit(w, puts[0]) && Stepped(w, puts[0], x1)
    ensures Fits(w, puts) <==> Fits(x1, puts[1..])
  {
    SlotsAt(puts[1..], Size(puts[0]));
  }

  /** The flag test in `binder_call` is exact: it is clear at the end if and only
      if all the puts fit, and then every one of them was written in full. */
  lemma {:induction false} OverflowExact(w: Writer, puts: seq<Put>) returns (tail: seq<byte>)
    requires !w.overflow
    ensures !Run(w, puts).overflow <==> Fits(w, puts)
    ensures Fits(w, puts) ==> Wrote(w, puts, Run(w, puts), tail)
    decreases |puts|
  {
    tail := [];
    if puts == [] {
      assert w.data + [] == w.data && w.offs + [] == w.offs;
    } else {
      var p := puts[0];
      var x := Step(w, p);
      if Fit(w, p) {
        StepFits(w, p);
        FitsStep(w, puts, x);
        var more := OverflowExact(x, puts[1..]);
        if Fits(w, puts) {
          tail := WroteOne(w, puts, x, Run(w, puts), more);
        }
      } else {
        StepOverflows(w, p);
        RunGrows(x, puts[1..]);
      }
    }
  }

  /** The parcel `x` carries all of the puts. */
  predicate Carries(data: seq<byte>, offs: seq<nat>, puts: seq<Put>) {
    Holds(data, puts) && |data| == TotalSize(puts) && offs == Slots(puts, 0)
  }

  /** Whatever is sent without a look at the flag carries the puts exactly if they fit. */
  lemma CarriesExactly(w: Writer, puts: seq<Put>)
    requires w.data == [] && w.offs == [] && !w.overflow
    ensures Carries(Run(w, puts).data, Run(w, puts).offs, puts) <==> Fits(w, puts)
  {
    var x := Run(w, puts);
    RunGrows(w, puts);
    var tail := OverflowExact(w, puts);
    if Fits(w, puts) {
      assert x.data == tail && x.offs == Slots(puts, 0);
    } else {
      assert |x.data| < TotalSize(puts) || |x.offs| < |Slots(puts, 0)|;
    }
  }

  // ---- The allocator -----------------------------------------------------

  /** Everything used is whole words, and the recorded objects lie inside it, in
      strictly increasing order, aligned and disjoint. */
  predicate Laid(w: Writer) {
    && |w.data| % 4 == 0
    && (forall i :: 0 <= i < |w.offs| ==> w.offs[i] % 4 == 0 && w.offs[i] + OBJECT_SIZE <= |w.data|)
    && (forall i, j :: 0 <= i < j < |w.offs| ==> w.offs[i] + OBJECT_SIZE <= w.offs[j])
  }

  lemma LaidGrows(w: Writer, x: Writer)
    requires Laid(w) && Grows(w, x) && x.offs == w.offs
    ensures Laid(x)
  {
  }

  lemma LaidStep(w: Writer, p: Put)
    requires Laid(w)
    ensures Laid(Step(w, p))
  {
    var x := Step(w, p);
    StepGrows(w, p);
    if x.offs == w.offs {
      LaidGrows(w, x);
    } else {
      assert x.offs == w.offs + [|w.data|] && |x.data| == |w.data| + OBJECT_SIZE;
    }
  }

  /** The allocator invariant holds after any sequence of puts, also when puts
      continue after an overflow. */
  lemma {:induction false} AllocatorInvariant(w: Writer, puts: seq<Put>)
    requires Laid(w)
    ensures Laid(Run(w, puts)) && Grows(w, Run(w, puts))
    decreases |puts|
  {
    RunGrows(w, puts);
    if puts != [] {
      LaidStep(w, puts[0]);
      AllocatorInvariant(Step(w, puts[0]), puts[1..]);
    }
  }

  // ---- Round trip --------------------------------------------------------

  /** The get that matches a put. */
  function AskFor(p: Put): Ask {
    match p
    case PutNumber(_) => AskNumber
    case PutText(_) => AskText
    case PutBytes(_) => AskText
    case PutRef(_) => AskRef
    case PutObj(_) => AskRef
  }

  function AsksFor(puts: seq<Put>): (a: seq<Ask>)
    ensures |a| == |puts|
  {
    if puts == [] then [] else [AskFor(puts[0])] + AsksFor(puts[1..])
  }

  /** The get returned what the put sent: for a string its length and a pointer to
      its units and terminator, for a NULL string the length word of all ones, and
      nothing for an object that is not a handle. */
  predicate Matches(p: Put, v: Value, d: seq<byte>) {
    match p
    case PutNumber(n) => v == Number(n)
    case PutText(t) => TextMatches(t, v, d)
    case PutBytes(s) => TextMatches(Widened(s), v, d)
    case PutRef(ptr) => v == Pointer(ptr)
    case PutObj(_) => v == Pointer(0)
  }

  predicate TextMatches(t: Option<seq<u16>>, v: Value, d: seq<byte>) {
    v.Text? && v.at.Some? &&
    if Sent(t).None? then v.length == NO_STRING
    else v.length == |t.value| && At(d, v.at.value, Units(t.value + [0]))
  }

  /** `u` lies at position `at`. */
  predicate At(d: seq<byte>, at: nat, u: seq<byte>) {
    at + |u| <= |d| && d[at..at + |u|] == u
  }

  predicate AllMatch(puts: seq<Put>, vs: seq<Value>, d: seq<byte>)
    requires |vs| == |puts|
  {
    puts == [] || (Matches(puts[0], vs[0], d) && AllMatch(puts[1..], vs[1..], d))
  }

  predicate IsNullRef(p: Put) {
    p.PutRef? && p.ptr == 0
  }

  predicate NoNullRef(puts: seq<Put>) {
    puts == [] || (!IsNullRef(puts[0]) && NoNullRef(puts[1..]))
  }

  /** The reader stands at `at` with everything after it still available. */
  predicate Ready(r: Reader, at: nat) {
    r.pos == at <= |r.data| && r.avail == |r.data| - at && !r.overflow
  }

  lemma WordsOfWire(d: seq<byte>, at: nat, head: seq<byte>, w: u32, z: seq<byte>)
    requires at <= |d| && head + Bytes(w) + z <= d[at..]
    ensures at + |head| + 4 <= |d| && Word(d, at + |head|) == w
  {
    WordOfBytes(head, w, z);
    var x := head + Bytes(w) + z;
    var h := |head|;
    assert |d[at..]| >= |x| && d[at..][..|x|] == x;
    assert d[at + h] == x[h] && d[at + h + 1] == x[h + 1] && d[at + h + 2] == x[h + 2] && d[at + h + 3] == x[h + 3];
  }

  lemma FirstWord(d: seq<byte>, at: nat, w: u32, z: seq<byte>)
    requires at <= |d| && Bytes(w) + z <= d[at..]
    ensures at + 4 <= |d| && Word(d, at) == w
  {
    assert [] + Bytes(w) + z == Bytes(w) + z;
    WordsOfWire(d, at, [], w, z);
  }

  lemma ReadNumber(r: Reader, at: nat, n: u32, z: seq<byte>)
    requires Ready(r, at) && Bytes(n) + z <= r.data[at..]
    ensures GetNumber(r) == (r.(pos := at + 4, avail := r.avail - 4), n)
  {
    FirstWord(r.data, at, n, z);
  }

  lemma ReadObject(r: Reader, at: nat, kind: u32, ptr: u32)
    requires Ready(r, at) && Object(kind, ptr) <= r.data[at..]
    ensures at in r.offs ==> GetRef(r) == (r.(pos := at + 16, avail := r.avail - 16),
                                           if kind == BINDER_TYPE_HANDLE then ptr else 0)
    ensures at !in r.offs ==> GetRef(r) == (Drain(r), 0)
  {
    WireRef(r.data, at, kind, ptr);
  }

  lemma WireRef(d: seq<byte>, at: nat, kind: u32, ptr: u32)
    requires at <= |d| && Object(kind, ptr) <= d[at..]
    ensures at + OBJECT_SIZE <= |d| && RefAt(d, at) == if kind == BINDER_TYPE_HANDLE then ptr else 0
  {
    assert Object(kind, ptr) == Bytes(kind) + (Bytes(OBJECT_FLAGS) + Bytes(ptr) + Bytes(0));
    FirstWord(d, at, kind, Bytes(OBJECT_FLAGS) + Bytes(ptr) + Bytes(0));
    assert Object(kind, ptr) == (Bytes(kind) + Bytes(OBJECT_FLAGS)) + Bytes(ptr) + Bytes(0);
    WordsOfWire(d, at, Bytes(kind) + Bytes(OBJECT_FLAGS), ptr, Bytes(0));
  }

  lemma ReadNoString(r: Reader, at: nat)
    requires Ready(r, at) && Bytes(NO_STRING) <= r.data[at..]
    ensures GetText(r) == (r.(pos := at + 4, avail := r.avail - 4), NO_STRING, Some(at + 4))
  {
    assert Bytes(NO_STRING) + [] == Bytes(NO_STRING);
    ReadNumber(r, at, NO_STRING, []);
    assert TextSize(NO_STRING) == 0 && Round4(0) == 0;
  }

  lemma ReadString(r: Reader, at: nat, length: u32, u: seq<byte>)
    requires length < MAX_UNITS && |u| == 2 * (length + 1) && Ready(r, at) && Bytes(length) + u <= r.data[at..]
    requires 4 + Padded(|u|) <= r.avail
    ensures var n := 4 + Padded(|u|);
            GetText(r) == (r.(pos := at + n, avail := r.avail - n), length, Some(at + 4))
  {
    ReadNumber(r, at, length, u);
    assert TextSize(length) == |u|;
    Round4Is(|u|);
  }

  lemma SliceOfWire(d: seq<byte>, at: nat, a: seq<byte>, b: seq<byte>)
    requires at <= |d| && a + b <= d[at..]
    ensures At(d, at + |a|, b)
  {
    assert |d[at..]| >= |a + b| && d[at..][..|a + b|] == a + b;
    assert d[at + |a|..at + |a| + |b|] == d[at..][..|a + b|][|a|..];
  }

  lemma AnswerText(r: Reader, at: nat, length: u32, u: seq<byte>)
    requires length < MAX_UNITS && |u| == 2 * (length + 1) && Ready(r, at)
    requires 4 + Padded(|u|) <= r.avail && Bytes(length) + u <= r.data[at..]
    ensures var n := 4 + Padded(|u|);
            Answer(r, AskText) == (r.(pos := at + n, avail := r.avail - n), Text(length, Some(at + 4)))
    ensures At(r.data, at + 4, u)
  {
    ReadString(r, at, length, u);
    SliceOfWire(r.data, at, Bytes(length), u);
  }

  lemma SentWire(t: seq<u16>)
    requires |t| < MAX_UNITS
    ensures var u := Units(t + [0]);
            && |u| == 2 * (|t| + 1) && TextWire(Some(t)) == Bytes(|t|) + u
            && Padded(|TextWire(Some(t))|) == 4 + Padded(|u|)
  {
    var u := Units(t + [0]);
    assert Sent(Some(t)) == Some(t);
    WordBefore(Bytes(|t|), u);
  }

  lemma WordBefore(a: seq<byte>, b: seq<byte>)
    requires |a| == 4
    ensures Padded(|a + b|) == 4 + Padded(|b|)
  {
    PaddedSum(4, |b|);
  }

  lemma AnswerNumber(r: Reader, at: nat, n: u32)
    requires Ready(r, at) && Bytes(n) <= r.data[at..]
    ensures Answer(r, AskNumber) == (r.(pos := at + 4, avail := r.avail - 4), Number(n))
  {
    assert Bytes(n) + [] == Bytes(n);
    ReadNumber(r, at, n, []);
  }

  /** The get that answered `v` and left `r1` undid the put `p` at `at`. */
  predicate Undone(r: Reader, at: nat, p: Put, r1: Reader, v: Value) {
    && r1.data == r.data && r1.offs == r.offs && r1.Valid()
    && if IsNullRef(p) then r1 == Drain(r)
       else Ready(r1, at + Size(p)) && Matches(p, v, r.data)
  }

  /** A get of a string undoes its put. */
  lemma TextRead(r: Reader, at: nat, t: Option<seq<u16>>)
    requires Ready(r, at) && Padded(|TextWire(t)|) <= r.avail && TextWire(t) <= r.data[at..]
    ensures var n := Padded(|TextWire(t)|);
            Answer(r, AskText).0 == r.(pos := at + n, avail := r.avail - n) && TextMatches(t, Answer(r, AskText).1, r.data)
  {
    if Sent(t).None? {
      ReadNoString(r, at);
    } else {
      SentWire(t.value);
      AnswerText(r, at, |t.value|, Units(t.value + [0]));
    }
  }

  lemma TextUndone(r: Reader, at: nat, p: Put)
    requires IsText(p) && Ready(r, at) && Size(p) <= r.avail && Wire(p) <= r.data[at..]
    ensures Undone(r, at, p, Answer(r, AskText).0, Answer(r, AskText).1)
  {
    TextRead(r, at, TextOfPut(p));
  }

  lemma ObjectUndone(r: Reader, at: nat, p: Put)
    requires p.PutRef? || p.PutObj?
    requires Ready(r, at) && Size(p) <= r.avail && Wire(p) <= r.data[at..] && (at in r.offs <==> TakesSlot(p))
    ensures Undone(r, at, p, Answer(r, AskRef).0, Answer(r, AskRef).1)
  {
    ReadObject(r, at, if p.PutRef? then BINDER_TYPE_HANDLE else BINDER_TYPE_BINDER, p.ptr);
  }

  /** One get undoes one put, except that a NULL reference drains the reader. */
  lemma AnswerMatches(r: Reader, at: nat, p: Put)
    requires Ready(r, at) && Size(p) <= r.avail && Wire(p) <= r.data[at..]
    requires at in r.offs <==> TakesSlot(p)
    ensures Undone(r, at, p, Answer(r, AskFor(p)).0, Answer(r, AskFor(p)).1)
  {
    match p
    case PutNumber(n) => AnswerNumber(r, at, n);
    case PutText(_) => TextUndone(r, at, p);
    case PutBytes(_) => TextUndone(r, at, p);
    case _ => ObjectUndone(r, at, p);
  }

  lemma {:induction false} OverflowSticks(r: Reader, asks: seq<Ask>)
    requires r.Valid() && r.overflow
    ensures Answers(r, asks).0.overflow && Answers(r, asks).0.data == r.data
    decreases |asks|
  {
    if asks != [] {
      OverflowSticks(Answer(r, asks[0]).0, asks[1..]);
    }
  }

  /** The offsets from `at` on are those of the puts laid out there. */
  ghost predicate SlotsFrom(offs: seq<nat>, puts: seq<Put>, at: nat) {
    forall q :: at <= q ==> (q in offs <==> q in Slots(puts, at))
  }

  lemma {:induction false} SlotsAbove(puts: seq<Put>, at: nat)
    ensures forall q :: q in Slots(puts, at) ==> at <= q
    decreases |puts|
  {
    if puts != [] {
      SlotsAbove(puts[1..], at + Size(puts[0]));
    }
  }

  lemma SlotsHead(offs: seq<nat>, puts: seq<Put>, at: nat)
    requires puts != [] && SlotsFrom(offs, puts, at)
    ensures at in offs <==> TakesSlot(puts[0])
    ensures SlotsFrom(offs, puts[1..], at + Size(puts[0]))
  {
    SlotsAbove(puts[1..], at + Size(puts[0]));
    SlotsSplit(puts, at);
    assert at in offs <==> at in Slots(puts, at);
  }

  /** The first slot, if the first put takes one, and the others. */
  lemma SlotsSplit(puts: seq<Put>, at: nat)
    requires puts != []
    ensures forall q :: q in Slots(puts, at) <==> (q == at && TakesSlot(puts[0])) || q in Slots(puts[1..], at + Size(puts[0]))
  {
    if TakesSlot(puts[0]) {
      assert Slots(puts, at) == [at] + Slots(puts[1..], at + Size(puts[0]));
    } else {
      assert Slots(puts, at) == Slots(puts[1..], at + Size(puts[0]));
    }
  }

  /** The gets ended in `end` and returned `vs`: every value came back and every
      byte was used, unless some put was a NULL reference. */
  predicate Restored(end: Reader, vs: seq<Value>, puts: seq<Put>, d: seq<byte>) {
    && |vs| == |puts|
    && (!end.overflow <==> NoNullRef(puts))
    && (NoNullRef(puts) ==> end.avail == 0 && AllMatch(puts, vs, d))
  }

  lemma RestoredCons(end: Reader, v: Value, vs: seq<Value>, puts: seq<Put>, d: seq<byte>)
    requires puts != [] && Restored(end, vs, puts[1..], d) && !IsNullRef(puts[0]) && Matches(puts[0], v, d)
    ensures Restored(end, [v] + vs, puts, d)
  {
    assert ([v] + vs)[1..] == vs;
  }

  lemma NotRestored(end: Reader, vs: seq<Value>, puts: seq<Put>, d: seq<byte>)
    requires puts != [] && end.overflow && IsNullRef(puts[0]) && |vs| == |puts|
    ensures Restored(end, vs, puts, d)
  {
  }

  /** Reading a laid-out parcel back, from `at` to its end. */
  lemma {:induction false} ReadBack(r: Reader, at: nat, puts: seq<Put>)
    requires Ready(r, at) && Holds(r.data[at..], puts) && SlotsFrom(r.offs, puts, at)
    ensures Restored(Answers(r, AsksFor(puts)).0, Answers(r, AsksFor(puts)).1, puts, r.data)
    decreases |puts|, 0
  {
    if puts != [] {
      var p := puts[0];
      HoldsTail(r.data, at, puts);
      SlotsHead(r.offs, puts, at);
      AnswerMatches(r, at, p);
      var (r1, v) := Answer(r, AskFor(p));
      var (end, vs) := Answers(r1, AsksFor(puts[1..]));
      AnswersCons(r, AskFor(p), AsksFor(puts[1..]));
      if IsNullRef(p) {
        OverflowSticks(r1, AsksFor(puts[1..]));
        NotRestored(end, [v] + vs, puts, r.data);
      } else {
        ReadRest(r, at, puts, r1, v, end, vs);
      }
    }
  }

  lemma {:induction false} ReadRest(r: Reader, at: nat, puts: seq<Put>, r1: Reader, v: Value, end: Reader, vs: seq<Value>)
    requires puts != [] && !IsNullRef(puts[0]) && Undone(r, at, puts[0], r1, v)
    requires SlotsFrom(r.offs, puts[1..], at + Size(puts[0]))
    requires at + Size(puts[0]) <= |r.data| && Holds(r.data[at + Size(puts[0])..], puts[1..])
    requires (end, vs) == Answers(r1, AsksFor(puts[1..]))
    ensures Restored(end, [v] + vs, puts, r.data)
    decreases |puts| - 1, 1
  {
    ReadBack(r1, at + Size(puts[0]), puts[1..]);
    RestoredCons(end, v, vs, puts, r.data);
  }

  lemma AnswersCons(r: Reader, a: Ask, asks: seq<Ask>)
    requires r.Valid()
    ensures var (r1, v) := Answer(r, a);
            var (end, vs) := Answers(r1, asks);
            Answers(r, [a] + asks) == (end, [v] + vs) && ([v] + vs)[1..] == vs && ([v] + vs)[0] == v
  {
    assert ([a] + asks)[1..] == asks;
  }

  lemma HoldsTail(d: seq<byte>, at: nat, puts: seq<Put>)
    requires at <= |d| && puts != [] && Holds(d[at..], puts)
    ensures at + Size(puts[0]) <= |d| && Wire(puts[0]) <= d[at..]
    ensures Holds(d[at + Size(puts[0])..], puts[1..])
  {
    assert d[at..][Size(puts[0])..] == d[at + Size(puts[0])..];
  }

  /** The get returned what the caller put: the number, the pointer, or a string with its
      length, its units and its terminator; for a NULL string, the length of none. */
  predicate Returned(p: Put, v: Value, d: seq<byte>) {
    match p
    case PutNumber(n) => v == Number(n)
    case PutText(t) => TextReturned(t, v, d)
    case PutBytes(s) => TextReturned(Widened(s), v, d)
    case PutRef(ptr) => v == Pointer(ptr)
    case PutObj(ptr) => v == Pointer(ptr)
  }

  predicate TextReturned(t: Option<seq<u16>>, v: Value, d: seq<byte>) {
    v.Text? && v.at.Some? &&
    if t.None? then v.length == 0xffff_ffff
    else v.length == |t.value| && Spelled(d, v.at.value, t.value)
  }

  predicate AllReturned(puts: seq<Put>, vs: seq<Value>, d: seq<byte>)
    requires |vs| == |puts|
  {
    forall i :: 0 <= i < |puts| ==> Returned(puts[i], vs[i], d)
  }

  lemma ReturnedCons(puts: seq<Put>, vs: seq<Value>, d: seq<byte>)
    requires puts != [] && |vs| == |puts|
    ensures AllReturned(puts, vs, d) <==> Returned(puts[0], vs[0], d) && AllReturned(puts[1..], vs[1..], d)
  {
    assert forall i :: 0 < i < |puts| ==> puts[i] == puts[1..][i - 1] && vs[i] == vs[1..][i - 1];
  }

  /** A put the reader can give back: no NULL reference, which leaves no offset; no local
      object, which is not a handle, unless its pointer is NULL anyway; and no string
      too long to be sent. */
  predicate Returnable(p: Put) {
    match p
    case PutNumber(_) => true
    case PutText(t) => t.Some? ==> |t.value| < 0x2000_0000
    case PutBytes(s) => s.Some? ==> |s.value| < 0x2000_0000
    case PutRef(ptr) => ptr != 0
    case PutObj(ptr) => ptr == 0
  }

  predicate AllReturnable(puts: seq<Put>) {
    forall i :: 0 <= i < |puts| ==> Returnable(puts[i])
  }

  /** A value read back without draining the reader is the one put just for these. */
  lemma ReturnedExactly(p: Put, v: Value, d: seq<byte>)
    requires Matches(p, v, d) && !IsNullRef(p) && |d| < TWO32
    ensures Returned(p, v, d) <==> Returnable(p)
  {
    if IsText(p) && TextOfPut(p).Some? {
      var t := TextOfPut(p).value;
      if |t| < MAX_UNITS {
        UnitsSpell(d, v.at.value, t);
      }
    }
  }

  lemma {:induction false} AllReturnedExactly(puts: seq<Put>, vs: seq<Value>, d: seq<byte>)
    requires |vs| == |puts| && AllMatch(puts, vs, d) && NoNullRef(puts) && |d| < TWO32
    ensures AllReturned(puts, vs, d) <==> AllReturnable(puts)
    decreases |puts|
  {
    if puts != [] {
      ReturnedExactly(puts[0], vs[0], d);
      AllReturnedExactly(puts[1..], vs[1..], d);
      ReturnableCons(puts);
      ReturnedCons(puts, vs, d);
    }
  }

  lemma ReturnableCons(puts: seq<Put>)
    requires puts != []
    ensures AllReturnable(puts) <==> Returnable(puts[0]) && AllReturnable(puts[1..])
  {
    forall i | 0 < i < |puts|
      ensures puts[i] == puts[1..][i - 1]
    {
    }
  }

  lemma {:induction false} ReturnableNotNull(puts: seq<Put>)
    requires AllReturnable(puts)
    ensures NoNullRef(puts)
    decreases |puts|
  {
    if puts != [] {
      ReturnableCons(puts);
      ReturnableNotNull(puts[1..]);
    }
  }

  /** What the matching gets read from a written parcel, put by put: a NULL reference
      drains the reader, and it is the only put that does. */
  lemma WhatIsRead(w: Writer, puts: seq<Put>)
    requires w.data == [] && w.offs == [] && !w.overflow && !Run(w, puts).overflow
    ensures var x := Run(w, puts);
            Restored(Answers(Open(x), AsksFor(puts)).0, Answers(Open(x), AsksFor(puts)).1, puts, x.data)
  {
    var tail := OverflowExact(w, puts);
    var x := Run(w, puts);
    assert x.data == tail && x.offs == Slots(puts, 0);
    assert x.data[0..] == tail;
    ReadBack(Open(x), 0, puts);
  }

  /** Parcel round trip: after any puts that end with the overflow flag clear, reopening
      the parcel and doing the matching gets returns every value put, with the reader's
      flag clear, if and only if all of them are returnable; every byte is then used. */
  lemma ParcelRoundTrip(w: Writer, puts: seq<Put>)
    requires w.data == [] && w.offs == [] && !w.overflow && |w.free| < TWO32 && !Run(w, puts).overflow
    ensures var x := Run(w, puts);
            var (end, vs) := Answers(Open(x), AsksFor(puts));
            && (!end.overflow && AllReturned(puts, vs, x.data) <==> AllReturnable(puts))
            && (AllReturnable(puts) ==> end.avail == 0)
  {
    var x := Run(w, puts);
    var (end, vs) := Answers(Open(x), AsksFor(puts));
    WhatIsRead(w, puts);
    RunGrows(w, puts);
    if AllReturnable(puts) {
      ReturnableNotNull(puts);
    }
    if NoNullRef(puts) {
      AllReturnedExactly(puts, vs, x.data);
    }
  }

  /** A local object fits, and from a parcel handed over unchanged its pointer does not
      come back. */
  lemma LocalObjectLost(w: Writer)
    requires w.data == [] && w.offs == [] && !w.overflow && OBJECT_SIZE <= |w.free| < TWO32 && w.slots > 0
    ensures var x := Run(w, [PutObj(7)]);
            !x.overflow && !AllReturned([PutObj(7)], Answers(Open(x), [AskRef]).1, x.data)
  {
    var puts := [PutObj(7)];
    assert puts[1..] == [] && Fits(w, puts);
    var tail := OverflowExact(w, puts);
    assert AsksFor(puts) == [AskRef];
    WhatIsRead(w, puts);
    assert NoNullRef(puts) && !Returnable(puts[0]);
    AllReturnedExactly(puts, Answers(Open(Run(w, puts)), [AskRef]).1, Run(w, puts).data);
  }

  /** What a string get takes behind its length word, in 32 bits. */
  lemma TextTakes(length: u32)
    ensures Round4(TextSize(length)) ==
            if length % 0x8000_0000 >= 0x7fff_fffe then 0 else Padded(2 * (length % 0x8000_0000 + 1))
  {
    var k := length % 0x8000_0000;
    assert length == k || length == k + 0x8000_0000;
    assert TextSize(length) == if k == 0x7fff_ffff then 0 else 2 * (k + 1);
    if k < 0x7fff_fffe {
      Round4Is(2 * (k + 1));
    }
  }

  /** A string that is returned is all there, units and terminator, if and only if its length
      word is below 2^31 - 2; from there on the byte count wraps around. */
  lemma TextWhole(r: Reader)
    requires r.Valid() && |r.data| < TWO32 && GetText(r).2.Some?
    ensures var (end, length, at) := GetText(r);
            at.value + 2 * (length + 1) <= |r.data| <==> length < 0x7fff_fffe
  {
    TextTakes(GetText(r).1);
  }

  /** A parcel of one length word. */
  function LengthOnly(n: u32): (r: Reader)
    ensures r.Valid() && |r.data| == 4
  {
    Reader(Bytes(n), 0, 4, [], false)
  }

  /** When the byte count wraps around to nothing, the string of such a parcel is returned
      although none of it is there. */
  lemma TextMissing(n: u32)
    requires n % 0x8000_0000 >= 0x7fff_fffe
    ensures GetText(LengthOnly(n)).1 == n && GetText(LengthOnly(n)).2 == Some(4)
  {
    var r := LengthOnly(n);
    var r1 := r.(pos := 4, avail := 0);
    LengthWord(r, n);
    TextTakes(n);
    NoBytes(r1, TextSize(n));
    TextParts(r, r1, n);
  }

  lemma LengthWord(r: Reader, n: u32)
    requires r == LengthOnly(n)
    ensures GetNumber(r) == (r.(pos := 4, avail := 0), n)
  {
    assert [] + Bytes(n) + [] == Bytes(n);
    WordOfBytes([], n, []);
    assert Round4(4) == 4;
  }

  lemma NoBytes(r: Reader, size: u32)
    requires Round4(size) == 0
    ensures Get(r, size) == (r, Some(r.pos))
  {
  }

  lemma TextParts(r: Reader, r1: Reader, n: u32)
    requires r.Valid() && GetNumber(r) == (r1, n)
    ensures var g := Get(r1, TextSize(n)); GetText(r) == (g.0, n, g.1)
  {
  }

  // ---- Failure -----------------------------------------------------------

  /** What every get answers once the reader is drained. */
  predicate Nothing(v: Value) {
    v == Number(0) || v == Text(0, None) || v == Pointer(0)
  }

  /** A failed read is absorbing: whatever is asked afterwards, numbers are 0 and
      strings and references are null. */
  lemma {:induction false} FailureAbsorbs(r: Reader, asks: seq<Ask>)
    requires r.Valid() && r.avail == 0
    ensures Answers(r, asks).0.avail == 0
    ensures forall i :: 0 <= i < |asks| ==> Nothing(Answers(r, asks).1[i])
    decreases |asks|
  {
    if asks != [] {
      assert TextSize(0) == 2 && Round4(2) == 4;
      FailureAbsorbs(Answer(r, asks[0]).0, asks[1..]);
    }
  }

  lemma WhenReadsFail(r: Reader, size: u32)
    requires r.Valid()
    ensures Get(r, size).1.None? <==> r.avail < Round4(size)
    ensures Get(r, size).1.None? ==> Get(r, size).0.avail == 0 && Get(r, size).0.overflow
    ensures GetObject(r).1.Some? <==> r.pos in r.offs && r.avail >= OBJECT_SIZE
    ensures GetObject(r).1.None? ==> GetObject(r).0.avail == 0 && GetObject(r).0.overflow
  {
    assert Round4(OBJECT_SIZE) == OBJECT_SIZE;
  }

  /** There is enough at the cursor for what is asked: four bytes; a string as long as
      its length word says; or sixteen bytes at a recorded offset. */
  predicate Enough(r: Reader, a: Ask)
    requires r.Valid()
  {
    match a
    case AskNumber => r.avail >= 4
    case AskText => r.avail >= 4 && r.avail - 4 >= Round4(TextSize(Word(r.data, r.pos)))
    case AskRef => r.pos in r.offs && r.avail >= OBJECT_SIZE
  }

  /** A get on a reader that has not failed yet fails exactly if there is not enough at
      the cursor, and then it and all later gets answer nothing more. */
  lemma FirstFailure(r: Reader, a: Ask, later: seq<Ask>)
    requires r.Valid() && !r.overflow
    ensures Answer(r, a).0.overflow <==> !Enough(r, a)
    ensures !Enough(r, a) ==> forall i :: 0 <= i < |later| ==> Nothing(Answers(Answer(r, a).0, later).1[i])
  {
    WhenReadsFail(r, 4);
    var r1 := Answer(r, a).0;
    assert Round4(4) == 4 && Round4(TextSize(0)) == 4;
    if !Enough(r, a) {
      assert r1.avail == 0 && r1.overflow;
      FailureAbsorbs(r1, later);
    }
  }
}
