/** Relocation of pointer words inside a byte buffer: the loop of
    `patch_payload_ptr`, and the algebra of "add a base at a list of sites"
    that the marshaler reuses in the other direction. */
module Relocation {
  import opened Words

  predicate InBounds(sites: seq<nat>, n: nat) {
    forall i :: 0 <= i < |sites| ==> sites[i] + 4 <= n
  }

  predicate Aligned(sites: seq<nat>) {
    forall i :: 0 <= i < |sites| ==> sites[i] % 4 == 0
  }

  /** Byte j belongs to the word of one of the sites. */
  predicate Covered(sites: seq<nat>, j: nat) {
    exists i :: 0 <= i < |sites| && sites[i] <= j < sites[i] + 4
  }

  function AddWord(b: seq<byte>, site: nat, delta: u32): (r: seq<byte>)
    requires site + 4 <= |b|
  {
    PutWord(b, site, Add32(Word(b, site), delta))
  }

  /** Add `delta` to the word at each site, in list order. */
  function AddAt(b: seq<byte>, sites: seq<nat>, delta: u32): (r: seq<byte>)
    requires InBounds(sites, |b|)
    ensures |r| == |b|
  {
    if sites == [] then b
    else AddWord(AddAt(b, sites[..|sites| - 1], delta), sites[|sites| - 1], delta)
  }

  lemma AddAtSnoc(b: seq<byte>, init: seq<nat>, last: nat, delta: u32)
    requires InBounds(init, |b|) && last + 4 <= |b|
    ensures AddAt(b, init + [last], delta) == AddWord(AddAt(b, init, delta), last, delta)
  {
    assert (init + [last])[..|init|] == init;
  }

  lemma SnocAt(b: seq<byte>, sites: seq<nat>, i: nat, delta: u32)
    requires i < |sites| && InBounds(sites[..i], |b|) && InBounds(sites[..i + 1], |b|)
    ensures sites[i] + 4 <= |b|
    ensures AddAt(b, sites[..i + 1], delta) == AddWord(AddAt(b, sites[..i], delta), sites[i], delta)
  {
    assert sites[..i + 1] == sites[..i] + [sites[i]];
    assert sites[..i + 1][i] == sites[i];
    AddAtSnoc(b, sites[..i], sites[i], delta);
  }

  lemma {:induction false} AddAtFrame(b: seq<byte>, sites: seq<nat>, delta: u32, j: nat)
    requires InBounds(sites, |b|) && j < |b| && !Covered(sites, j)
    ensures AddAt(b, sites, delta)[j] == b[j]
  {
    if sites != [] {
      var n := |sites| - 1;
      assert !Covered(sites[..n], j) by {
        forall i | 0 <= i < n
          ensures !(sites[..n][i] <= j < sites[..n][i] + 4)
        {
          assert sites[..n][i] == sites[i];
        }
      }
      AddAtFrame(b, sites[..n], delta, j);
      assert !(sites[n] <= j < sites[n] + 4);
    }
  }

  /** How many times the table lists site `k`. */
  function Count(sites: seq<nat>, k: nat): nat {
    if sites == [] then 0
    else Count(sites[..|sites| - 1], k) + if sites[|sites| - 1] == k then 1 else 0
  }

  lemma {:induction false} CountIsMultiplicity(sites: seq<nat>, k: nat)
    ensures Count(sites, k) == multiset(sites)[k]
  {
    if sites != [] {
      var n := |sites| - 1;
      CountIsMultiplicity(sites[..n], k);
      assert sites == sites[..n] + [sites[n]];
    }
  }

  lemma Distribute(c: int, m: int, d: int)
    ensures c * (m - d) == c * m - c * d
  {
  }

  /** `x` plus `d`, `c` times over, with wrap-around at every addition. */
  function AddTimes(x: u32, c: nat, d: u32): u32 {
    if c == 0 then x else Add32(AddTimes(x, c - 1, d), d)
  }

  lemma ModShift(y: int, q: int)
    ensures (y + TWO32 * q) % TWO32 == y % TWO32
  {
    var k := y / TWO32;
    assert y + TWO32 * q == TWO32 * (k + q) + y % TWO32;
  }

  function Times(c: nat, d: nat): nat {
    if c == 0 then 0 else Times(c - 1, d) + d
  }

  lemma {:induction false} TimesIs(c: nat, d: nat)
    ensures Times(c, d) == c * d
  {
    if c > 0 {
      TimesIs(c - 1, d);
      Distribute(d, c, 1);
    }
  }

  lemma {:induction false} AddTimesSum(x: u32, c: nat, d: u32)
    ensures AddTimes(x, c, d) == (x + Times(c, d)) % TWO32
  {
    if c > 0 {
      AddTimesSum(x, c - 1, d);
      OneMore(x + Times(c - 1, d), d);
    }
  }

  lemma AddTimesIs(x: u32, c: nat, d: u32)
    ensures AddTimes(x, c, d) == (x + c * d) % TWO32
  {
    AddTimesSum(x, c, d);
    TimesIs(c, d);
  }

  lemma OneMore(y: int, d: int)
    ensures (y % TWO32 + d) % TWO32 == (y + d) % TWO32
  {
    assert y + d == (y % TWO32 + d) + TWO32 * (y / TWO32);
    ModShift(y % TWO32 + d, y / TWO32);
  }

  /** Adding x + p + (m * c - p) and reducing twice leaves x. */
  lemma Cancel(x: u32, p: int, c: int)
    ensures ((x + p) % TWO32 + (TWO32 * c - p)) % TWO32 == x
  {
    var q := (x + p) / TWO32;
    assert (x + p) % TWO32 + (TWO32 * c - p) == x + TWO32 * (c - q);
    ModShift(x, c - q);
  }

  lemma AddTimesUndone(x: u32, c: nat, d: u32)
    ensures AddTimes(AddTimes(x, c, d), c, Neg32(d)) == x
  {
    AddTimesIs(x, c, d);
    var y := AddTimes(x, c, d);
    AddTimesIs(y, c, Neg32(d));
    if d == 0 {
      assert x % TWO32 == x;
    } else {
      var p := c * d;
      Distribute(c, TWO32, d);
      assert c * Neg32(d) == TWO32 * c - p;
      Cancel(x, p, c);
    }
  }

  lemma AddWordEffect(b: seq<byte>, site: nat, delta: u32, k: nat)
    requires site + 4 <= |b| && k + 4 <= |b| && site % 4 == 0 && k % 4 == 0
    ensures Word(AddWord(b, site, delta), k) == if site == k then Add32(Word(b, k), delta) else Word(b, k)
  {
    WordBeside(b, site, Add32(Word(b, site), delta), k);
  }

  lemma WordBeside(b: seq<byte>, site: nat, w: u32, k: nat)
    requires site + 4 <= |b| && k + 4 <= |b| && site % 4 == 0 && k % 4 == 0
    ensures Word(PutWord(b, site, w), k) == if site == k then w else Word(b, k)
  {
    if site != k {
      var t := PutWord(b, site, w);
      assert k + 4 <= site || site + 4 <= k;
      assert t[k] == b[k] && t[k + 1] == b[k + 1] && t[k + 2] == b[k + 2] && t[k + 3] == b[k + 3];
    }
  }

  /** Each aligned word receives `delta` once for every time the table lists it. */
  lemma {:induction false} AddAtWord(b: seq<byte>, sites: seq<nat>, delta: u32, k: nat)
    requires InBounds(sites, |b|) && Aligned(sites) && k % 4 == 0 && k + 4 <= |b|
    ensures Word(AddAt(b, sites, delta), k) == AddTimes(Word(b, k), Count(sites, k), delta)
  {
    if sites != [] {
      var n := |sites| - 1;
      AddAtWord(b, sites[..n], delta, k);
      AddWordEffect(AddAt(b, sites[..n], delta), sites[n], delta, k);
    }
  }

  lemma WordSum(b: seq<byte>, sites: seq<nat>, delta: u32, k: nat, n: nat)
    requires InBounds(sites, |b|) && Aligned(sites) && k % 4 == 0 && k + 4 <= |b| && n == multiset(sites)[k]
    ensures Word(AddAt(b, sites, delta), k) == (Word(b, k) + n * delta) % TWO32
  {
    AddAtWord(b, sites, delta, k);
    CountIsMultiplicity(sites, k);
    AddTimesIs(Word(b, k), n, delta);
  }

  /** The same in closed form: original + (times listed) * base, modulo 2^32,
      and every byte outside the listed words keeps its value. */
  lemma PatchedWord(b: seq<byte>, sites: seq<nat>, delta: u32, k: nat)
    requires InBounds(sites, |b|) && Aligned(sites) && k % 4 == 0 && k + 4 <= |b|
    ensures Word(AddAt(b, sites, delta), k) == (Word(b, k) + multiset(sites)[k] * delta) % TWO32
    ensures forall j: nat :: j < |b| && !Covered(sites, j) ==> AddAt(b, sites, delta)[j] == b[j]
  {
    WordSum(b, sites, delta, k, multiset(sites)[k]);
    forall j: nat | j < |b| && !Covered(sites, j)
      ensures AddAt(b, sites, delta)[j] == b[j]
    {
      AddAtFrame(b, sites, delta, j);
    }
  }

  /** A buffer is determined by its aligned words and its tail. */
  lemma SameBuffer(a: seq<byte>, b: seq<byte>)
    requires |a| == |b|
    requires forall k: nat :: k % 4 == 0 && k + 4 <= |a| ==> Word(a, k) == Word(b, k)
    requires forall j: nat :: j < |a| && j - j % 4 + 4 > |a| ==> a[j] == b[j]
    ensures a == b
  {
    forall j: nat | j < |a|
      ensures a[j] == b[j]
    {
      var k := j - j % 4;
      if k + 4 <= |a| {
        SameWord(a, b, k);
      }
    }
  }

  lemma TailUncovered(sites: seq<nat>, n: nat, j: nat)
    requires InBounds(sites, n) && Aligned(sites) && j < n && j - j % 4 + 4 > n
    ensures !Covered(sites, j)
  {
  }

  /** The order in which the table lists its sites does not matter. */
  lemma AddAtPermuted(b: seq<byte>, s: seq<nat>, t: seq<nat>, delta: u32)
    requires InBounds(s, |b|) && Aligned(s) && InBounds(t, |b|) && Aligned(t)
    requires multiset(s) == multiset(t)
    ensures AddAt(b, s, delta) == AddAt(b, t, delta)
  {
    var x, y := AddAt(b, s, delta), AddAt(b, t, delta);
    forall k: nat | k % 4 == 0 && k + 4 <= |b|
      ensures Word(x, k) == Word(y, k)
    {
      AddAtWord(b, s, delta, k);
      CountIsMultiplicity(s, k);
      CountIsMultiplicity(t, k);
      AddAtWord(b, t, delta, k);
    }
    forall j: nat | j < |b| && j - j % 4 + 4 > |b|
      ensures x[j] == y[j]
    {
      TailUncovered(s, |b|, j);
      TailUncovered(t, |b|, j);
      AddAtFrame(b, s, delta, j);
      AddAtFrame(b, t, delta, j);
    }
    SameBuffer(x, y);
  }

  /** Relocating by `delta` and then by its negation restores every byte. */
  lemma AddAtUndone(b: seq<byte>, sites: seq<nat>, delta: u32)
    requires InBounds(sites, |b|) && Aligned(sites)
    ensures AddAt(AddAt(b, sites, delta), sites, Neg32(delta)) == b
  {
    var r := AddAt(b, sites, delta);
    var t := AddAt(r, sites, Neg32(delta));
    forall k: nat | k % 4 == 0 && k + 4 <= |b|
      ensures Word(t, k) == Word(b, k)
    {
      AddAtWord(b, sites, delta, k);
      AddAtWord(r, sites, Neg32(delta), k);
      AddTimesUndone(Word(b, k), Count(sites, k), delta);
    }
    forall j: nat | j < |b| && j - j % 4 + 4 > |b|
      ensures t[j] == b[j]
    {
      TailUncovered(sites, |b|, j);
      AddAtFrame(b, sites, delta, j);
      AddAtFrame(r, sites, Neg32(delta), j);
    }
    SameBuffer(t, b);
  }

  /** No site overlaps the table itself, so the loop never edits its own input. */
  predicate ClearOf(sites: seq<nat>, offset: nat, n: nat) {
    forall i :: 0 <= i < |sites| ==> sites[i] + 4 <= offset || offset + 4 * n <= sites[i]
  }

  /** The sites in the patch table; a negative entry count names none. */
  function TableOf(b: seq<byte>, entries: int, offset: int): seq<nat>
    requires TableInside(entries, offset, |b|)
  {
    if entries <= 0 then [] else WordsAt(b, offset, entries)
  }

  predicate TableInside(entries: int, offset: int, n: nat) {
    entries > 0 ==> 0 <= offset && offset + 4 * entries <= n
  }

  /** A proper payload: the table and its sites lie inside it, and no site overlaps the
      table. */
  predicate Patchable(b: seq<byte>, entries: int, offset: int) {
    && TableInside(entries, offset, |b|)
    && var sites := TableOf(b, entries, offset);
       InBounds(sites, |b|) && (entries > 0 ==> ClearOf(sites, offset, entries))
  }

  lemma {:induction false} TableStays(b: seq<byte>, sites: seq<nat>, delta: u32, offset: nat, n: nat, i: nat)
    requires offset + 4 * n <= |b| && i < n
    requires InBounds(sites, |b|) && ClearOf(sites, offset, n)
    ensures Word(AddAt(b, sites, delta), offset + 4 * i) == Word(b, offset + 4 * i)
  {
    var at := offset + 4 * i;
    forall j | at <= j < at + 4
      ensures AddAt(b, sites, delta)[j] == b[j]
    {
      AddAtFrame(b, sites, delta, j);
    }
  }

  lemma Prefix(sites: seq<nat>, k: nat, n: nat, offset: nat, entries: nat)
    requires InBounds(sites, n) && ClearOf(sites, offset, entries) && k <= |sites|
    ensures InBounds(sites[..k], n) && ClearOf(sites[..k], offset, entries)
  {
  }

  // ---- The loop ----------------------------------------------------------

  /** The loop body, on the table entry at `at`, turns `b` into `c`: the site is read from
      the table as it is by then. */
  predicate TurnsInto(b: seq<byte>, c: seq<byte>, at: int, base: u32) {
    0 <= at && at + 4 <= |b| && Word(b, at) + 4 <= |b| && c == AddWord(b, Word(b, at), base)
  }

  /** The loop takes payload `b` from turn to turn through the buffers `ms`, staying
      inside it, whatever its sites overlap. */
  predicate PatchRun(ms: seq<seq<byte>>, b: seq<byte>, entries: int, offset: int, base: u32) {
    && |ms| == 1 + (if entries > 0 then entries else 0) && ms[0] == b
    && forall k :: 0 <= k < entries ==> TurnsInto(ms[k], ms[k + 1], offset + 4 * k, base)
  }

  /** `sites` is the table at `offset`, inside the buffer and clear of its sites. */
  predicate ProperTable(b: seq<byte>, sites: seq<nat>, offset: nat) {
    && offset + 4 * |sites| <= |b| && InBounds(sites, |b|) && ClearOf(sites, offset, |sites|)
    && forall i :: 0 <= i < |sites| ==> Word(b, offset + 4 * i) == sites[i]
  }

  /** One turn on a proper payload: the table entry is still the original one. */
  lemma PatchStep(b: seq<byte>, sites: seq<nat>, offset: nat, i: nat, base: u32)
    requires ProperTable(b, sites, offset) && i < |sites|
    ensures InBounds(sites[..i], |b|) && InBounds(sites[..i + 1], |b|)
    ensures TurnsInto(AddAt(b, sites[..i], base), AddAt(b, sites[..i + 1], base), offset + 4 * i, base)
  {
    Prefix(sites, i, |b|, offset, |sites|);
    Prefix(sites, i + 1, |b|, offset, |sites|);
    TableStays(b, sites[..i], base, offset, |sites|, i);
    SnocAt(b, sites, i, base);
    IsTurn(AddAt(b, sites[..i], base), AddAt(b, sites[..i + 1], base), offset + 4 * i, base, sites[i]);
  }

  lemma IsTurn(b: seq<byte>, c: seq<byte>, at: nat, base: u32, site: nat)
    requires at + 4 <= |b| && Word(b, at) == site && site + 4 <= |b| && c == AddWord(b, site, base)
    ensures TurnsInto(b, c, at, base)
  {
  }

  /** The buffers of a run on a proper payload. */
  lemma ProperRun(b: seq<byte>, sites: seq<nat>, offset: nat, base: u32) returns (ms: seq<seq<byte>>)
    requires ProperTable(b, sites, offset)
    ensures PatchRun(ms, b, |sites|, offset, base) && ms[|sites|] == AddAt(b, sites, base)
  {
    assert forall i :: 0 <= i <= |sites| ==> InBounds(sites[..i], |b|);
    ms := seq(|sites| + 1, i requires 0 <= i <= |sites| => AddAt(b, sites[..i], base));
    forall k | 0 <= k < |sites|
      ensures TurnsInto(ms[k], ms[k + 1], offset + 4 * k, base)
    {
      PatchStep(b, sites, offset, k, base);
    }
    assert sites[..0] == [] && sites[..|sites|] == sites;
  }

  /** On a proper payload the loop adds the base at every site the table lists. */
  lemma PatchAddsBase(b: seq<byte>, entries: int, offset: int, base: u32) returns (ms: seq<seq<byte>>)
    requires Patchable(b, entries, offset)
    ensures PatchRun(ms, b, entries, offset, base) && ms[|ms| - 1] == AddAt(b, TableOf(b, entries, offset), base)
  {
    if entries <= 0 {
      ms := [b];
    } else {
      ms := ProperRun(b, WordsAt(b, offset, entries), offset, base);
    }
  }

  /** There is only one run. */
  lemma {:induction false} PatchRunUnique(ms: seq<seq<byte>>, ns: seq<seq<byte>>, b: seq<byte>, entries: int, offset: int,
                                          base: u32, k: nat)
    requires PatchRun(ms, b, entries, offset, base) && PatchRun(ns, b, entries, offset, base) && k < |ms|
    ensures ms[k] == ns[k]
    decreases k
  {
    if k > 0 {
      PatchRunUnique(ms, ns, b, entries, offset, base, k - 1);
      assert TurnsInto(ms[k - 1], ms[k], offset + 4 * (k - 1), base);
      assert TurnsInto(ns[k - 1], ns[k], offset + 4 * (k - 1), base);
    }
  }

  /** `patch_payload_ptr`: `base` is the address of `buf`, and `ms` its run. */
  method PatchPayloadPtr(buf: array<byte>, entries: int, offset: int, base: u32, ghost ms: seq<seq<byte>>)
    requires PatchRun(ms, buf[..], entries, offset, base)
    modifies buf
    ensures buf[..] == ms[|ms| - 1]
    ensures Patchable(old(buf[..]), entries, offset) ==>
              buf[..] == AddAt(old(buf[..]), TableOf(old(buf[..]), entries, offset), base)
  {
    ghost var was := buf[..];
    var i := 0;
    while i < entries
      invariant 0 <= i < |ms| && buf[..] == ms[i]
    {
      assert TurnsInto(ms[i], ms[i + 1], offset + 4 * i, base);
      PatchSite(buf, offset + 4 * i, base, ms[i], ms[i + 1]);
      i := i + 1;
    }
    if Patchable(was, entries, offset) {
      ghost var ns := PatchAddsBase(was, entries, offset, base);
      PatchRunUnique(ms, ns, was, entries, offset, base, |ms| - 1);
    }
  }

  method PatchSite(buf: array<byte>, at: nat, base: u32, ghost b: seq<byte>, ghost c: seq<byte>)
    requires buf[..] == b && TurnsInto(b, c, at, base)
    modifies buf
    ensures buf[..] == c
  {
    var site := ReadWord(buf, at);
    var w := ReadWord(buf, site);
    WriteWord(buf, site, Add32(w, base));
  }
}
