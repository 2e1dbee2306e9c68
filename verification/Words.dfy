/** Little-endian 32-bit words inside byte sequences, with the wrap-around
    arithmetic of the 32-bit target. */
module Words {
  const TWO32 := 0x1_0000_0000

  type byte = b: int | 0 <= b < 256
  type u16 = h: int | 0 <= h < 0x1_0000
  type u32 = w: int | 0 <= w < TWO32

  datatype Option<+T> = None | Some(value: T)

  lemma Associative<T>(a: seq<T>, b: seq<T>, c: seq<T>)
    ensures a + b + c == a + (b + c)
  {
  }

  function Flatten<T>(parts: seq<seq<T>>): seq<T> {
    if parts == [] then [] else parts[0] + Flatten(parts[1..])
  }

  function Add32(a: u32, b: u32): u32 {
    if a + b < TWO32 then a + b else a + b - TWO32
  }

  function Neg32(a: u32): u32 {
    if a == 0 then 0 else TWO32 - a
  }

  /** The number a run of bytes spells, least significant byte first. */
  function LittleEndian(b: seq<byte>): (n: nat)
    ensures |b| == 1 ==> n < 0x100
    ensures |b| == 2 ==> n < 0x1_0000
    ensures |b| == 3 ==> n < 0x100_0000
    ensures |b| == 4 ==> n < TWO32
  {
    if b == [] then 0 else (b[0] as nat) + 0x100 * LittleEndian(b[1..])
  }

  function Compose(b0: byte, b1: byte, b2: byte, b3: byte): u32 {
    LittleEndian([b0, b1, b2, b3])
  }

  lemma ComposeIs(b0: byte, b1: byte, b2: byte, b3: byte)
    ensures Compose(b0, b1, b2, b3) ==
            (b0 as int) + 0x100 * (b1 as int) + 0x1_0000 * (b2 as int) + 0x100_0000 * (b3 as int)
  {
    assert [b0, b1, b2, b3][1..] == [b1, b2, b3];
    assert [b1, b2, b3][1..] == [b2, b3];
    assert [b2, b3][1..] == [b3];
    assert LittleEndian([b3]) == b3;
    assert LittleEndian([b2, b3]) == (b2 as int) + 0x100 * LittleEndian([b3]);
    assert LittleEndian([b1, b2, b3]) == (b1 as int) + 0x100 * LittleEndian([b2, b3]);
  }

  /** The word a C program reads through `*(unsigned *)(s + i)`. */
  function Word(s: seq<byte>, i: nat): u32
    requires i + 4 <= |s|
  {
    Compose(s[i], s[i + 1], s[i + 2], s[i + 3])
  }

  function Bytes(w: u32): (b: seq<byte>)
    ensures |b| == 4
  {
    [w % 0x100, w / 0x100 % 0x100, w / 0x1_0000 % 0x100, w / 0x100_0000]
  }

  lemma ComposeOfBytes(w: u32)
    ensures Compose(Bytes(w)[0], Bytes(w)[1], Bytes(w)[2], Bytes(w)[3]) == w
  {
    ComposeIs(Bytes(w)[0], Bytes(w)[1], Bytes(w)[2], Bytes(w)[3]);
    var hi := w / 0x100;
    var top := hi / 0x100;
    assert w / 0x1_0000 == top;
    assert w / 0x100_0000 == top / 0x100;
    assert w == 0x100 * hi + w % 0x100;
    assert hi == 0x100 * top + hi % 0x100;
    assert top == 0x100 * (top / 0x100) + top % 0x100;
  }

  /** `*(unsigned *)(s + i) = w`. */
  function PutWord(s: seq<byte>, i: nat, w: u32): (t: seq<byte>)
    requires i + 4 <= |s|
    ensures |t| == |s|
    ensures Word(t, i) == w
    ensures forall j :: 0 <= j < |s| && !(i <= j < i + 4) ==> t[j] == s[j]
  {
    var b := Bytes(w);
    ComposeOfBytes(w);
    s[i := b[0]][i + 1 := b[1]][i + 2 := b[2]][i + 3 := b[3]]
  }

  /** Words of a prefix are words of the whole, and are written in place there. */
  lemma WordInPrefix(a: seq<byte>, z: seq<byte>, i: nat, w: u32)
    requires i + 4 <= |a|
    ensures Word(a + z, i) == Word(a, i)
    ensures PutWord(a + z, i, w) == PutWord(a, i, w) + z
  {
    assert (a + z)[i] == a[i] && (a + z)[i + 1] == a[i + 1] && (a + z)[i + 2] == a[i + 2] && (a + z)[i + 3] == a[i + 3];
    var l, r := PutWord(a + z, i, w), PutWord(a, i, w) + z;
    forall j | 0 <= j < |l|
      ensures l[j] == r[j]
    {
    }
  }

  lemma Digit(w: nat, low: byte, high: nat)
    requires w == low + 0x100 * high
    ensures w % 0x100 == low && w / 0x100 == high
  {
  }

  lemma BytesOfCompose(b0: byte, b1: byte, b2: byte, b3: byte)
    ensures Bytes(Compose(b0, b1, b2, b3)) == [b0, b1, b2, b3]
  {
    ComposeIs(b0, b1, b2, b3);
    BytesOfSum(Compose(b0, b1, b2, b3), b0, b1, b2, b3);
  }

  lemma BytesOfSum(w: u32, b0: byte, b1: byte, b2: byte, b3: byte)
    requires w == (b0 as int) + 0x100 * (b1 as int) + 0x1_0000 * (b2 as int) + 0x100_0000 * (b3 as int)
    ensures Bytes(w) == [b0, b1, b2, b3]
  {
    var top: nat := (b2 as nat) + 0x100 * (b3 as nat);
    var hi: nat := (b1 as nat) + 0x100 * top;
    Digit(w, b0, hi);
    Digit(hi, b1, top);
    Digit(top, b2, b3 as nat);
    HighBytes(w);
  }

  lemma HighBytes(w: nat)
    ensures w / 0x1_0000 == w / 0x100 / 0x100 && w / 0x100_0000 == w / 0x1_0000 / 0x100
  {
  }

  lemma BytesOfWord(s: seq<byte>, i: nat)
    requires i + 4 <= |s|
    ensures Bytes(Word(s, i)) == s[i..i + 4]
  {
    BytesOfCompose(s[i], s[i + 1], s[i + 2], s[i + 3]);
  }

  lemma WordOfBytes(a: seq<byte>, w: u32, z: seq<byte>)
    ensures Word(a + Bytes(w) + z, |a|) == w
  {
    var s := a + Bytes(w) + z;
    ComposeOfBytes(w);
    var b := Bytes(w);
    assert s[|a|] == b[0] && s[|a| + 1] == b[1] && s[|a| + 2] == b[2] && s[|a| + 3] == b[3];
  }

  /** Equal words have equal bytes. */
  lemma SameWord(s: seq<byte>, t: seq<byte>, i: nat)
    requires i + 4 <= |s| && i + 4 <= |t|
    requires Word(s, i) == Word(t, i)
    ensures forall j :: i <= j < i + 4 ==> s[j] == t[j]
  {
    BytesOfWord(s, i);
    BytesOfWord(t, i);
    assert s[i..i + 4] == t[i..i + 4];
    forall j | i <= j < i + 4
      ensures s[j] == t[j]
    {
      assert s[j] == s[i..i + 4][j - i] && t[j] == t[i..i + 4][j - i];
    }
  }

  /** The `n` words stored from `at` on. */
  function WordsAt(m: seq<byte>, at: nat, n: nat): (o: seq<nat>)
    requires at + 4 * n <= |m|
    ensures |o| == n && forall i :: 0 <= i < n ==> o[i] == Word(m, at + 4 * i)
  {
    seq(n, (i: nat) requires i < n => Word(m, at + 4 * i) as nat)
  }

  method ReadWord(a: array<byte>, i: nat) returns (w: u32)
    requires i + 4 <= a.Length
    ensures w == Word(a[..], i)
  {
    w := Compose(a[i], a[i + 1], a[i + 2], a[i + 3]);
  }

  method WriteWord(a: array<byte>, i: nat, w: u32)
    requires i + 4 <= a.Length
    modifies a
    ensures a[..] == PutWord(old(a[..]), i, w)
  {
    a[i], a[i + 1] := w % 0x100, w / 0x100 % 0x100;
    a[i + 2], a[i + 3] := w / 0x1_0000 % 0x100, w / 0x100_0000;
  }

  /** `memcpy` of a run of bytes into a buffer. */
  method CopyInto(a: array<byte>, i: nat, src: seq<byte>)
    requires i + |src| <= a.Length
    modifies a
    ensures a[..] == old(a[..i]) + src + old(a[i + |src|..])
  {
    forall j | 0 <= j < |src| {
      a[i + j] := src[j];
    }
  }
}
