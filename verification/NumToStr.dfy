/** The digit printer of the SQLite benchmark: a number as English digits. */
module NumToStr {
  import opened Words

  const NUM_CHAR := ["zero", "one", "two", "three", "four", "five", "six", "seven", "eight", "nine"]
  const INT_MAX := 0x7fff_ffff
  const NUL := '\0'

  type digit = d: nat | d < 10

  // ---- What is printed ---------------------------------------------------

  /** Decimal digits, most significant first; zero has one digit. */
  function Digits(num: nat): seq<digit> {
    if num < 10 then [num] else Digits(num / 10) + [num % 10]
  }

  function Name(d: digit): (w: string)
    ensures 3 <= |w| <= 5
  {
    NUM_CHAR[d]
  }

  function Names(ds: seq<digit>): (ws: seq<string>)
    ensures |ws| == |ds| && forall i :: 0 <= i < |ds| ==> ws[i] == Name(ds[i])
  {
    seq(|ds|, i requires 0 <= i < |ds| => Name(ds[i]))
  }

  /** Words with single spaces between them. */
  function Join(ws: seq<string>): string {
    if ws == [] then "" else if |ws| == 1 then ws[0] else ws[0] + " " + Join(ws[1..])
  }

  function Text(ds: seq<digit>): string {
    Join(Names(ds))
  }

  function Spell(num: nat): string {
    Text(Digits(num))
  }

  /** The ten words. */
  lemma SpellDigit()
    ensures Spell(0) == "zero" && Spell(1) == "one" && Spell(2) == "two" && Spell(3) == "three" && Spell(4) == "four"
    ensures Spell(5) == "five" && Spell(6) == "six" && Spell(7) == "seven" && Spell(8) == "eight" && Spell(9) == "nine"
  {
    forall d: digit
      ensures Spell(d) == Name(d)
    {
      assert Names([d]) == [Name(d)];
    }
    FirstNames();
    LastNames();
  }

  lemma FirstNames()
    ensures Name(0) == "zero" && Name(1) == "one" && Name(2) == "two" && Name(3) == "three" && Name(4) == "four"
  {
  }

  lemma LastNames()
    ensures Name(5) == "five" && Name(6) == "six" && Name(7) == "seven" && Name(8) == "eight" && Name(9) == "nine"
  {
  }

  /** One digit more is one word more, behind a space. */
  lemma SpellStep(num: nat, d: digit)
    requires num > 0
    ensures Spell(10 * num + d) == Spell(num) + " " + Spell(d)
  {
    var ds := Digits(num);
    assert (10 * num + d) / 10 == num && (10 * num + d) % 10 == d;
    assert Names([d]) == [Name(d)] && Names(ds + [d]) == Names(ds) + [Name(d)];
    JoinSnoc(Names(ds), Name(d));
  }

  lemma {:induction false} JoinSnoc(ws: seq<string>, w: string)
    requires ws != []
    ensures Join(ws + [w]) == Join(ws) + " " + w
    decreases |ws|
  {
    if |ws| == 1 {
      assert (ws + [w])[1..] == [w];
    } else {
      assert (ws + [w])[1..] == ws[1..] + [w];
      JoinSnoc(ws[1..], w);
      Regroup(ws[0], Join(ws[1..]), w);
    }
  }

  lemma Regroup(a: string, b: string, c: string)
    ensures a + " " + (b + " " + c) == a + " " + b + " " + c
  {
  }

  // ---- Reading it back ---------------------------------------------------

  function FirstSpace(t: string): (k: nat)
    ensures k <= |t| && ' ' !in t[..k] && (k < |t| ==> t[k] == ' ')
  {
    if t == "" || t[0] == ' ' then 0
    else
      var k := FirstSpace(t[1..]);
      assert t[..k + 1] == [t[0]] + t[1..][..k];
      k + 1
  }

  function DigitNamed(w: string, from: nat): Option<digit>
    requires from <= 10
    decreases 10 - from
  {
    if from == 10 then None else if w == Name(from) then Some(from) else DigitNamed(w, from + 1)
  }

  /** The words of a text, cut at every space. */
  function Split(t: string): (ws: seq<string>)
    decreases |t|
  {
    var k := FirstSpace(t);
    if k == |t| then [t] else [t[..k]] + Split(t[k + 1..])
  }

  /** The digits that the words name. */
  function ReadNames(ws: seq<string>): Option<seq<digit>> {
    if ws == [] then Some([])
    else
      var d, rest := DigitNamed(ws[0], 0), ReadNames(ws[1..]);
      if d.Some? && rest.Some? then Some([d.value] + rest.value) else None
  }

  /** The number a text of digit names stands for. */
  function Decode(t: string): Option<nat> {
    var ds := ReadNames(Split(t));
    if ds.Some? then Some(ValueFrom(0, ds.value)) else None
  }

  // ---- The round trip ----------------------------------------------------

  lemma NameKeys(d: digit)
    ensures ' ' !in Name(d)
    ensures Name(d)[0] == "zottffssen"[d] && Name(d)[1] == "enwhoiieii"[d]
  {
    if d == 0 {} else if d == 1 {} else if d == 2 {} else if d == 3 {} else if d == 4 {}
    else if d == 5 {} else if d == 6 {} else if d == 7 {} else if d == 8 {} else {}
  }

  /** Two letters tell the names apart. */
  lemma NameInjective(d: digit, e: digit)
    requires Name(d) == Name(e)
    ensures d == e
  {
    NameKeys(d);
    NameKeys(e);
  }

  lemma {:induction false} NameFound(d: digit, from: nat)
    requires from <= d
    ensures DigitNamed(Name(d), from) == Some(d)
    decreases 10 - from
  {
    if from < d {
      if Name(d) == Name(from) {
        NameInjective(d, from);
      }
      NameFound(d, from + 1);
    }
  }

  function ValueFrom(acc: nat, ds: seq<digit>): nat
    decreases |ds|
  {
    if ds == [] then acc else ValueFrom(10 * acc + ds[0], ds[1..])
  }

  lemma {:induction false} ValueSnoc(acc: nat, ds: seq<digit>, d: digit)
    ensures ValueFrom(acc, ds + [d]) == 10 * ValueFrom(acc, ds) + d
    decreases |ds|
  {
    if ds != [] {
      assert (ds + [d])[1..] == ds[1..] + [d];
      ValueSnoc(10 * acc + ds[0], ds[1..], d);
    }
  }

  lemma {:induction false} ValueOfDigits(num: nat)
    ensures ValueFrom(0, Digits(num)) == num
  {
    if num >= 10 {
      ValueOfDigits(num / 10);
      ValueSnoc(0, Digits(num / 10), num % 10);
    }
  }

  lemma {:induction false} FirstSpaceAfter(w: string, rest: string)
    requires ' ' !in w && (rest == "" || rest[0] == ' ')
    ensures FirstSpace(w + rest) == |w|
  {
    if w == "" {
      assert w + rest == rest;
    } else {
      assert (w + rest)[1..] == w[1..] + rest;
      FirstSpaceAfter(w[1..], rest);
    }
  }

  lemma SplitLast(w: string)
    requires ' ' !in w
    ensures Split(w) == [w]
  {
    FirstSpaceAfter(w, "");
    assert w + "" == w;
  }

  lemma SplitAt(t: string, a: string, b: string)
    requires FirstSpace(t) == |a| < |t| && t[..|a|] == a && t[|a| + 1..] == b
    ensures Split(t) == [a] + Split(b)
  {
    var k := FirstSpace(t);
    assert t[..k] == a && t[k + 1..] == b;
  }

  lemma SplitStep(w: string, rest: string)
    requires ' ' !in w
    ensures Split(w + " " + rest) == [w] + Split(rest)
  {
    var t := w + " " + rest;
    FirstSpaceAfter(w, " " + rest);
    assert t == w + (" " + rest);
    assert t[..|w|] == w && t[|w| + 1..] == rest;
    SplitAt(t, w, rest);
  }

  /** Cutting undoes joining. */
  lemma {:induction false} SplitJoin(ws: seq<string>)
    requires ws != [] && forall i :: 0 <= i < |ws| ==> ' ' !in ws[i]
    ensures Split(Join(ws)) == ws
    decreases |ws|
  {
    if |ws| == 1 {
      SplitLast(ws[0]);
    } else {
      SplitJoin(ws[1..]);
      SplitStep(ws[0], Join(ws[1..]));
    }
  }

  lemma {:induction false} NamesRead(ds: seq<digit>)
    ensures ReadNames(Names(ds)) == Some(ds)
    decreases |ds|
  {
    if ds != [] {
      NameFound(ds[0], 0);
      assert Names(ds)[1..] == Names(ds[1..]) && [ds[0]] + ds[1..] == ds;
      NamesRead(ds[1..]);
    }
  }

  /** Reading the text gives the number back. */
  lemma RoundTrip(num: nat)
    ensures Decode(Spell(num)) == Some(num)
  {
    var ds := Digits(num);
    forall i | 0 <= i < |ds|
      ensures ' ' !in Names(ds)[i]
    {
      NameKeys(ds[i]);
    }
    SplitJoin(Names(ds));
    NamesRead(ds);
    ValueOfDigits(num);
  }

  /** So no two numbers print alike. */
  lemma SpellInjective(m: nat, n: nat)
    requires Spell(m) == Spell(n)
    ensures m == n
  {
    RoundTrip(m);
    RoundTrip(n);
  }

  // ---- The size ----------------------------------------------------------

  lemma {:induction false} DigitCount(num: nat, k: nat, bound: nat)
    requires 1 <= k && num < bound && bound == Power10(k)
    ensures 1 <= |Digits(num)| <= k
    decreases k
  {
    if num >= 10 {
      DigitCount(num / 10, k - 1, bound / 10);
    }
  }

  function Power10(k: nat): nat {
    if k == 0 then 1 else 10 * Power10(k - 1)
  }

  lemma {:induction false} TextLength(ds: seq<digit>)
    requires ds != []
    ensures 4 * |ds| - 1 <= |Text(ds)| <= 6 * |ds| - 1
    ensures Text(ds)[|Text(ds)| - 1] != ' ' && NUL !in Text(ds)
  {
    NameKeys(ds[0]);
    NameEnds(ds[0]);
    TextCons(ds);
    if |ds| > 1 {
      TextLength(ds[1..]);
    }
  }

  lemma TextCons(ds: seq<digit>)
    requires ds != []
    ensures Text(ds) == if |ds| == 1 then Name(ds[0]) else Name(ds[0]) + " " + Text(ds[1..])
  {
    assert Names(ds)[1..] == Names(ds[1..]);
  }

  lemma NameEnds(d: digit)
    ensures NUL !in Name(d) && Name(d)[|Name(d)| - 1] != ' '
  {
    if d == 0 {} else if d == 1 {} else if d == 2 {} else if d == 3 {} else if d == 4 {}
    else if d == 5 {} else if d == 6 {} else if d == 7 {} else if d == 8 {} else {}
  }

  /** Ten digits are enough, and 60 characters with the terminator; no trailing space. */
  lemma Fits(num: nat)
    requires num <= INT_MAX
    ensures 1 <= |Digits(num)| <= 10
    ensures 3 <= |Spell(num)| && |Spell(num)| + 1 <= 60
    ensures Spell(num)[|Spell(num)| - 1] != ' ' && NUL !in Spell(num)
  {
    TenDigits(num);
    TextLength(Digits(num));
  }

  lemma TenDigits(num: nat)
    requires num <= INT_MAX
    ensures 1 <= |Digits(num)| <= 10
  {
    assert Power10(5) == 100000;
    assert Power10(10) == 10000000000;
    DigitCount(num, 10, Power10(10));
  }

  // ---- The printer -------------------------------------------------------

  /** `sprintf` of a fixed text: the characters, then the terminator. */
  method Sprint(buf: array<char>, cursor: nat, text: string)
    requires cursor + |text| < buf.Length
    modifies buf
    ensures buf[..cursor] == old(buf[..cursor])
    ensures buf[cursor..cursor + |text|] == text && buf[cursor + |text|] == NUL
    ensures buf[cursor + |text| + 1..] == old(buf[cursor + |text| + 1..])
  {
    for j := 0 to |text|
      invariant buf[..cursor] == old(buf[..cursor])
      invariant buf[cursor..cursor + j] == text[..j]
      invariant buf[cursor + j..] == old(buf[cursor + j..])
    {
      buf[cursor + j] := text[j];
    }
    buf[cursor + |text|] := NUL;
  }

  /** The last digit, and the ones before it. */
  lemma LastDigit(rest: nat, left: seq<digit>)
    requires left == Digits(rest)
    ensures left != [] && left[|left| - 1] == rest % 10
    ensures if rest < 10 then |left| == 1 else left[..|left| - 1] == Digits(rest / 10)
  {
  }

  /** The digits of `num`, least significant first, into a table of ten. */
  method FillDigits(num: int, digits: array<int>) returns (n: nat)
    requires 0 <= num <= INT_MAX && digits.Length == 10
    modifies digits
    ensures n == |Digits(num)| <= 10
    ensures forall j :: 0 <= j < n ==> digits[j] == Digits(num)[n - 1 - j]
  {
    TenDigits(num);
    ghost var ds := Digits(num);
    var rest, i := num, 0;
    ghost var left := ds;
    while true
      invariant 0 <= rest && 0 <= i < |ds| && left == Digits(rest)
      invariant left == ds[..|ds| - i]
      invariant forall j :: 0 <= j < i ==> digits[j] == ds[|ds| - 1 - j]
      decreases rest
    {
      LastDigit(rest, left);
      var digit := rest % 10;
      rest := rest / 10;
      digits[i] := digit;
      i := i + 1;
      if rest <= 0 {
        break;
      }
      left := left[..|left| - 1];
    }
    return i;
  }

  /** `sprintf` of the first word that is left of `all`; all but the last word are
      followed by a space. The cursor moves past the space, or past the terminator. */
  method SprintDigit(buf: array<char>, cursor: nat, word: string, more: bool, ghost left: seq<digit>, ghost all: string)
    returns (next: nat)
    requires left != [] && word == Name(left[0]) && more == (|left| > 1)
    requires cursor <= |all| < buf.Length && buf[..cursor] + Text(left) == all
    modifies buf
    ensures more ==> next <= |all| && buf[..next] + Text(left[1..]) == all
    ensures !more ==> buf[..|all|] == all && buf[|all|] == NUL
    ensures buf[|all| + 1..] == old(buf[|all| + 1..])
  {
    ghost var before := buf[..cursor];
    Unfold(before, left, all);
    if more {
      Sprint(buf, cursor, word + " ");
      assert buf[..cursor + |word| + 1] == before + (word + " ");
      assert before + (word + " ") == before + word + " ";
    } else {
      Sprint(buf, cursor, word);
      assert buf[..|all|] == before + word;
    }
    return cursor + |word| + 1;
  }

  lemma Unfold(before: string, left: seq<digit>, all: string)
    requires left != [] && before + Text(left) == all
    ensures |left| == 1 ==> before + Name(left[0]) == all
    ensures |left| > 1 ==> before + Name(left[0]) + " " + Text(left[1..]) == all
    ensures |left| > 1 ==> |before| + |Name(left[0])| + 1 <= |all|
  {
    TextCons(left);
    if |left| > 1 {
      assert before + (Name(left[0]) + " " + Text(left[1..])) == before + Name(left[0]) + " " + Text(left[1..]);
    }
  }

  /** The text, terminated, at the start of the buffer, and nothing behind it touched. */
  method NumToStr(num: int, buf: array<char>)
    requires 0 <= num <= INT_MAX && |Spell(num)| < buf.Length
    modifies buf
    ensures buf[..|Spell(num)|] == Spell(num) && buf[|Spell(num)|] == NUL
    ensures buf[|Spell(num)| + 1..] == old(buf[|Spell(num)| + 1..])
  {
    var digits := new int[10];
    var n := FillDigits(num, digits);
    ghost var left, all := Digits(num), Spell(num);
    var cursor: nat := 0;
    var i := n - 1;
    while i >= 0
      invariant -1 <= i < n && |left| == i + 1
      invariant forall j :: 0 <= j <= i ==> digits[j] == left[i - j]
      invariant i >= 0 ==> cursor <= |all| && buf[..cursor] + Text(left) == all
      invariant i < 0 ==> buf[..|all|] == all && buf[|all|] == NUL
      invariant buf[|all| + 1..] == old(buf[|all| + 1..])
    {
      var word := NUM_CHAR[digits[i]];
      cursor := SprintDigit(buf, cursor, word, i > 0, left, all);
      left := left[1..];
      i := i - 1;
    }
  }
}
