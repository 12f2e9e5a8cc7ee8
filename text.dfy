/** The few Python string built-ins the buoy script relies on, stated over
    `string` (a sequence of Unicode scalar values, as Python's `str` is):
    decimal digits, `f"{n:0Wd}"` zero padding, `int(...)` of a literal,
    `str.split()` with no separator and `str.ljust(width)`. */
module Text {

  datatype Option<T> = None | Some(value: T)

  function Max(a: int, b: int): int { if a >= b then a else b }

  /** Python's `str.isspace()`: the characters `str.split()` separates on. */
  predicate IsSpace(c: char) {
    c == ' ' || ('\U{9}' <= c <= '\U{D}') || ('\U{1C}' <= c <= '\U{1F}')
    || c == '\U{85}' || c == '\U{A0}' || c == '\U{1680}'
    || ('\U{2000}' <= c <= '\U{200A}') || c == '\U{2028}' || c == '\U{2029}'
    || c == '\U{202F}' || c == '\U{205F}' || c == '\U{3000}'
  }

  predicate IsDigit(c: char) { '0' <= c <= '9' }

  predicate AllDigits(s: string) { forall i :: 0 <= i < |s| ==> IsDigit(s[i]) }

  function DigitChar(d: nat): (c: char)
    requires d < 10
    ensures IsDigit(c)
  {
    ('0' as int + d) as char
  }

  function DigitValue(c: char): (d: nat)
    requires IsDigit(c)
    ensures d < 10 && DigitChar(d) == c
  {
    c as int - '0' as int
  }

  /** The number a string of decimal digits spells (most significant first). */
  function DigitsValue(s: string): nat
    requires AllDigits(s)
  {
    if s == [] then 0 else DigitsValue(s[..|s| - 1]) * 10 + DigitValue(s[|s| - 1])
  }

  function Pow10(k: nat): (p: nat)
    ensures p >= 1
  {
    if k == 0 then 1 else 10 * Pow10(k - 1)
  }

  /** `str(n)` for a non-negative integer, left-padded with '0' up to `width`
      characters: the spelling `f"{n:0{width}d}"` gives a non-negative number. */
  function PadDigits(n: nat, width: nat): (r: string)
    ensures |r| >= 1 && |r| >= width && AllDigits(r) && DigitsValue(r) == n
    ensures n < Pow10(width) && width >= 1 ==> |r| == width
    ensures |r| > Max(width, 1) ==> r[0] != '0'
    decreases n + width
  {
    if n < 10 && width <= 1 then [DigitChar(n)]
    else
      var p := PadDigits(n / 10, if width == 0 then 0 else width - 1);
      var r := p + [DigitChar(n % 10)];
      assert r[..|r| - 1] == p;
      assert |p| == 1 && width <= 1 ==> n >= 10 && p == [DigitChar(n / 10)];
      r
  }

  function Repeat(c: char, k: nat): (r: string)
    ensures |r| == k && forall i :: 0 <= i < k ==> r[i] == c
  {
    if k == 0 then [] else [c] + Repeat(c, k - 1)
  }

  /** The literals Python's `int(...)` accepts here: an optional sign and at
      least one ASCII digit. */
  predicate IsIntLiteral(s: string) {
    |s| > 0 &&
    if s[0] == '-' || s[0] == '+' then |s| > 1 && AllDigits(s[1..]) else AllDigits(s)
  }

  function IntValue(s: string): (v: int)
    requires IsIntLiteral(s)
    ensures s[0] == '-' ==> v <= 0
    ensures s[0] != '-' ==> v >= 0
  {
    if s[0] == '-' then -(DigitsValue(s[1..]) as int)
    else if s[0] == '+' then DigitsValue(s[1..])
    else DigitsValue(s)
  }

  /** A non-empty digit string is an `int(...)` literal of the same value. */
  lemma DigitsAreLiteral(s: string)
    requires |s| >= 1 && AllDigits(s)
    ensures IsIntLiteral(s) && IntValue(s) == DigitsValue(s) && s[0] != '-'
  {
  }

  /** A minus sign before a non-empty digit string negates its value. */
  lemma NegatedLiteral(p: string)
    requires |p| >= 1 && AllDigits(p)
    ensures IsIntLiteral("-" + p) && IntValue("-" + p) == -(DigitsValue(p) as int)
  {
    assert ("-" + p)[1..] == p;
  }

  /** A number that fits the width is written with exactly `width` digits. */
  lemma FixedWidthDigits(n: nat, width: nat)
    requires 1 <= width && n < Pow10(width)
    ensures var a := FormatInt(n, width); |a| == width && AllDigits(a) && DigitsValue(a) == n
  {
    DigitsAreLiteral(FormatInt(n, width));
  }

  /** `r` is how `f"{n:0{width}d}"` spells `n`: an `int(...)` literal of `n`
      at least `width` long, with a minus sign exactly when `n` is negative,
      digits after it, and no zero beyond those the padding needs. */
  predicate PaddedSpelling(r: string, n: int, width: nat) {
    && IsIntLiteral(r) && IntValue(r) == n && |r| >= width
    && (r[0] == '-' <==> n < 0)
    && (n >= 0 ==> AllDigits(r) && (|r| > Max(width, 1) ==> r[0] != '0'))
    && (n < 0 ==> AllDigits(r[1..]) && (|r| > Max(width, 2) ==> r[1] != '0'))
  }

  /** Python's `f"{n:0{width}d}"`: the sign counts towards the width and the
      zeros go between the sign and the digits. */
  function FormatInt(n: int, width: nat): (r: string)
    ensures PaddedSpelling(r, n, width)
    ensures n >= 0 && n < Pow10(width) && width >= 1 ==> |r| == width
    ensures width >= 2 && n < 0 && -n < Pow10(width - 1) ==> |r| == width
  {
    if n >= 0 then
      var p := PadDigits(n, width);
      DigitsAreLiteral(p);
      p
    else
      var p := PadDigits(-n, if width == 0 then 0 else width - 1);
      NegatedLiteral(p);
      assert ("-" + p)[1..] == p;
      "-" + p
  }

  /** A digit string is below the next power of ten of its length. */
  lemma {:induction false} DigitsFitBelow(s: string)
    requires AllDigits(s)
    ensures DigitsValue(s) < Pow10(|s|)
  {
    if s != [] {
      DigitsFitBelow(s[..|s| - 1]);
    }
  }

  /** A digit string that does not start with '0' is at least the power of
      ten below its length. */
  lemma {:induction false} LeadingDigitBound(s: string)
    requires |s| >= 1 && AllDigits(s) && s[0] != '0'
    ensures DigitsValue(s) >= Pow10(|s| - 1)
  {
    if |s| > 1 {
      assert s[..|s| - 1][0] == s[0];
      LeadingDigitBound(s[..|s| - 1]);
    }
  }

  lemma {:induction false} Pow10Monotone(i: nat, j: nat)
    requires i <= j
    ensures Pow10(i) <= Pow10(j)
    decreases j
  {
    if i < j {
      Pow10Monotone(i, j - 1);
    }
  }

  /** Two digit strings of one length that spell one number are equal. */
  lemma {:induction false} SameLengthDigits(a: string, b: string)
    requires |a| == |b| && AllDigits(a) && AllDigits(b) && DigitsValue(a) == DigitsValue(b)
    ensures a == b
  {
    if a != [] {
      var n := |a| - 1;
      assert DigitValue(a[n]) == DigitsValue(a) % 10 && DigitValue(b[n]) == DigitsValue(b) % 10;
      assert DigitsValue(a[..n]) == DigitsValue(a) / 10 && DigitsValue(b[..n]) == DigitsValue(b) / 10;
      SameLengthDigits(a[..n], b[..n]);
      assert a == a[..n] + [a[n]] && b == b[..n] + [b[n]];
    }
  }

  /** Two digit strings at least `w` long, with no leading zero beyond `w`,
      that spell one number are equal. */
  lemma PaddedDigitsUnique(a: string, b: string, w: nat)
    requires w >= 1 && AllDigits(a) && AllDigits(b) && |a| >= w && |b| >= w
    requires |a| > w ==> a[0] != '0'
    requires |b| > w ==> b[0] != '0'
    requires DigitsValue(a) == DigitsValue(b)
    ensures a == b
  {
    if |a| > |b| {
      LeadingDigitBound(a);
      DigitsFitBelow(b);
      Pow10Monotone(|b|, |a| - 1);
    } else if |b| > |a| {
      LeadingDigitBound(b);
      DigitsFitBelow(a);
      Pow10Monotone(|a|, |b| - 1);
    } else {
      SameLengthDigits(a, b);
    }
  }

  /** `f"{n:0{width}d}"` has one spelling: any two strings that spell `n`
      padded to `width` are the same string, the one `FormatInt` gives. */
  lemma PaddedSpellingUnique(a: string, b: string, n: int, width: nat)
    requires PaddedSpelling(a, n, width) && PaddedSpelling(b, n, width)
    ensures a == b
  {
    if n >= 0 {
      PaddedDigitsUnique(a, b, Max(width, 1));
    } else {
      PaddedDigitsUnique(a[1..], b[1..], Max(width, 2) - 1);
      assert a == [a[0]] + a[1..] && b == [b[0]] + b[1..];
    }
  }

  /** Python's `s.ljust(width)`: pads on the right with spaces. */
  function LeftJustify(s: string, width: nat): (r: string)
    ensures |r| == Max(width, |s|)
    ensures r[..|s|] == s
    ensures forall i :: |s| <= i < |r| ==> r[i] == ' '
  {
    if |s| >= width then s else s + Repeat(' ', width - |s|)
  }

  /** A token `str.split()` can produce: non-empty, free of whitespace. */
  predicate IsWord(w: string) {
    |w| > 0 && forall i :: 0 <= i < |w| ==> !IsSpace(w[i])
  }

  /** The length of the run of non-whitespace characters that starts `s`. */
  function WordLength(s: string): (n: nat)
    ensures n <= |s|
    ensures forall i :: 0 <= i < n ==> !IsSpace(s[i])
    ensures n < |s| ==> IsSpace(s[n])
  {
    if s == [] || IsSpace(s[0]) then 0 else 1 + WordLength(s[1..])
  }

  /** Python's `s.split()`: the maximal runs of non-whitespace, in order. */
  function Split(s: string): (r: seq<string>)
    ensures forall k :: 0 <= k < |r| ==> IsWord(r[k])
    decreases |s|
  {
    if s == [] then []
    else if IsSpace(s[0]) then Split(s[1..])
    else
      var n := WordLength(s);
      [s[..n]] + Split(s[n..])
  }

  lemma {:induction false} WordLengthOfWord(w: string, t: string)
    requires forall i :: 0 <= i < |w| ==> !IsSpace(w[i])
    requires t == [] || IsSpace(t[0])
    ensures WordLength(w + t) == |w|
    decreases |w|
  {
    if w != [] {
      assert (w + t)[1..] == w[1..] + t;
      WordLengthOfWord(w[1..], t);
    } else {
      assert w + t == t;
    }
  }

  /** Leading whitespace, however long, yields no token. */
  lemma {:induction false} SplitSkipsSpace(sp: string, s: string)
    requires forall i :: 0 <= i < |sp| ==> IsSpace(sp[i])
    ensures Split(sp + s) == Split(s)
    decreases |sp|
  {
    if sp != [] {
      assert (sp + s)[1..] == sp[1..] + s;
      SplitSkipsSpace(sp[1..], s);
    } else {
      assert sp + s == s;
    }
  }

  /** A word followed by a run of whitespace is the first token, and
      splitting goes on after the run: the token count and positions of a
      row do not depend on how many blanks separate its columns. */
  lemma SplitAfterWord(w: string, sp: string, s: string)
    requires IsWord(w)
    requires |sp| > 0 && forall i :: 0 <= i < |sp| ==> IsSpace(sp[i])
    ensures Split(w + sp + s) == [w] + Split(s)
  {
    var t := sp + s;
    assert w + sp + s == w + t;
    WordLengthOfWord(w, t);
    assert (w + t)[..|w|] == w;
    assert (w + t)[|w|..] == t;
    SplitSkipsSpace(sp, s);
  }

  /** A word alone is one token. */
  lemma SplitWord(w: string)
    requires IsWord(w)
    ensures Split(w) == [w]
  {
    WordLengthOfWord(w, []);
    assert w + [] == w;
    assert w[..|w|] == w && w[|w|..] == [];
  }

  /** Words laid out in a row, each followed by its run of whitespace. */
  function Laid(ws: seq<string>, seps: seq<string>): string
    requires |seps| == |ws|
  {
    if ws == [] then "" else ws[0] + seps[0] + Laid(ws[1..], seps[1..])
  }

  predicate AllSpace(s: string) { forall i :: 0 <= i < |s| ==> IsSpace(s[i]) }

  /** A row of words separated by runs of whitespace, with any whitespace
      before the first and after the last, splits into exactly those words:
      the k-th token is the k-th column whatever the column widths. */
  lemma {:induction false} SplitLaid(lead: string, ws: seq<string>, seps: seq<string>)
    requires AllSpace(lead) && |seps| == |ws|
    requires forall k :: 0 <= k < |ws| ==> IsWord(ws[k]) && AllSpace(seps[k])
    requires forall k :: 0 <= k < |ws| - 1 ==> |seps[k]| > 0
    ensures Split(lead + Laid(ws, seps)) == ws
    decreases |ws|
  {
    SplitSkipsSpace(lead, Laid(ws, seps));
    if ws != [] {
      var rest := Laid(ws[1..], seps[1..]);
      SplitLaid([], ws[1..], seps[1..]);
      assert [] + rest == rest;
      if |seps[0]| > 0 {
        SplitAfterWord(ws[0], seps[0], rest);
      } else {
        assert rest == "";
        assert ws[0] + seps[0] + rest == ws[0];
        SplitWord(ws[0]);
      }
      assert [ws[0]] + ws[1..] == ws;
    }
  }
}
