/** String utilities the helper relies on: splitting on a one-character
    separator, strict decimal numerals, ASCII lower-casing
    and white-space trimming. Strings are sequences of characters. */
module Text {

  /** Number of occurrences of `c` in `s`. */
  function Count(s: string, c: char): (n: nat)
    ensures n <= |s|
    ensures n == 0 <==> c !in s
  {
    if |s| == 0 then 0
    else (if s[0] == c then 1 else 0) + Count(s[1..], c)
  }

  /** The pieces of `s` between occurrences of `sep`, left to right; there is
      always at least one. */
  function Split(s: string, sep: char): (parts: seq<string>)
    ensures |parts| >= 1
    decreases |s|
  {
    if |s| == 0 then [""] else Prepend(s[0], Split(s[1..], sep), sep)
  }

  /** The pieces of `[c] + s`, given the pieces of `s`: the separator opens a
      new empty first piece, any other character joins the first piece. */
  function Prepend(c: char, rest: seq<string>, sep: char): (parts: seq<string>)
    requires |rest| >= 1
    ensures |parts| >= 1
  {
    if c == sep then [""] + rest else [[c] + rest[0]] + rest[1..]
  }

  /** No piece of a split holds the separator. */
  lemma {:induction false} SplitPiecesFree(s: string, sep: char)
    ensures forall i :: 0 <= i < |Split(s, sep)| ==> sep !in Split(s, sep)[i]
    decreases |s|
  {
    if |s| > 0 {
      SplitPiecesFree(s[1..], sep);
      var rest := Split(s[1..], sep);
      if s[0] != sep {
        assert sep !in [s[0]] + rest[0];
      }
    }
  }

  /** A split has one more piece than the string has separators. */
  lemma {:induction false} SplitCount(s: string, sep: char)
    ensures |Split(s, sep)| == Count(s, sep) + 1
    decreases |s|
  {
    if |s| > 0 {
      SplitCount(s[1..], sep);
    }
  }

  /** Glues non-empty `parts` back together with `sep` between neighbours. */
  function Join(parts: seq<string>, sep: char): string
    requires |parts| >= 1
    decreases |parts|
  {
    if |parts| == 1 then parts[0]
    else parts[0] + [sep] + Join(parts[1..], sep)
  }

  /** A string free of the separator splits into itself alone. */
  lemma {:induction false} SplitNoSeparator(s: string, sep: char)
    requires sep !in s
    ensures Split(s, sep) == [s]
    decreases |s|
  {
    if |s| > 0 {
      SplitNoSeparator(s[1..], sep);
      assert s == [s[0]] + s[1..];
    }
  }

  /** One step of splitting, for a string that starts with `c`. */
  lemma SplitCons(c: char, rest: string, sep: char)
    ensures Split([c] + rest, sep) == Prepend(c, Split(rest, sep), sep)
  {
    assert ([c] + rest)[1..] == rest;
  }

  /** Splitting distributes over a separator placed between two strings. */
  lemma {:induction false} SplitAround(a: string, b: string, sep: char)
    ensures Split(a + [sep] + b, sep) == Split(a, sep) + Split(b, sep)
    decreases |a|
  {
    if |a| == 0 {
      assert a + [sep] + b == [sep] + b;
      SplitCons(sep, b, sep);
    } else {
      var c, u := a[0], a[1..];
      assert a + [sep] + b == [c] + (u + [sep] + b);
      assert a == [c] + u;
      SplitAround(u, b, sep);
      SplitCons(c, u + [sep] + b, sep);
      SplitCons(c, u, sep);
      PrependAppend(c, Split(u, sep), Split(b, sep), sep);
    }
  }

  /** Prepending a character to the pieces commutes with appending pieces. */
  lemma PrependAppend(c: char, A: seq<string>, B: seq<string>, sep: char)
    requires |A| >= 1
    ensures Prepend(c, A + B, sep) == Prepend(c, A, sep) + B
  {
    assert (A + B)[1..] == A[1..] + B;
  }

  /** Splitting is the inverse of joining pieces that hold no separator. */
  lemma {:induction false} SplitJoin(parts: seq<string>, sep: char)
    requires |parts| >= 1
    requires forall i :: 0 <= i < |parts| ==> sep !in parts[i]
    ensures Split(Join(parts, sep), sep) == parts
    decreases |parts|
  {
    SplitNoSeparator(parts[0], sep);
    if |parts| > 1 {
      SplitJoin(parts[1..], sep);
      SplitAround(parts[0], Join(parts[1..], sep), sep);
      assert parts == [parts[0]] + parts[1..];
    }
  }

  predicate IsDigit(c: char) {
    '0' <= c <= '9'
  }

  /** A strict decimal numeral: at least one character, all of them digits
      (no sign, no white space, no suffix). */
  predicate IsDecimal(s: string) {
    |s| > 0 && forall i :: 0 <= i < |s| ==> IsDigit(s[i])
  }

  /** A numeral holds no character other than digits: in particular no dot. */
  lemma DecimalExcludes(s: string, c: char)
    requires IsDecimal(s) && !IsDigit(c)
    ensures c !in s
  {
    forall j | 0 <= j < |s|
      ensures s[j] != c
    {
      assert IsDigit(s[j]);
    }
  }

  function DigitValue(c: char): (d: nat)
    requires IsDigit(c)
    ensures d < 10
  {
    (c as int) - ('0' as int)
  }

  function DigitChar(d: nat): (c: char)
    requires d < 10
    ensures IsDigit(c) && DigitValue(c) == d
  {
    (('0' as int) + d) as char
  }

  /** The value of a numeral, most significant digit first. */
  function DecimalValue(s: string): nat
    requires forall i :: 0 <= i < |s| ==> IsDigit(s[i])
    decreases |s|
  {
    if |s| == 0 then 0
    else 10 * DecimalValue(s[..|s| - 1]) + DigitValue(s[|s| - 1])
  }

  /** The canonical numeral of `n`: no leading zeros. */
  function Decimal(n: nat): (s: string)
    ensures IsDecimal(s)
    ensures s[0] == '0' ==> n == 0
    decreases n
  {
    if n < 10 then [DigitChar(n)]
    else Decimal(n / 10) + [DigitChar(n % 10)]
  }

  /** Reading a printed number gives the number back. */
  lemma {:induction false} DecimalValueOfDecimal(n: nat)
    ensures DecimalValue(Decimal(n)) == n
    decreases n
  {
    var s := Decimal(n);
    if n >= 10 {
      DecimalValueOfDecimal(n / 10);
      assert s[..|s| - 1] == Decimal(n / 10);
    }
  }

    predicate IsUpper(c: char) {
    'A' <= c <= 'Z'
  }

  function LowerChar(c: char): (d: char)
    ensures !IsUpper(d)
    ensures !IsUpper(c) ==> d == c
  {
    if IsUpper(c) then (c as int - 'A' as int + 'a' as int) as char else c
  }

  /** ASCII lower-casing, character by character. */
  function ToLower(s: string): (r: string)
    ensures |r| == |s|
    ensures forall i :: 0 <= i < |s| ==> r[i] == LowerChar(s[i])
  {
    seq(|s|, i requires 0 <= i < |s| => LowerChar(s[i]))
  }

  /** White space: the six ASCII white-space characters. */
  predicate IsSpace(c: char) {
    c == ' ' || c == '\t' || c == '\n' || c == '\r' || c == '\U{000B}' || c == '\U{000C}'
  }

  /** Drops the leading white space of `s`. */
  function TrimLeft(s: string): (r: string)
    ensures |r| <= |s| && r == s[|s| - |r|..]
    ensures forall i :: 0 <= i < |s| - |r| ==> IsSpace(s[i])
    ensures |r| > 0 ==> !IsSpace(r[0])
    decreases |s|
  {
    if |s| > 0 && IsSpace(s[0]) then TrimLeft(s[1..]) else s
  }

  /** Drops the trailing white space of `s`. */
  function TrimRight(s: string): (r: string)
    ensures |r| <= |s| && r == s[..|r|]
    ensures forall i :: |r| <= i < |s| ==> IsSpace(s[i])
    ensures |r| > 0 ==> !IsSpace(r[|r| - 1])
    decreases |s|
  {
    if |s| > 0 && IsSpace(s[|s| - 1]) then TrimRight(s[..|s| - 1]) else s
  }

  /** Drops white space at both ends. */
  function TrimSpace(s: string): (r: string)
    ensures |r| > 0 ==> !IsSpace(r[0]) && !IsSpace(r[|r| - 1])
    ensures Contains(s, r)
  {
    var l := TrimLeft(s);
    var r := TrimRight(l);
    assert OccursAt(s, r, |s| - |l|);
    r
  }
  /** Lower-casing neither creates nor removes white space. */
  lemma SpaceOfLower(c: char)
    ensures IsSpace(LowerChar(c)) <==> IsSpace(c)
  {
  }

  /** Lower-casing twice is lower-casing once. */
  lemma ToLowerIdempotent(s: string)
    ensures ToLower(ToLower(s)) == ToLower(s)
  {
  }

  /** Trimming the front commutes with lower-casing. */
  lemma {:induction false} TrimLeftLower(s: string)
    ensures TrimLeft(ToLower(s)) == ToLower(TrimLeft(s))
    decreases |s|
  {
    if |s| > 0 {
      SpaceOfLower(s[0]);
      if IsSpace(s[0]) {
        assert ToLower(s)[1..] == ToLower(s[1..]);
        TrimLeftLower(s[1..]);
      }
    }
  }

  /** Trimming the back commutes with lower-casing. */
  lemma {:induction false} TrimRightLower(s: string)
    ensures TrimRight(ToLower(s)) == ToLower(TrimRight(s))
    decreases |s|
  {
    if |s| > 0 {
      SpaceOfLower(s[|s| - 1]);
      if IsSpace(s[|s| - 1]) {
        assert ToLower(s)[..|s| - 1] == ToLower(s[..|s| - 1]);
        TrimRightLower(s[..|s| - 1]);
      }
    }
  }

  /** Trimming commutes with lower-casing. */
  lemma TrimSpaceLower(s: string)
    ensures TrimSpace(ToLower(s)) == ToLower(TrimSpace(s))
  {
    TrimLeftLower(s);
    TrimRightLower(TrimLeft(s));
  }

  /** Trimming the front of a concatenation: the second part is reached only
      when the first is all white space. */
  lemma {:induction false} TrimLeftAppend(a: string, b: string)
    ensures TrimLeft(a + b) == if |TrimLeft(a)| > 0 then TrimLeft(a) + b else TrimLeft(b)
    decreases |a|
  {
    if |a| == 0 {
      assert a + b == b;
    } else if IsSpace(a[0]) {
      assert (a + b)[1..] == a[1..] + b;
      TrimLeftAppend(a[1..], b);
    }
  }

  /** Every character of `w` is white space. */
  predicate AllSpace(w: string) {
    forall i :: 0 <= i < |w| ==> IsSpace(w[i])
  }

  /** Leading white space is trimmed away, however much there is. */
  lemma {:induction false} TrimLeftSpaces(w: string, x: string)
    requires AllSpace(w)
    ensures TrimLeft(w + x) == TrimLeft(x)
    decreases |w|
  {
    if |w| > 0 {
      assert (w + x)[0] == w[0];
      assert (w + x)[1..] == w[1..] + x;
      TrimLeftSpaces(w[1..], x);
    } else {
      assert w + x == x;
    }
  }

  /** Trailing white space is trimmed away, however much there is. */
  lemma {:induction false} TrimRightSpaces(x: string, w: string)
    requires AllSpace(w)
    ensures TrimRight(x + w) == TrimRight(x)
    decreases |w|
  {
    if |w| > 0 {
      var v := w[..|w| - 1];
      assert (x + w)[|x + w| - 1] == w[|w| - 1];
      assert (x + w)[..|x + w| - 1] == x + v;
      TrimRightSpaces(x, v);
    } else {
      assert x + w == x;
    }
  }

  /** Surrounding a string with white space does not change its trimmed form. */
  lemma TrimSpacePadded(l: string, s: string, r: string)
    requires AllSpace(l) && AllSpace(r)
    ensures TrimSpace(l + s + r) == TrimSpace(s)
  {
    assert l + s + r == l + (s + r);
    TrimLeftSpaces(l, s + r);
    TrimLeftAppend(s, r);
    var t := TrimLeft(s);
    if |t| > 0 {
      TrimRightSpaces(t, r);
    } else {
      TrimLeftSpaces(r, "");
      assert r + "" == r;
    }
  }

  /** A string with no white space at either end is its own trimmed form. */
  lemma TrimSpaceIdle(s: string)
    requires |s| > 0 ==> !IsSpace(s[0]) && !IsSpace(s[|s| - 1])
    ensures TrimSpace(s) == s
  {
    assert TrimLeft(s) == s;
    assert TrimRight(s) == s;
  }


  /** True when `p` occurs in `s` starting at index `i`. */
  predicate OccursAt(s: string, p: string, i: int) {
    0 <= i <= |s| - |p| && s[i..i + |p|] == p
  }

  /** True when `p` occurs somewhere inside `s`. */
  predicate Contains(s: string, p: string) {
    exists i | 0 <= i <= |s| - |p| :: OccursAt(s, p, i)
  }
}
