/**
 * Byte-string operations of Python 2 as the scripts use them: `str.strip()`,
 * `str.upper()`, iteration over the lines of a text file, and the ordering
 * `<=` on strings. Characters stand for bytes; only the ASCII letters have an
 * upper-case form, and whitespace is the six ASCII whitespace bytes.
 */
module Text {

  /** Python 2 `str.isspace()` on one byte: space, tab, LF, CR, VT, FF. */
  predicate IsSpace(c: char) {
    c == ' ' || c == '\t' || c == '\n' || c == '\r' || c == '\U{000B}' || c == '\U{000C}'
  }

  predicate IsDigit(c: char) {
    '0' <= c <= '9'
  }

  predicate IsLower(c: char) {
    'a' <= c <= 'z'
  }

  // ---------------------------------------------------------------------------
  // upper()

  function UpperChar(c: char): char {
    if IsLower(c) then (c as int - 32) as char else c
  }

  /** `s.upper()`: every ASCII lower-case letter replaced by its capital. */
  function Upper(s: string): (r: string)
    ensures |r| == |s|
    ensures forall i :: 0 <= i < |s| ==> r[i] == UpperChar(s[i])
  {
    seq(|s|, i requires 0 <= i < |s| => UpperChar(s[i]))
  }

  /** Upper-casing twice is upper-casing once, so the scripts' repeated `.upper()` is harmless. */
  lemma UpperIdempotent(s: string)
    ensures Upper(Upper(s)) == Upper(s)
    ensures forall i :: 0 <= i < |s| ==> !IsLower(Upper(s)[i])
  {
  }

  /** A string is its own upper-case form exactly when it holds no lower-case letter. */
  lemma UpperFixed(s: string)
    ensures Upper(s) == s <==> forall i :: 0 <= i < |s| ==> !IsLower(s[i])
  {
    if Upper(s) == s {
      forall i | 0 <= i < |s| ensures !IsLower(s[i]) {
        assert Upper(s)[i] == s[i];
      }
    }
  }

  // ---------------------------------------------------------------------------
  // strip()

  /** The first index at or after `i` that does not hold whitespace. */
  function FirstNonSpace(s: string, i: nat): (k: nat)
    requires i <= |s|
    ensures i <= k <= |s|
    ensures forall m :: i <= m < k ==> IsSpace(s[m])
    ensures k < |s| ==> !IsSpace(s[k])
    decreases |s| - i
  {
    if i == |s| || !IsSpace(s[i]) then i else FirstNonSpace(s, i + 1)
  }

  /** The end of `s[..j]` once its trailing whitespace is removed. */
  function EndNonSpace(s: string, j: nat): (k: nat)
    requires j <= |s|
    ensures k <= j
    ensures forall m :: k <= m < j ==> IsSpace(s[m])
    ensures 0 < k ==> !IsSpace(s[k - 1])
  {
    if j == 0 || !IsSpace(s[j - 1]) then j else EndNonSpace(s, j - 1)
  }

  /**
   * `s[i..j]` is what is left of `s` once all leading and trailing whitespace
   * is removed: everything outside is whitespace and, unless nothing is left,
   * the kept part starts and ends with a non-whitespace byte.
   */
  ghost predicate StripBounds(s: string, i: int, j: int) {
    && 0 <= i <= j <= |s|
    && (forall m :: 0 <= m < i ==> IsSpace(s[m]))
    && (forall m :: j <= m < |s| ==> IsSpace(s[m]))
    && (i < j ==> !IsSpace(s[i]) && !IsSpace(s[j - 1]))
  }

  /** Where `strip()` cuts `s`: the kept part is `s[i..j]` for the returned pair. */
  function StripRange(s: string): (b: (nat, nat))
    ensures StripBounds(s, b.0, b.1)
  {
    var j := EndNonSpace(s, |s|);
    var i := FirstNonSpace(s[..j], 0);
    (i, j)
  }

  /** `s.strip()` with no argument. */
  function Strip(s: string): string {
    var b := StripRange(s);
    s[b.0..b.1]
  }

  /** Any two ways of stripping `s` leave the same string, so `StripBounds` pins down `Strip`. */
  lemma StripUnique(s: string, i: int, j: int, i2: int, j2: int)
    requires StripBounds(s, i, j) && StripBounds(s, i2, j2)
    ensures s[i..j] == s[i2..j2]
  {
    // a non-whitespace byte inside one kept part cannot lie outside the other
    if i < j {
      assert !IsSpace(s[i]) && !IsSpace(s[j - 1]);
    }
    if i2 < j2 {
      assert !IsSpace(s[i2]) && !IsSpace(s[j2 - 1]);
    }
  }

  /** Stripping a line read with its terminating newline gives the same as stripping the bare line. */
  lemma StripNewline(l: string)
    ensures Strip(l + "\n") == Strip(l)
  {
    var s := l + "\n";
    var (i, j) := StripRange(l);
    assert StripBounds(s, i, j) by {
      assert forall m :: 0 <= m < |l| ==> s[m] == l[m];
    }
    var (i2, j2) := StripRange(s);
    StripUnique(s, i, j, i2, j2);
    assert s[i..j] == l[i..j];
  }

  /** A string that neither starts nor ends with whitespace is unchanged by `strip()`. */
  lemma StripFixed(s: string)
    requires s == [] || (!IsSpace(s[0]) && !IsSpace(s[|s| - 1]))
    ensures Strip(s) == s
  {
    assert StripBounds(s, 0, |s|);
    var (i, j) := StripRange(s);
    StripUnique(s, 0, |s|, i, j);
    assert s[0..|s|] == s;
  }

  // ---------------------------------------------------------------------------
  // Iterating over the lines of a file

  /** The length of the first line of `s`, counting its newline when it has one. */
  function LineLength(s: string): (k: nat)
    requires s != []
    ensures 0 < k <= |s|
    ensures forall m :: 0 <= m < k - 1 ==> s[m] != '\n'
    ensures s[k - 1] == '\n' || k == |s|
    decreases |s|
  {
    if s[0] == '\n' || |s| == 1 then 1 else 1 + LineLength(s[1..])
  }

  /** The first-line length is the only one with the properties `LineLength` promises. */
  lemma LineLengthUnique(s: string, k: nat)
    requires s != [] && 0 < k <= |s|
    requires forall m :: 0 <= m < k - 1 ==> s[m] != '\n'
    requires s[k - 1] == '\n' || k == |s|
    ensures k == LineLength(s)
  {
    var k0 := LineLength(s);
    // a newline that ends one of the two candidate lines cannot sit inside the other
    assert s[k - 1] == '\n' || k == |s|;
    assert s[k0 - 1] == '\n' || k0 == |s|;
  }

  /** A line as Python 2 yields it: non-empty, with a newline at most as its last byte. */
  predicate IsLine(l: string) {
    l != [] && forall m :: 0 <= m < |l| - 1 ==> l[m] != '\n'
  }

  predicate EndsWithNewline(s: string) {
    s != [] && s[|s| - 1] == '\n'
  }

  /** The sequence of lines `ls` glued back together. */
  function Concat(ls: seq<string>): string {
    if ls == [] then [] else ls[0] + Concat(ls[1..])
  }

  lemma {:induction false} ConcatAppend(a: seq<string>, b: seq<string>)
    ensures Concat(a + b) == Concat(a) + Concat(b)
    decreases |a|
  {
    if a == [] {
      assert a + b == b;
    } else {
      assert (a + b)[0] == a[0];
      assert (a + b)[1..] == a[1..] + b;
      ConcatAppend(a[1..], b);
    }
  }

  /** The lines of `ls` make up a whole file: every line but the last ends in a newline. */
  ghost predicate IsLineSplit(ls: seq<string>) {
    && (forall i :: 0 <= i < |ls| ==> IsLine(ls[i]))
    && (forall i :: 0 <= i < |ls| - 1 ==> EndsWithNewline(ls[i]))
  }

  /**
   * `for line in file`: the lines of `s`, each with its newline; a last line
   * without a newline is yielded too.
   */
  function SplitLines(s: string): (ls: seq<string>)
    ensures Concat(ls) == s
    ensures IsLineSplit(ls)
    decreases |s|
  {
    if s == [] then []
    else
      var k := LineLength(s);
      assert s == s[..k] + s[k..];
      [s[..k]] + SplitLines(s[k..])
  }

  /** The only way to cut a file into lines is `SplitLines`. */
  lemma {:induction false} SplitLinesUnique(s: string, ls: seq<string>)
    requires Concat(ls) == s && IsLineSplit(ls)
    ensures ls == SplitLines(s)
    decreases |s|
  {
    if ls == [] {
    } else {
      var l := ls[0];
      var rest := ls[1..];
      assert IsLine(l);
      assert s == l + Concat(rest);
      assert |l| <= |s|;
      assert s[..|l|] == l;
      LineLengthUnique(s, |l|) by {
        if |l| < |s| {
          assert rest != [];
          assert EndsWithNewline(ls[0]);
        }
      }
      assert s[|l|..] == Concat(rest);
      assert IsLineSplit(rest) by {
        forall i | 0 <= i < |rest| ensures IsLine(rest[i]) {
          assert rest[i] == ls[i + 1];
        }
        forall i | 0 <= i < |rest| - 1 ensures EndsWithNewline(rest[i]) {
          assert rest[i] == ls[i + 1];
        }
      }
      SplitLinesUnique(s[|l|..], rest);
      assert ls == [l] + rest;
    }
  }

  /** The lines of a file whose first part ends with a newline are the lines of each part. */
  lemma SplitLinesAppend(a: string, b: string)
    requires a == [] || EndsWithNewline(a)
    ensures SplitLines(a + b) == SplitLines(a) + SplitLines(b)
  {
    var la, lb := SplitLines(a), SplitLines(b);
    ConcatAppend(la, lb);
    if a != [] {
      LastLineEndsWithNewline(a);
    }
    LineSplitAppend(la, lb);
    SplitLinesUnique(a + b, la + lb);
  }

  /** Two line splits glue into one when the first ends with a complete line. */
  lemma LineSplitAppend(la: seq<string>, lb: seq<string>)
    requires IsLineSplit(la) && IsLineSplit(lb)
    requires la == [] || EndsWithNewline(la[|la| - 1])
    ensures IsLineSplit(la + lb)
  {
    var ls := la + lb;
    forall i | 0 <= i < |ls| ensures IsLine(ls[i]) {
      if i >= |la| { assert ls[i] == lb[i - |la|]; } else { assert ls[i] == la[i]; }
    }
    forall i | 0 <= i < |ls| - 1 ensures EndsWithNewline(ls[i]) {
      if i >= |la| { assert ls[i] == lb[i - |la|]; } else { assert ls[i] == la[i]; }
    }
  }

  /** A file that ends with a newline has a last line that ends with one. */
  lemma LastLineEndsWithNewline(a: string)
    requires EndsWithNewline(a)
    ensures SplitLines(a) != [] && EndsWithNewline(SplitLines(a)[|SplitLines(a)| - 1])
  {
    var la := SplitLines(a);
    assert la != [];
    ConcatLastChar(la);
  }

  lemma {:induction false} ConcatLastChar(ls: seq<string>)
    requires ls != [] && forall i :: 0 <= i < |ls| ==> ls[i] != []
    ensures Concat(ls) != []
    ensures Concat(ls)[|Concat(ls)| - 1] == ls[|ls| - 1][|ls[|ls| - 1]| - 1]
    decreases |ls|
  {
    if |ls| == 1 {
      assert Concat(ls) == ls[0] + Concat([]);
    } else {
      var rest := ls[1..];
      ConcatLastChar(rest);
      assert Concat(ls) == ls[0] + Concat(rest);
      assert rest[|rest| - 1] == ls[|ls| - 1];
    }
  }

  /** A newline-free string followed by a newline is read back as exactly one line. */
  lemma SplitSingleLine(l: string)
    requires '\n' !in l
    ensures SplitLines(l + "\n") == [l + "\n"]
  {
    var ls := [l + "\n"];
    assert Concat(ls) == l + "\n" by {
      assert Concat(ls) == ls[0] + Concat([]);
    }
    assert IsLine(l + "\n") by {
      forall m | 0 <= m < |l| ensures (l + "\n")[m] != '\n' {
        assert (l + "\n")[m] == l[m];
      }
    }
    SplitLinesUnique(l + "\n", ls);
  }

  // ---------------------------------------------------------------------------
  // Python 2 string ordering

  /** `a <= b` on Python 2 strings: byte-wise lexicographic, a proper prefix first. */
  predicate LexLe(a: string, b: string)
    decreases |a|
  {
    a == [] || (b != [] && (a[0] < b[0] || (a[0] == b[0] && LexLe(a[1..], b[1..]))))
  }

  lemma {:induction false} LexLeReflexive(a: string)
    ensures LexLe(a, a)
    decreases |a|
  {
    if a != [] {
      LexLeReflexive(a[1..]);
    }
  }

  lemma {:induction false} LexLeTotal(a: string, b: string)
    ensures LexLe(a, b) || LexLe(b, a)
    decreases |a|
  {
    if a != [] && b != [] && a[0] == b[0] {
      LexLeTotal(a[1..], b[1..]);
    }
  }

  lemma {:induction false} LexLeAntisymmetric(a: string, b: string)
    requires LexLe(a, b) && LexLe(b, a)
    ensures a == b
    decreases |a|
  {
    if a != [] {
      LexLeAntisymmetric(a[1..], b[1..]);
      assert a == [a[0]] + a[1..];
      assert b == [b[0]] + b[1..];
    }
  }

  lemma {:induction false} LexLeTransitive(a: string, b: string, c: string)
    requires LexLe(a, b) && LexLe(b, c)
    ensures LexLe(a, c)
    decreases |a|
  {
    if a != [] && a[0] == b[0] && b[0] == c[0] {
      LexLeTransitive(a[1..], b[1..], c[1..]);
    }
  }
}
