/**
 * The plain-text exposure listings (`pn_exposures.txt`, `mos_exposures.txt`)
 * and the bad-exposure list: written one line at a time in append mode and
 * read back line by line, each line stripped and upper-cased. A file is
 * `Option<string>`: `None` when it does not exist.
 */
module Listing {
  import opened Wrappers
  import opened Text

  /** Each line followed by a newline, as `f.write(line + '\n')` leaves it. */
  function Terminated(lines: seq<string>): string {
    if lines == [] then [] else lines[0] + "\n" + Terminated(lines[1..])
  }

  lemma {:induction false} TerminatedAppend(a: seq<string>, b: seq<string>)
    ensures Terminated(a + b) == Terminated(a) + Terminated(b)
    decreases |a|
  {
    if a == [] {
      assert a + b == b;
    } else {
      assert (a + b)[0] == a[0];
      assert (a + b)[1..] == a[1..] + b;
      TerminatedAppend(a[1..], b);
    }
  }

  /**
   * Opening `f` in append mode and writing each of `lines` with a newline:
   * nothing is created when nothing is written, an absent file is created by
   * the first write, and what was there stays in front of the new lines.
   */
  function AppendLines(f: Option<string>, lines: seq<string>): (r: Option<string>)
    ensures lines == [] ==> r == f
    ensures r.Some? <==> f.Some? || lines != []
    ensures f.Some? ==> f.value <= r.value
    ensures lines != [] ==> EndsWithNewline(r.value)
  {
    if lines == [] then f
    else
      TerminatedEndsWithNewline(lines);
      Some(Contents(f) + Terminated(lines))
  }

  /** What reading a file gives: nothing when it does not exist. */
  function Contents(f: Option<string>): string {
    if f.None? then [] else f.value
  }

  lemma {:induction false} TerminatedEndsWithNewline(lines: seq<string>)
    requires lines != []
    ensures EndsWithNewline(Terminated(lines))
    decreases |lines|
  {
    if |lines| > 1 {
      TerminatedEndsWithNewline(lines[1..]);
    }
  }

  /** Appending in two rounds leaves the same file as appending everything at once. */
  lemma AppendLinesTwice(f: Option<string>, a: seq<string>, b: seq<string>)
    ensures AppendLines(AppendLines(f, a), b) == AppendLines(f, a + b)
  {
    if a != [] && b != [] {
      TerminatedAppend(a, b);
      assert Contents(f) + Terminated(a) + Terminated(b) == Contents(f) + (Terminated(a) + Terminated(b));
    } else if a == [] {
      assert a + b == b;
    } else {
      assert a + b == a;
    }
  }

  /** One listing line as the reader uses it: `line.strip().upper()`. */
  function Canonical(line: string): string {
    Upper(Strip(line))
  }

  /** The canonical form of every line of `lines`, in order. */
  function CanonicalAll(lines: seq<string>): (r: seq<string>)
    ensures |r| == |lines|
    ensures forall i :: 0 <= i < |lines| ==> r[i] == Canonical(lines[i])
  {
    seq(|lines|, i requires 0 <= i < |lines| => Canonical(lines[i]))
  }

  /** The exposure list read from a listing; a missing file reads as no exposures. */
  function ReadListing(f: Option<string>): seq<string> {
    match f
    case None => []
    case Some(text) => CanonicalAll(SplitLines(text))
  }

  /** A line that reads back as itself: no newline, no whitespace at its ends, no lower-case letters. */
  predicate IsCanonicalLine(l: string) {
    && '\n' !in l
    && (l == [] || (!IsSpace(l[0]) && !IsSpace(l[|l| - 1])))
    && forall i :: 0 <= i < |l| ==> !IsLower(l[i])
  }

  lemma CanonicalFixed(l: string)
    requires IsCanonicalLine(l)
    ensures Canonical(l) == l
  {
    StripFixed(l);
    UpperFixed(l);
  }

  /** The lines of the text written for `lines` are those lines with their newlines. */
  lemma {:induction false} SplitTerminated(lines: seq<string>)
    requires forall i :: 0 <= i < |lines| ==> '\n' !in lines[i]
    ensures |SplitLines(Terminated(lines))| == |lines|
    ensures forall i :: 0 <= i < |lines| ==> SplitLines(Terminated(lines))[i] == lines[i] + "\n"
    decreases |lines|
  {
    if lines != [] {
      var head := lines[0] + "\n";
      SplitTerminated(lines[1..]);
      assert Terminated(lines) == head + Terminated(lines[1..]);
      SplitLinesAppend(head, Terminated(lines[1..]));
      SplitSingleLine(lines[0]);
    }
  }

  lemma CanonicalAllAppend(x: seq<string>, y: seq<string>)
    ensures CanonicalAll(x + y) == CanonicalAll(x) + CanonicalAll(y)
  {
  }

  /** Reading the text written for newline-free lines gives their canonical forms. */
  lemma ReadTerminated(lines: seq<string>)
    requires forall i :: 0 <= i < |lines| ==> '\n' !in lines[i]
    ensures CanonicalAll(SplitLines(Terminated(lines))) == CanonicalAll(lines)
  {
    SplitTerminated(lines);
    var nl := SplitLines(Terminated(lines));
    forall i | 0 <= i < |lines|
      ensures Canonical(nl[i]) == Canonical(lines[i])
    {
      StripNewline(lines[i]);
    }
  }

  /**
   * Reading a listing after appending newline-free lines to it (absent, empty
   * or ending in a newline) yields the old entries followed by the canonical
   * form of each new line, in order.
   */
  lemma ReadAfterAppend(f: Option<string>, lines: seq<string>)
    requires f.None? || f.value == [] || EndsWithNewline(f.value)
    requires forall i :: 0 <= i < |lines| ==> '\n' !in lines[i]
    ensures ReadListing(AppendLines(f, lines)) == ReadListing(f) + CanonicalAll(lines)
  {
    if lines != [] {
      var before := Contents(f);
      var t := Terminated(lines);
      SplitLinesAppend(before, t);
      CanonicalAllAppend(SplitLines(before), SplitLines(t));
      ReadTerminated(lines);
      assert ReadListing(f) == CanonicalAll(SplitLines(before));
    }
  }

  /** Lines already in canonical form are read back verbatim. */
  lemma ReadBackCanonical(f: Option<string>, lines: seq<string>)
    requires f.None? || f.value == [] || EndsWithNewline(f.value)
    requires forall i :: 0 <= i < |lines| ==> IsCanonicalLine(lines[i])
    ensures ReadListing(AppendLines(f, lines)) == ReadListing(f) + lines
  {
    ReadAfterAppend(f, lines);
    CanonicalAllFixed(lines);
  }

  lemma CanonicalAllFixed(lines: seq<string>)
    requires forall i :: 0 <= i < |lines| ==> IsCanonicalLine(lines[i])
    ensures CanonicalAll(lines) == lines
  {
    forall i | 0 <= i < |lines| ensures CanonicalAll(lines)[i] == lines[i] {
      CanonicalFixed(lines[i]);
    }
  }
}
