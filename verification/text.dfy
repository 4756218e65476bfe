/** The JavaScript string operations the application relies on, over
    strings as sequences of code points: `trim`, `split` on one character,
    `join`, ASCII lower-casing and substring search. */
module Text {

  /** The code points that `String.prototype.trim` removes: ECMAScript's
      WhiteSpace (TAB, VT, FF, SP, NBSP, ZWNBSP and the Zs category: OGHAM
      SPACE MARK, U+2000 to U+200A, NNBSP, MMSP and IDEOGRAPHIC SPACE) and
      LineTerminator (LF, CR, LS, PS). */
  const Whitespace: set<char> := {
    '\t', '\n', '\U{000B}', '\U{000C}', '\r', ' ', '\U{00A0}', '\U{1680}',
    '\U{2000}', '\U{2001}', '\U{2002}', '\U{2003}', '\U{2004}', '\U{2005}',
    '\U{2006}', '\U{2007}', '\U{2008}', '\U{2009}', '\U{200A}',
    '\U{2028}', '\U{2029}', '\U{202F}', '\U{205F}', '\U{3000}', '\U{FEFF}'
  }

  predicate IsWhitespace(c: char) {
    c in Whitespace
  }

  /** True when every code point of `s` is whitespace (also for ""). */
  predicate IsBlank(s: string) {
    forall i :: 0 <= i < |s| ==> IsWhitespace(s[i])
  }

  /** The comma is not whitespace, so a blank string holds none. */
  lemma BlankHasNoComma(s: string)
    requires IsBlank(s)
    ensures ',' !in s
  {
  }

  /** The first index at or after `i` whose code point is not whitespace,
      or `|s|`. */
  function SkipForward(s: string, i: nat): (r: nat)
    requires i <= |s|
    ensures i <= r <= |s|
    ensures forall k :: i <= k < r ==> IsWhitespace(s[k])
    ensures r < |s| ==> !IsWhitespace(s[r])
    decreases |s| - i
  {
    if i < |s| && IsWhitespace(s[i]) then SkipForward(s, i + 1) else i
  }

  /** Scanning down from `j` but not below `lo`, the end of the last code
      point that is not whitespace: everything from the result up to `j` is
      whitespace. */
  function SkipBackward(s: string, lo: nat, j: nat): (r: nat)
    requires lo <= j <= |s|
    ensures lo <= r <= j
    ensures forall k :: r <= k < j ==> IsWhitespace(s[k])
    ensures r > lo ==> !IsWhitespace(s[r - 1])
  {
    if j > lo && IsWhitespace(s[j - 1]) then SkipBackward(s, lo, j - 1) else j
  }

  /** `r` sits in `s` at offset `i`. */
  predicate SliceAt(s: string, r: string, i: int) {
    0 <= i && i + |r| <= |s| && s[i..i + |r|] == r
  }

  /** `String.prototype.trim`: neither starts nor ends with whitespace, and
      is empty exactly when `s` is all whitespace (`TrimIsSlice` locates it
      in `s`). */
  function Trim(s: string): (r: string)
    ensures r == [] || (!IsWhitespace(r[0]) && !IsWhitespace(r[|r| - 1]))
    ensures r == [] <==> IsBlank(s)
  {
    var start := SkipForward(s, 0);
    s[start..SkipBackward(s, start, |s|)]
  }

  /** The trim is the slice of `s` left once the leading and the trailing
      whitespace are cut off: all of what precedes it and all of what follows
      it is whitespace. */
  lemma TrimIsSlice(s: string)
    ensures SliceAt(s, Trim(s), SkipForward(s, 0))
    ensures IsBlank(s[..SkipForward(s, 0)])
    ensures IsBlank(s[SkipForward(s, 0) + |Trim(s)|..])
  {
  }

  /** A code point absent from `s` is absent from its trim. */
  lemma TrimKeepsOut(s: string, c: char)
    requires c !in s
    ensures c !in Trim(s)
  {
  }

  /** A string already free of surrounding whitespace is its own trim. */
  lemma TrimOfTrimmed(s: string)
    requires s == [] || (!IsWhitespace(s[0]) && !IsWhitespace(s[|s| - 1]))
    ensures Trim(s) == s
  {
  }

  /** Trimming is idempotent. */
  lemma TrimIdempotent(s: string)
    ensures Trim(Trim(s)) == Trim(s)
  {
  }

  /** Scanning forward past one more leading code point ends one later. */
  lemma {:induction false} SkipForwardShift(c: char, s: string, i: nat)
    requires i <= |s|
    ensures SkipForward([c] + s, i + 1) == SkipForward(s, i) + 1
    decreases |s| - i
  {
    if i < |s| {
      assert ([c] + s)[i + 1] == s[i];
      if IsWhitespace(s[i]) {
        SkipForwardShift(c, s, i + 1);
      }
    }
  }

  /** Scanning backward over a string with one more leading code point ends
      one later. */
  lemma {:induction false} SkipBackwardShift(c: char, s: string, lo: nat, j: nat)
    requires lo <= j <= |s|
    ensures SkipBackward([c] + s, lo + 1, j + 1) == SkipBackward(s, lo, j) + 1
  {
    if j > lo {
      assert ([c] + s)[j] == s[j - 1];
      if IsWhitespace(s[j - 1]) {
        SkipBackwardShift(c, s, lo, j - 1);
      }
    }
  }

  /** Slicing behind one more leading code point. */
  lemma ConsSlice(c: char, s: string, i: nat, j: nat)
    requires i <= j <= |s|
    ensures ([c] + s)[i + 1..j + 1] == s[i..j]
  {
  }

  /** After a leading space both scans of the trim land one position later. */
  lemma SkipsAfterSpace(s: string)
    ensures SkipForward([' '] + s, 0) == SkipForward(s, 0) + 1
    ensures SkipBackward([' '] + s, SkipForward(s, 0) + 1, |s| + 1)
         == SkipBackward(s, SkipForward(s, 0), |s|) + 1
  {
    assert IsWhitespace(([' '] + s)[0]);
    SkipForwardShift(' ', s, 0);
    SkipBackwardShift(' ', s, SkipForward(s, 0), |s|);
  }

  /** A leading space makes no difference to the trim. */
  lemma TrimLeadingSpace(s: string)
    ensures Trim([' '] + s) == Trim(s)
  {
    SkipsAfterSpace(s);
    var start := SkipForward(s, 0);
    ConsSlice(' ', s, start, SkipBackward(s, start, |s|));
  }

  /** `s.split(sep)` for a one-character separator: the pieces between
      separators, in order, at least one (`"".split(",")` is `[""]`). */
  function Split(s: string, sep: char): (r: seq<string>)
    ensures |r| >= 1
    ensures forall i :: 0 <= i < |r| ==> sep !in r[i]
  {
    if s == [] then [[]]
    else
      var rest := Split(s[1..], sep);
      if s[0] == sep then [[]] + rest
      else [[s[0]] + rest[0]] + rest[1..]
  }

  /** `parts.join(sep)`. */
  function Join(parts: seq<string>, sep: string): string {
    if |parts| == 0 then []
    else if |parts| == 1 then parts[0]
    else parts[0] + sep + Join(parts[1..], sep)
  }

  /** Joining the pieces of a split with the separator gives the input back. */
  lemma {:induction false} JoinSplit(s: string, sep: char)
    ensures Join(Split(s, sep), [sep]) == s
  {
    if s != [] {
      var rest := Split(s[1..], sep);
      JoinSplit(s[1..], sep);
      if s[0] == sep {
        assert ([[]] + rest)[1..] == rest;
      } else if |rest| > 1 {
        var r := [[s[0]] + rest[0]] + rest[1..];
        assert r[1..] == rest[1..];
        calc {
          Join(r, [sep]);
          ([s[0]] + rest[0]) + [sep] + Join(rest[1..], [sep]);
          [s[0]] + (rest[0] + [sep] + Join(rest[1..], [sep]));
          [s[0]] + Join(rest, [sep]);
        }
      }
    }
  }

  /** Splitting `a + s` where `a` has no separator glues `a` to the first
      piece of `s` and leaves the other pieces alone. */
  lemma {:induction false} SplitPrefix(a: string, s: string, sep: char)
    requires sep !in a
    ensures Split(a + s, sep) == [a + Split(s, sep)[0]] + Split(s, sep)[1..]
  {
    var rs := Split(s, sep);
    if a == [] {
      assert a + s == s && a + rs[0] == rs[0];
      assert [a + rs[0]] + rs[1..] == rs;
    } else {
      var t := a[1..] + s;
      assert (a + s)[0] == a[0] && (a + s)[1..] == t;
      assert Split(t, sep) == [a[1..] + rs[0]] + rs[1..] by {
        SplitPrefix(a[1..], s, sep);
      }
      assert [a[0]] + (a[1..] + rs[0]) == a + rs[0];
    }
  }

  /** A string without the separator is a single piece. */
  lemma SplitWithoutSeparator(a: string, sep: char)
    requires sep !in a
    ensures Split(a, sep) == [a]
  {
    SplitPrefix(a, [], sep);
    assert a + [] == a;
  }

  /** Gluing a code point to the first piece commutes with appending more
      pieces. */
  lemma GlueFirstPiece(c: char, ra: seq<string>, rb: seq<string>)
    requires ra != []
    ensures [[c] + (ra + rb)[0]] + (ra + rb)[1..] == ([[c] + ra[0]] + ra[1..]) + rb
  {
    assert (ra + rb)[0] == ra[0] && (ra + rb)[1..] == ra[1..] + rb;
  }

  /** Splitting at a separator splits the two sides independently. */
  lemma {:induction false} SplitAtSeparator(a: string, b: string, sep: char)
    ensures Split(a + [sep] + b, sep) == Split(a, sep) + Split(b, sep)
  {
    var s := a + [sep] + b;
    if a == [] {
      assert s == [sep] + b && s[1..] == b;
    } else {
      var tail := a[1..] + [sep] + b;
      assert s[0] == a[0] && s[1..] == tail;
      var ra, rb := Split(a[1..], sep), Split(b, sep);
      assert Split(tail, sep) == ra + rb by {
        SplitAtSeparator(a[1..], b, sep);
      }
      if a[0] != sep {
        GlueFirstPiece(a[0], ra, rb);
      }
    }
  }

  /** One piece more than there are separators: `split` drops nothing. */
  lemma {:induction false} SplitLength(s: string, sep: char)
    ensures |Split(s, sep)| == multiset(s)[sep] + 1
  {
    if s != [] {
      SplitLength(s[1..], sep);
      assert s == [s[0]] + s[1..];
      assert multiset(s) == multiset{s[0]} + multiset(s[1..]);
    }
  }

  /** `ps.map(t => t.trim())`. */
  function TrimEach(ps: seq<string>): (r: seq<string>)
    ensures |r| == |ps|
    ensures forall i :: 0 <= i < |ps| ==> r[i] == Trim(ps[i])
  {
    seq(|ps|, i requires 0 <= i < |ps| => Trim(ps[i]))
  }

  /** Trimming piece by piece commutes with concatenation. */
  lemma TrimEachAppend(a: seq<string>, b: seq<string>)
    ensures TrimEach(a + b) == TrimEach(a) + TrimEach(b)
  {
  }

  /** ASCII lower-casing of one code point. */
  function LowerChar(c: char): char {
    if 'A' <= c <= 'Z' then (c as int + 32) as char else c
  }

  function Lower(s: string): (r: string)
    ensures |r| == |s|
  {
    seq(|s|, i requires 0 <= i < |s| => LowerChar(s[i]))
  }

  /** `pat` occurs in `text` as a contiguous substring. */
  predicate Contains(text: string, pat: string) {
    exists i :: 0 <= i <= |text| && SliceAt(text, pat, i)
  }

  /** Substring search with ASCII case folding on both sides. */
  predicate ContainsIgnoringCase(text: string, pat: string) {
    Contains(Lower(text), Lower(pat))
  }

  /** The empty pattern occurs in every text. */
  lemma EmptyOccursEverywhere(text: string)
    ensures ContainsIgnoringCase(text, "")
  {
    assert SliceAt(Lower(text), Lower(""), 0);
  }
}
