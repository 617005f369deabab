/**
 The Python `str` operations that the template extension and the setup
 script are built from: `in`, `find`, `split`, `join`, `strip`, `lower` and
 `isdigit`. Strings are Dafny strings (sequences of Unicode scalar values).
 */
module PyStr {
  import opened Wrappers

  /** `sub in s`: `sub` occurs somewhere in `s`. */
  predicate Contains(s: string, sub: string): (b: bool)
    ensures b ==> |sub| <= |s|
    ensures |sub| == 0 ==> b
    ensures |sub| == 1 ==> (b <==> sub[0] in s)
  {
    CharOccurs(s, sub);
    exists i :: 0 <= i <= |s| && sub <= s[i..]
  }

  /** The empty string occurs at the start, a one-character string occurs
      exactly where its character does, and what occurs is no longer than
      `s`. */
  lemma CharOccurs(s: string, sub: string)
    ensures |sub| == 0 ==> sub <= s[0..]
    ensures |sub| == 1 && sub[0] in s ==> exists i :: 0 <= i <= |s| && sub <= s[i..]
    ensures forall i :: 0 <= i <= |s| && sub <= s[i..] ==> |sub| <= |s| && (|sub| == 1 ==> sub[0] in s)
  {
    if |sub| == 1 && sub[0] in s {
      var j :| 0 <= j < |s| && s[j] == sub[0];
      assert sub <= s[j..];
    }
    forall i | 0 <= i <= |s| && sub <= s[i..]
      ensures |sub| <= |s| && (|sub| == 1 ==> sub[0] in s)
    {
      if |sub| == 1 {
        assert s[i] == sub[0];
      }
    }
  }

  /** `c.isdigit()`, restricted to the ASCII digits. */
  predicate IsDigit(c: char) {
    '0' <= c <= '9'
  }

  /** The characters `str.isspace()` accepts, which are the ones `str.strip()`
      with no argument removes and the ones `\s` matches in a `str` pattern. */
  const Whitespace: set<char> :=
    {'\t', '\n', '\U{0B}', '\U{0C}', '\r', '\U{1C}', '\U{1D}', '\U{1E}', '\U{1F}', ' ',
     '\U{85}', '\U{A0}', '\U{1680}', '\U{2000}', '\U{2001}', '\U{2002}', '\U{2003}',
     '\U{2004}', '\U{2005}', '\U{2006}', '\U{2007}', '\U{2008}', '\U{2009}', '\U{200A}',
     '\U{2028}', '\U{2029}', '\U{202F}', '\U{205F}', '\U{3000}'}

  /** `s.find(c)` for one character, with None in place of -1. */
  function Find(s: string, c: char): (r: Option<nat>)
    ensures r.None? <==> c !in s
    ensures r.Some? ==> r.value < |s| && s[r.value] == c && c !in s[..r.value]
  {
    if |s| == 0 then None
    else if s[0] == c then Some(0)
    else
      match Find(s[1..], c)
      case None => None
      case Some(i) =>
        assert s[..i + 1] == [s[0]] + s[1..][..i];
        Some(i + 1)
  }

  /** `s.split(sep)` for a one-character separator: the pieces between the
      separators, from left to right. There is always at least one piece and no
      piece holds the separator; the first piece is the text before the first
      separator (all of `s` when there is none). */
  function Split(s: string, sep: char): (parts: seq<string>)
    ensures |parts| >= 1
    ensures forall i :: 0 <= i < |parts| ==> sep !in parts[i]
    ensures parts[0] <= s
    ensures |parts[0]| < |s| ==> s[|parts[0]|] == sep
    ensures |parts| == 1 <==> sep !in s
    decreases |s|
  {
    if |s| == 0 then [""]
    else
      var rest := Split(s[1..], sep);
      if s[0] == sep then [""] + rest
      else [[s[0]] + rest[0]] + rest[1..]
  }

  /** `sep.join(parts)` for a one-character separator. */
  function Join(parts: seq<string>, sep: char): (r: string)
    ensures |parts| == 0 ==> r == ""
    ensures |parts| >= 1 ==> parts[0] <= r
    ensures |parts| >= 2 ==> |parts[0]| < |r| && r[|parts[0]|] == sep
    decreases |parts|
  {
    if |parts| == 0 then ""
    else if |parts| == 1 then parts[0]
    else parts[0] + [sep] + Join(parts[1..], sep)
  }

  /** Joining the pieces of a split gives back the original string. */
  lemma {:induction false} JoinSplit(s: string, sep: char)
    ensures Join(Split(s, sep), sep) == s
    decreases |s|
  {
    if |s| > 0 {
      var rest := Split(s[1..], sep);
      JoinSplit(s[1..], sep);
      if s[0] == sep {
        assert Split(s, sep) == [""] + rest;
      } else {
        var parts := Split(s, sep);
        assert parts == [[s[0]] + rest[0]] + rest[1..];
        if |rest| == 1 {
          assert Join(rest, sep) == rest[0];
        } else {
          assert parts[1..] == rest[1..];
          assert Join(rest, sep) == rest[0] + [sep] + Join(rest[1..], sep);
        }
      }
    }
  }

  /** One step of `Split`: a leading separator starts a new first piece. */
  lemma {:induction false} SplitConsSep(c: char, t: string, sep: char)
    requires c == sep
    ensures Split([c] + t, sep) == [""] + Split(t, sep)
  {
    assert ([c] + t)[1..] == t;
  }

  /** One step of `Split`: a leading ordinary character extends the first
      piece of the rest. */
  lemma {:induction false} SplitConsChar(c: char, t: string, sep: char)
    requires c != sep
    ensures Split([c] + t, sep) == [[c] + Split(t, sep)[0]] + Split(t, sep)[1..]
  {
    assert ([c] + t)[1..] == t;
  }

  /** Prepending one piece commutes with appending more pieces. */
  lemma ConsAppend(x: string, xs: seq<string>, ys: seq<string>)
    ensures [x] + (xs + ys) == ([x] + xs) + ys
  {
  }

  /** Sequence bookkeeping for `SplitAppendStep`: extending the first piece
      commutes with appending more pieces. */
  lemma {:induction false} ExtendFirstPiece(c: char, ra: seq<string>, sb: seq<string>, r: seq<string>)
    requires |ra| >= 1 && r == ra + sb
    ensures [[c] + r[0]] + r[1..] == ([[c] + ra[0]] + ra[1..]) + sb
  {
    assert r[1..] == ra[1..] + sb;
  }

  /** The inductive step of `SplitAppend` for a leading separator. */
  lemma {:induction false} SplitAppendSepStep(c: char, a: string, b: string, sep: char)
    requires c == sep
    requires Split(a + [sep] + b, sep) == Split(a, sep) + Split(b, sep)
    ensures Split([c] + (a + [sep] + b), sep) == Split([c] + a, sep) + Split(b, sep)
  {
    SplitConsSep(c, a + [sep] + b, sep);
    SplitConsSep(c, a, sep);
    ConsAppend("", Split(a, sep), Split(b, sep));
  }

  /** The inductive step of `SplitAppend` for a leading ordinary character. */
  lemma {:induction false} SplitAppendCharStep(c: char, a: string, b: string, sep: char)
    requires c != sep
    requires Split(a + [sep] + b, sep) == Split(a, sep) + Split(b, sep)
    ensures Split([c] + (a + [sep] + b), sep) == Split([c] + a, sep) + Split(b, sep)
  {
    var t := a + [sep] + b;
    SplitConsChar(c, t, sep);
    SplitConsChar(c, a, sep);
    ExtendFirstPiece(c, Split(a, sep), Split(b, sep), Split(t, sep));
  }

  /** Splitting at a separator character cuts the string into the pieces of
      each side. */
  lemma {:induction false} SplitAppend(a: string, b: string, sep: char)
    ensures Split(a + [sep] + b, sep) == Split(a, sep) + Split(b, sep)
    decreases |a|
  {
    if |a| == 0 {
      assert a + [sep] + b == [sep] + b;
      SplitConsSep(sep, b, sep);
    } else {
      var c, a' := a[0], a[1..];
      assert a == [c] + a';
      assert a + [sep] + b == [c] + (a' + [sep] + b);
      SplitAppend(a', b, sep);
      if c == sep {
        SplitAppendSepStep(c, a', b, sep);
      } else {
        SplitAppendCharStep(c, a', b, sep);
      }
    }
  }

  /** A string without the separator splits into itself alone. */
  lemma SplitWithoutSeparator(s: string, sep: char)
    requires sep !in s
    ensures Split(s, sep) == [s]
  {
    var parts := Split(s, sep);
    assert parts[0] == s;
    assert parts == [parts[0]];
  }

  /** Splitting the join of separator-free pieces gives the pieces back. */
  lemma {:induction false} SplitJoin(parts: seq<string>, sep: char)
    requires |parts| >= 1
    requires forall i :: 0 <= i < |parts| ==> sep !in parts[i]
    ensures Split(Join(parts, sep), sep) == parts
    decreases |parts|
  {
    if |parts| == 1 {
      SplitWithoutSeparator(parts[0], sep);
    } else {
      SplitJoin(parts[1..], sep);
      SplitAppend(parts[0], Join(parts[1..], sep), sep);
      SplitWithoutSeparator(parts[0], sep);
    }
  }

  /** The first two pieces joined back, and how the rest of the string
      follows them. */
  lemma JoinFirstTwo(parts: seq<string>, sep: char)
    requires |parts| >= 2
    ensures Join(parts[..2], sep) == parts[0] + [sep] + parts[1]
    ensures |parts| == 2 ==> Join(parts, sep) == Join(parts[..2], sep)
    ensures |parts| > 2 ==> Join(parts, sep) == Join(parts[..2], sep) + [sep] + Join(parts[2..], sep)
  {
    var two := parts[..2];
    JoinCons(two, sep);
    assert two[1..] == [parts[1]];
    if |parts| > 2 {
      JoinCons(parts, sep);
      JoinCons(parts[1..], sep);
      assert parts[1..][1..] == parts[2..];
    }
  }

  /** One step of `Join`: the first piece, the separator, then the rest. */
  lemma JoinCons(parts: seq<string>, sep: char)
    requires |parts| >= 2
    ensures Join(parts, sep) == parts[0] + [sep] + Join(parts[1..], sep)
  {
  }

  /** `s.lstrip(chars)`: drops the longest prefix made of `chars`. */
  function LStrip(s: string, chars: set<char>): (r: string)
    ensures |r| <= |s| && r == s[|s| - |r|..]
    ensures r == [] || r[0] !in chars
    ensures forall i :: 0 <= i < |s| - |r| ==> s[i] in chars
    decreases |s|
  {
    if |s| > 0 && s[0] in chars then LStrip(s[1..], chars) else s
  }

  /** `s.rstrip(chars)`: drops the longest suffix made of `chars`. */
  function RStrip(s: string, chars: set<char>): (r: string)
    ensures r <= s
    ensures r == [] || r[|r| - 1] !in chars
    ensures forall i :: |r| <= i < |s| ==> s[i] in chars
    decreases |s|
  {
    if |s| > 0 && s[|s| - 1] in chars then RStrip(s[..|s| - 1], chars) else s
  }

  /** `s.strip(chars)`: both ends at once. The result is a slice of `s` that
      neither starts nor ends with one of `chars`. */
  function Strip(s: string, chars: set<char>): (r: string)
    ensures r <= LStrip(s, chars)
    ensures r == [] || (r[0] !in chars && r[|r| - 1] !in chars)
    ensures forall i :: |r| <= i < |LStrip(s, chars)| ==> LStrip(s, chars)[i] in chars
  {
    RStrip(LStrip(s, chars), chars)
  }

  /** Stripping leaves a string alone when neither end is in `chars`. */
  lemma StripUnchanged(s: string, chars: set<char>)
    requires s == [] || (s[0] !in chars && s[|s| - 1] !in chars)
    ensures Strip(s, chars) == s
  {
  }

  /** `c.lower()` for ASCII letters; every other character is kept. */
  function LowerChar(c: char): char {
    if 'A' <= c <= 'Z' then (c as int - 'A' as int + 'a' as int) as char else c
  }

  /** `s.lower()`, character by character. */
  function Lower(s: string): (r: string)
    ensures |r| == |s|
    ensures forall i :: 0 <= i < |s| ==> r[i] == LowerChar(s[i])
  {
    seq(|s|, i requires 0 <= i < |s| => LowerChar(s[i]))
  }

  /** The characters of `s` that `keep` accepts, in order. */
  function Filter(s: string, keep: char -> bool): (r: string)
    ensures |r| <= |s|
    ensures forall i :: 0 <= i < |r| ==> keep(r[i]) && r[i] in s
    ensures (forall i :: 0 <= i < |s| ==> keep(s[i])) ==> r == s
    decreases |s|
  {
    if |s| == 0 then ""
    else if keep(s[0]) then [s[0]] + Filter(s[1..], keep)
    else Filter(s[1..], keep)
  }

  /** A non-empty string is its first character followed by the rest. */
  lemma HeadTail(w: string, x: string)
    requires |w| > 0
    ensures [w[0]] + w[1..] == w
    ensures [w[0]] + (w[1..] + x) == w + x
  {
    assert w == [w[0]] + w[1..];
  }

  /** Concatenation is associative. */
  lemma Assoc(x: string, y: string, z: string)
    ensures x + (y + z) == (x + y) + z
  {
  }

  /** Filtering one character in front: it is kept exactly when it passes. */
  lemma FilterCons(c: char, t: string, keep: char -> bool)
    ensures Filter([c] + t, keep) == (if keep(c) then [c] else []) + Filter(t, keep)
  {
    assert ([c] + t)[1..] == t;
  }

  /** Filtering distributes over concatenation: the characters that pass are
      kept in their input order. With `FilterCons` this pins `Filter` down
      completely. */
  lemma {:induction false} FilterAppend(a: string, b: string, keep: char -> bool)
    ensures Filter(a + b, keep) == Filter(a, keep) + Filter(b, keep)
    decreases |a|
  {
    if |a| == 0 {
      assert a + b == b;
    } else {
      FilterAppend(a[1..], b, keep);
      FilterAppendStep(a, b, keep);
    }
  }

  /** The inductive step of `FilterAppend`. */
  lemma FilterAppendStep(a: string, b: string, keep: char -> bool)
    requires |a| > 0
    requires Filter(a[1..] + b, keep) == Filter(a[1..], keep) + Filter(b, keep)
    ensures Filter(a + b, keep) == Filter(a, keep) + Filter(b, keep)
  {
    var c, a' := a[0], a[1..];
    var head: string := if keep(c) then [c] else [];
    HeadTail(a, b);
    FilterCons(c, a' + b, keep);
    FilterCons(c, a', keep);
    Assoc(head, Filter(a', keep), Filter(b, keep));
  }

  /** Nothing is left when no character passes. */
  lemma {:induction false} FilterNone(s: string, keep: char -> bool)
    requires forall i :: 0 <= i < |s| ==> !keep(s[i])
    ensures Filter(s, keep) == ""
    decreases |s|
  {
    if |s| > 0 {
      FilterNone(s[1..], keep);
    }
  }

  /** Filtering twice is filtering once by both tests. */
  lemma {:induction false} FilterBoth(s: string, p: char -> bool, q: char -> bool, both: char -> bool)
    requires forall c :: both(c) == (p(c) && q(c))
    ensures Filter(Filter(s, p), q) == Filter(s, both)
    decreases |s|
  {
    if |s| > 0 {
      var c, t := s[0], s[1..];
      FilterBoth(t, p, q, both);
      if p(c) {
        FilterCons(c, Filter(t, p), q);
      }
    }
  }

  /** `lstrip` removes exactly a leading run of `chars` that is followed by
      the end or by a character outside `chars`. */
  lemma {:induction false} LStripPrefix(run: string, t: string, chars: set<char>)
    requires forall i :: 0 <= i < |run| ==> run[i] in chars
    requires t == [] || t[0] !in chars
    ensures LStrip(run + t, chars) == t
    decreases |run|
  {
    if |run| == 0 {
      assert run + t == t;
    } else {
      assert (run + t)[1..] == run[1..] + t;
      LStripPrefix(run[1..], t, chars);
    }
  }

  /** Characters that fail the test can be dropped from the front. */
  lemma FilterDropsFront(a: string, r: string, keep: char -> bool)
    requires forall i :: 0 <= i < |a| ==> !keep(a[i])
    ensures Filter(a + r, keep) == Filter(r, keep)
  {
    FilterNone(a, keep);
    FilterAppend(a, r, keep);
  }

  /** Characters that fail the test can be dropped from both ends. */
  lemma FilterDropsEnds(a: string, r: string, b: string, keep: char -> bool)
    requires forall i :: 0 <= i < |a| ==> !keep(a[i])
    requires forall i :: 0 <= i < |b| ==> !keep(b[i])
    ensures Filter(a + (r + b), keep) == Filter(r, keep)
  {
    FilterNone(b, keep);
    FilterAppend(r, b, keep);
    FilterDropsFront(a, r + b, keep);
  }

  /** What `lstrip` drops: a prefix made of `chars`. */
  lemma LStripParts(s: string, chars: set<char>) returns (a: string)
    ensures s == a + LStrip(s, chars)
    ensures forall i :: 0 <= i < |a| ==> a[i] in chars
  {
    var left := LStrip(s, chars);
    a := s[..|s| - |left|];
    assert s == a + left by {
      assert left == s[|s| - |left|..];
    }
    forall i | 0 <= i < |a| ensures a[i] in chars {
      assert a[i] == s[i];
    }
  }

  /** A prefix `r` of `left` followed only by characters of `chars` leaves a
      tail made of `chars`. */
  lemma PrefixTail(left: string, r: string, chars: set<char>) returns (b: string)
    requires r <= left
    requires forall i :: |r| <= i < |left| ==> left[i] in chars
    ensures left == r + b
    ensures forall i :: 0 <= i < |b| ==> b[i] in chars
  {
    b := left[|r|..];
    forall i | 0 <= i < |b| ensures b[i] in chars {
      assert b[i] == left[|r| + i];
    }
  }

  /** What `strip` drops: a prefix and a suffix made of `chars`, so the result
      is a slice of `s`. */
  lemma StripParts(s: string, chars: set<char>) returns (a: string, b: string)
    ensures s == a + (Strip(s, chars) + b)
    ensures forall i :: 0 <= i < |a| ==> a[i] in chars
    ensures forall i :: 0 <= i < |b| ==> b[i] in chars
  {
    a := LStripParts(s, chars);
    b := PrefixTail(LStrip(s, chars), Strip(s, chars), chars);
  }

  /** Stripping characters that all fail a test leaves the characters that
      pass it untouched. */
  lemma StripKeeps(s: string, chars: set<char>, keep: char -> bool)
    requires forall c :: c in chars ==> !keep(c)
    ensures Filter(Strip(s, chars), keep) == Filter(s, keep)
  {
    var a, b := StripParts(s, chars);
    FilterDropsEnds(a, Strip(s, chars), b, keep);
  }
}
