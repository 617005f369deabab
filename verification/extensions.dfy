/**
 The template extension (extensions.py): the `format_python_version` and
 `slugify` filters and the `git_username` default. The git lookups and the
 registration with the template engine are environment glue and are not
 part of this module.
 */
module Extensions {
  import opened Wrappers
  import opened PyStr

  // ---------------------------------------------------------------------
  // format_python_version
  // ---------------------------------------------------------------------

  /** The short version used when the first clause holds no digit. */
  const DefaultShortVersion: string := "3.11"

  /** `version.split(",")[0]`: the text before the first comma. */
  function FirstClause(version: string): (clause: string)
    ensures ',' !in clause
    ensures clause <= version
    ensures |clause| < |version| ==> version[|clause|] == ','
  {
    Split(version, ',')[0]
  }

  /** The index the `enumerate` loop stops at: the position of the first digit. */
  function FirstDigit(s: string): (r: Option<nat>)
    ensures r.Some? ==> r.value < |s| && IsDigit(s[r.value])
    ensures r.Some? ==> forall j :: 0 <= j < r.value ==> !IsDigit(s[j])
    ensures r.None? ==> forall j :: 0 <= j < |s| ==> !IsDigit(s[j])
    decreases |s|
  {
    if |s| == 0 then None
    else if IsDigit(s[0]) then Some(0)
    else
      match FirstDigit(s[1..])
      case None => None
      case Some(i) => Some(i + 1)
  }

  /** The number of '.' characters in `s`. */
  function Dots(s: string): nat {
    multiset(s)['.']
  }

  /** `'.'.join(parts[:2]) if len(parts) > 1 else parts[0]` with
      `parts = short.split(".")`: the prefix of `short` that stops just before
      its second dot. It holds at most one dot, and it is all of `short` when
      `short` has no second dot. */
  function MajorMinor(short: string): (r: string)
    ensures r <= short
    ensures Dots(r) <= 1
    ensures |r| < |short| ==> short[|r|] == '.' && Dots(r) == 1
    ensures Dots(short) <= 1 ==> r == short
  {
    var parts := Split(short, '.');
    JoinSplit(short, '.');
    if |parts| > 1 then
      JoinFirstTwo(parts, '.');
      CutAtSecondDot(short, parts[0], parts[1]);
      Join(parts[..2], '.')
    else
      parts[0]
  }

  /** The facts `MajorMinor` needs about a string that starts with two
      dot-free pieces separated by a dot. */
  lemma CutAtSecondDot(short: string, p0: string, p1: string)
    requires '.' !in p0 && '.' !in p1
    requires p0 + ['.'] + p1 <= short
    requires |p0 + ['.'] + p1| < |short| ==> short[|p0 + ['.'] + p1|] == '.'
    ensures Dots(p0 + ['.'] + p1) == 1
    ensures Dots(short) <= 1 ==> p0 + ['.'] + p1 == short
  {
    var r := p0 + ['.'] + p1;
    assert multiset(r) == multiset(p0) + multiset{'.'} + multiset(p1);
    if |r| < |short| {
      var tail := short[|r|..];
      assert short == r + tail;
      assert multiset(short) == multiset(r) + multiset(tail);
      assert tail == [tail[0]] + tail[1..];
      assert multiset(tail)['.'] >= 1;
    }
  }

  /** The version base of a first clause: from its first digit onwards, cut
      before the second dot, or the fixed default when it has no digit. */
  function VersionBase(clause: string): (base: string)
    ensures FirstDigit(clause).None? ==> base == DefaultShortVersion
    ensures FirstDigit(clause).Some? ==>
      var tail := clause[FirstDigit(clause).value..];
      && base <= tail
      && Dots(base) <= 1
      && (|base| < |tail| ==> tail[|base|] == '.' && Dots(base) == 1)
  {
    match FirstDigit(clause)
    case None =>
      assert Dots(DefaultShortVersion) == 1;
      MajorMinor(DefaultShortVersion)
    case Some(i) => MajorMinor(clause[i..])
  }

  /** `format_python_version`: the base of the first clause, followed by one
      '+' exactly when that clause contains '>'. */
  function FormatPythonVersion(version: string): (r: string)
    ensures VersionBase(FirstClause(version)) <= r
    ensures |r| == |VersionBase(FirstClause(version))| + 1 <==> '>' in FirstClause(version)
    ensures |r| == |VersionBase(FirstClause(version))| + 1 || r == VersionBase(FirstClause(version))
    ensures '>' in FirstClause(version) ==> r[|r| - 1] == '+'
  {
    var clause := FirstClause(version);
    VersionBase(clause) + (if '>' in clause then "+" else "")
  }

  /** Everything after the first comma is ignored. */
  lemma FormatIgnoresLaterClauses(clause: string, rest: string)
    requires ',' !in clause
    ensures FormatPythonVersion(clause + [','] + rest) == FormatPythonVersion(clause)
  {
    SplitAppend(clause, rest, ',');
    SplitWithoutSeparator(clause, ',');
  }

  /** A comma-free specifier is its own first clause. */
  lemma CommaFreeClause(v: string)
    requires ',' !in v
    ensures FirstClause(v) == v
  {
    SplitWithoutSeparator(v, ',');
  }

  /** When the text from the first digit on has at most one dot, it is the
      whole base. */
  lemma BaseOfShortVersion(clause: string, i: nat)
    requires FirstDigit(clause) == Some(i)
    requires Dots(clause[i..]) <= 1
    ensures VersionBase(clause) == clause[i..]
  {
  }

  /** The first digit is at `i` when `s[i]` is a digit and nothing before it
      is. */
  lemma FirstDigitAt(s: string, i: nat)
    requires i < |s| && IsDigit(s[i])
    requires forall j :: 0 <= j < i ==> !IsDigit(s[j])
    ensures FirstDigit(s) == Some(i)
  {
  }

  /** A string with exactly one '.' has one dot. */
  lemma OneDot(s: string, k: nat)
    requires k < |s| && s[k] == '.'
    requires forall j :: 0 <= j < |s| && j != k ==> s[j] != '.'
    ensures Dots(s) == 1
  {
    assert s == s[..k] + [s[k]] + s[k + 1..];
    assert '.' !in s[..k] && '.' !in s[k + 1..];
  }

  /** The result for a first clause with a '>' whose base is known. */
  lemma FormatWithLowerBound(v: string, base: string)
    requires ',' !in v && '>' in v
    requires VersionBase(v) == base
    ensures FormatPythonVersion(v) == base + "+"
  {
    CommaFreeClause(v);
  }

  /** The base of `>=3.9`. */
  lemma LowerBoundBase(v: string)
    requires v == ">=3.9"
    ensures VersionBase(v) == "3.9"
  {
    FirstDigitAt(v, 2);
    OneDot(v[2..], 1);
    BaseOfShortVersion(v, 2);
    assert v[2..] == "3.9";
  }

  /** `>=3.9` is one clause, with a '>'. */
  lemma LowerBoundClause(v: string)
    requires v == ">=3.9"
    ensures ',' !in v && '>' in v
  {
    assert v[0] == '>';
  }

  /** The documented examples. A lower bound gains a '+', ... */
  lemma FormatExampleLowerBound(v: string)
    requires v == ">=3.9"
    ensures FormatPythonVersion(v) == "3.9+"
  {
    LowerBoundClause(v);
    LowerBoundBase(v);
    FormatWithLowerBound(v, "3.9");
  }

  /** ... and keeps it when an upper bound follows, ... */
  lemma FormatExampleRange(v: string)
    requires v == ">=3.9,<3.13"
    ensures FormatPythonVersion(v) == "3.9+"
  {
    var clause, rest := v[..5], v[6..];
    assert v == clause + [','] + rest;
    assert clause == ">=3.9";
    LowerBoundClause(clause);
    FormatIgnoresLaterClauses(clause, rest);
    FormatExampleLowerBound(clause);
  }

  /** The base of `>3.11`. */
  lemma StrictBase(v: string)
    requires v == ">3.11"
    ensures VersionBase(v) == "3.11"
  {
    FirstDigitAt(v, 1);
    OneDot(v[1..], 1);
    BaseOfShortVersion(v, 1);
    assert v[1..] == "3.11";
  }

  /** `>3.11` is one clause, with a '>'. */
  lemma StrictClause(v: string)
    requires v == ">3.11"
    ensures ',' !in v && '>' in v
  {
    assert v[0] == '>';
  }

  /** ... a strict lower bound keeps both components and gains a '+', ... */
  lemma FormatExampleStrict(v: string)
    requires v == ">3.11"
    ensures FormatPythonVersion(v) == "3.11+"
  {
    StrictClause(v);
    StrictBase(v);
    FormatWithLowerBound(v, "3.11");
  }

  /** ... and a clause without digits falls back to the default. */
  lemma FormatExampleNoDigit(v: string)
    requires v == "abc"
    ensures FormatPythonVersion(v) == "3.11"
  {
    assert forall j :: 0 <= j < |v| ==> !IsDigit(v[j]) && v[j] != '>' && v[j] != ',';
    CommaFreeClause(v);
    assert VersionBase(v) == DefaultShortVersion;
  }

  // ---------------------------------------------------------------------
  // slugify
  // ---------------------------------------------------------------------

  /** What survives `.encode("ascii", "ignore")`. */
  predicate IsAscii(c: char) {
    c as int < 128
  }

  /** `\w` on an ASCII character: a letter, a digit or '_'. */
  predicate IsAsciiWordChar(c: char) {
    'a' <= c <= 'z' || 'A' <= c <= 'Z' || '0' <= c <= '9' || c == '_'
  }

  /** The characters `[^\w\s-]` does not remove. */
  predicate IsKept(c: char) {
    IsAsciiWordChar(c) || c in Whitespace || c == '-'
  }

  /** The characters of the class `[-_\s]`, whose runs become one separator. */
  const RunChars: set<char> := {'-', '_'} + Whitespace

  /** `re.sub(r"[-_\s]+", sep, s)`: every maximal run of run characters is
      replaced by `sep`; every other character is kept in place. */
  function CollapseRuns(s: string, sep: string): (r: string)
    ensures |s| == 0 ==> r == ""
    ensures |s| > 0 && s[0] !in RunChars ==> |r| > 0 && r[0] == s[0]
    ensures forall i :: 0 <= i < |r| ==> (r[i] in s && r[i] !in RunChars) || r[i] in sep
    decreases |s|
  {
    if |s| == 0 then ""
    else if s[0] in RunChars then
      var rest := LStrip(s, RunChars);
      assert |rest| < |s|;
      sep + CollapseRuns(rest, sep)
    else
      [s[0]] + CollapseRuns(s[1..], sep)
  }

  /** The alphabet of a slug made with the default separator. */
  predicate IsSlugChar(c: char) {
    'a' <= c <= 'z' || '0' <= c <= '9' || c == '-'
  }

  /** No two adjacent '-'. */
  predicate NoDoubleDash(s: string) {
    forall i :: 0 < i < |s| ==> !(s[i - 1] == '-' && s[i] == '-')
  }

  /** What `slugify(x)` promises with the default separator: lower-case
      letters, digits and single '-' between them, with no '-' at either end. */
  predicate IsSlug(s: string) {
    && (forall i :: 0 <= i < |s| ==> IsSlugChar(s[i]))
    && NoDoubleDash(s)
    && (s == [] || (s[0] != '-' && s[|s| - 1] != '-'))
  }

  /** `slugify(value, separator)` applied to the NFKD form `nfkd` of the value:
      drop non-ASCII, lower-case, drop what is not a word character, space or
      '-', collapse runs of '-', '_' and spaces into the separator, and strip
      '-' and '_' from both ends. With the default separator the result is a
      slug. */
  function Slugify(nfkd: string, separator: string): (r: string)
    ensures separator == "-" ==> IsSlug(r)
  {
    var ascii := Filter(nfkd, IsAscii);
    var cleaned := Filter(Lower(ascii), IsKept);
    var collapsed := CollapseRuns(cleaned, separator);
    if separator == "-" then
      CleanedAlphabet(ascii, cleaned);
      CollapsedIsDashSeparated(cleaned);
      StrippedSlug(collapsed);
      Strip(collapsed, {'-', '_'})
    else
      Strip(collapsed, {'-', '_'})
  }

  /** After lowering and filtering, every character is a lower-case letter, a
      digit, or a run character. */
  lemma CleanedAlphabet(ascii: string, cleaned: string)
    requires forall i :: 0 <= i < |ascii| ==> IsAscii(ascii[i])
    requires cleaned == Filter(Lower(ascii), IsKept)
    ensures forall i :: 0 <= i < |cleaned| ==> cleaned[i] in RunChars || ('a' <= cleaned[i] <= 'z' || '0' <= cleaned[i] <= '9')
  {
    var lowered := Lower(ascii);
    forall i | 0 <= i < |cleaned|
      ensures cleaned[i] in RunChars || ('a' <= cleaned[i] <= 'z' || '0' <= cleaned[i] <= '9')
    {
      var j :| 0 <= j < |lowered| && lowered[j] == cleaned[i];
      LoweredKept(ascii[j]);
    }
  }

  /** An ASCII character that survives lowering and `[^\w\s-]` is a
      lower-case letter, a digit or a run character. */
  lemma LoweredKept(c: char)
    requires IsAscii(c) && IsKept(LowerChar(c))
    ensures LowerChar(c) in RunChars || ('a' <= LowerChar(c) <= 'z' || '0' <= LowerChar(c) <= '9')
  {
  }

  /** Putting `c` in front keeps a string free of double dashes unless it
      makes a new pair. */
  lemma NoDoubleDashCons(c: char, t: string)
    requires NoDoubleDash(t)
    requires c != '-' || t == [] || t[0] != '-'
    ensures NoDoubleDash([c] + t)
  {
    var s := [c] + t;
    forall i | 0 < i < |s| ensures !(s[i - 1] == '-' && s[i] == '-') {
      if i > 1 {
        assert s[i - 1] == t[i - 2] && s[i] == t[i - 1];
      }
    }
  }

  /** A slice of a string free of double dashes is free of them too. */
  lemma NoDoubleDashSlice(s: string, lo: nat, hi: nat)
    requires lo <= hi <= |s|
    requires NoDoubleDash(s)
    ensures NoDoubleDash(s[lo..hi])
  {
    var r := s[lo..hi];
    forall i | 0 < i < |r| ensures !(r[i - 1] == '-' && r[i] == '-') {
      assert r[i - 1] == s[lo + i - 1] && r[i] == s[lo + i];
    }
  }

  /** `lstrip` of run characters from a string that starts with one is
      strictly shorter and starts with an ordinary character, if anything. */
  lemma LStripRun(s: string)
    requires |s| > 0 && s[0] in RunChars
    ensures |LStrip(s, RunChars)| < |s|
  {
  }

  /** Collapsing with "-" never leaves two '-' in a row. */
  lemma {:induction false} CollapsedNoDoubleDash(s: string)
    ensures NoDoubleDash(CollapseRuns(s, "-"))
    decreases |s|
  {
    if |s| > 0 {
      if s[0] in RunChars {
        var rest := LStrip(s, RunChars);
        LStripRun(s);
        CollapsedNoDoubleDash(rest);
        NoDoubleDashCons('-', CollapseRuns(rest, "-"));
      } else {
        CollapsedNoDoubleDash(s[1..]);
        NoDoubleDashCons(s[0], CollapseRuns(s[1..], "-"));
      }
    }
  }

  /** Collapsing with "-" leaves only slug characters and never two '-' in a
      row. */
  lemma CollapsedIsDashSeparated(s: string)
    requires forall i :: 0 <= i < |s| ==> s[i] in RunChars || ('a' <= s[i] <= 'z' || '0' <= s[i] <= '9')
    ensures forall i :: 0 <= i < |CollapseRuns(s, "-")| ==> IsSlugChar(CollapseRuns(s, "-")[i])
    ensures NoDoubleDash(CollapseRuns(s, "-"))
  {
    CollapsedNoDoubleDash(s);
    var r := CollapseRuns(s, "-");
    forall i | 0 <= i < |r| ensures IsSlugChar(r[i]) {
      if r[i] != '-' {
        var j :| 0 <= j < |s| && s[j] == r[i];
      }
    }
  }

  /** The middle of such a string, between two pieces, that neither starts
      nor ends with '-' or '_' is a slug. */
  lemma SliceIsSlug(s: string, a: string, r: string, b: string)
    requires forall i :: 0 <= i < |s| ==> IsSlugChar(s[i])
    requires NoDoubleDash(s)
    requires s == a + (r + b)
    requires r == [] || (r[0] !in {'-', '_'} && r[|r| - 1] !in {'-', '_'})
    ensures IsSlug(r)
  {
    var k := |a|;
    assert r == s[k..k + |r|];
    NoDoubleDashSlice(s, k, k + |r|);
    forall i | 0 <= i < |r| ensures IsSlugChar(r[i]) {
      assert r[i] == s[k + i];
    }
  }

  /** Stripping '-' and '_' from a string of slug characters without a double
      dash gives a slug. */
  lemma StrippedSlug(s: string)
    requires forall i :: 0 <= i < |s| ==> IsSlugChar(s[i])
    requires NoDoubleDash(s)
    ensures IsSlug(Strip(s, {'-', '_'}))
  {
    var a, b := StripParts(s, {'-', '_'});
    SliceIsSlug(s, a, Strip(s, {'-', '_'}), b);
  }

  /** A slug is a fixed point of `slugify`. */
  lemma SlugIsFixedPoint(s: string)
    requires IsSlug(s)
    ensures Slugify(s, "-") == s
  {
    var ascii := Filter(s, IsAscii);
    assert ascii == s by {
      assert forall i :: 0 <= i < |s| ==> IsAscii(s[i]);
    }
    var lowered := Lower(ascii);
    assert lowered == s by {
      assert forall i :: 0 <= i < |s| ==> LowerChar(s[i]) == s[i];
    }
    var cleaned := Filter(lowered, IsKept);
    assert cleaned == s by {
      assert forall i :: 0 <= i < |s| ==> IsKept(s[i]);
    }
    CollapseSlugUnchanged(s);
    StripUnchanged(s, {'-', '_'});
  }

  /** The rest of a dash-separated string of slug characters is one too. */
  lemma SlugCharsTail(s: string)
    requires |s| > 0
    requires forall i :: 0 <= i < |s| ==> IsSlugChar(s[i])
    requires NoDoubleDash(s)
    ensures forall i :: 0 <= i < |s[1..]| ==> IsSlugChar(s[1..][i])
    ensures NoDoubleDash(s[1..])
  {
    NoDoubleDashSlice(s, 1, |s|);
  }

  /** A '-' followed by an ordinary character or nothing is a run of its own. */
  lemma SingleDashRun(s: string)
    requires |s| > 0 && s[0] == '-'
    requires |s| == 1 || s[1] !in RunChars
    ensures LStrip(s, RunChars) == s[1..]
  {
  }

  /** Among slug characters only '-' is a run character. */
  lemma SlugCharRun(c: char)
    requires IsSlugChar(c)
    ensures c in RunChars <==> c == '-'
  {
  }

  /** Collapsing leaves a string of slug characters without double dashes
      unchanged: each '-' is a run of its own. */
  lemma {:induction false} CollapseSlugUnchanged(s: string)
    requires forall i :: 0 <= i < |s| ==> IsSlugChar(s[i])
    requires NoDoubleDash(s)
    ensures CollapseRuns(s, "-") == s
    decreases |s|
  {
    if |s| > 0 {
      SlugCharsTail(s);
      CollapseSlugUnchanged(s[1..]);
      SlugCharRun(s[0]);
      if s[0] == '-' {
        if |s| > 1 {
          SlugCharRun(s[1]);
        }
        SingleDashRun(s);
      }
      assert s == [s[0]] + s[1..];
    }
  }

  /** `slugify` is idempotent with the default separator. */
  lemma SlugifyIdempotent(nfkd: string)
    ensures Slugify(Slugify(nfkd, "-"), "-") == Slugify(nfkd, "-")
  {
    SlugIsFixedPoint(Slugify(nfkd, "-"));
  }

  // ---------------------------------------------------------------------
  // What slugify keeps
  // ---------------------------------------------------------------------

  /** A character that is not a run character: the content of a slug. */
  predicate NotRun(c: char) {
    c !in RunChars
  }

  /** An ASCII letter of either case or an ASCII digit. */
  predicate IsAsciiAlnum(c: char) {
    'a' <= c <= 'z' || 'A' <= c <= 'Z' || '0' <= c <= '9'
  }

  /** A word of non-run characters is copied through by the collapse. */
  lemma {:induction false} CollapseRunsWord(w: string, t: string, sep: string)
    requires forall i :: 0 <= i < |w| ==> w[i] !in RunChars
    ensures CollapseRuns(w + t, sep) == w + CollapseRuns(t, sep)
    decreases |w|
  {
    if |w| == 0 {
      assert w + t == t;
    } else {
      CollapseRunsWord(w[1..], t, sep);
      CollapseRunsWordStep(w, t, sep);
    }
  }

  /** The inductive step of `CollapseRunsWord`. */
  lemma CollapseRunsWordStep(w: string, t: string, sep: string)
    requires |w| > 0 && w[0] !in RunChars
    requires CollapseRuns(w[1..] + t, sep) == w[1..] + CollapseRuns(t, sep)
    ensures CollapseRuns(w + t, sep) == w + CollapseRuns(t, sep)
  {
    CollapseRunsCons(w[0], w[1..] + t, sep);
    HeadTail(w, t);
    HeadTail(w, CollapseRuns(t, sep));
  }

  /** One step of the collapse: a non-run character is copied. */
  lemma CollapseRunsCons(c: char, x: string, sep: string)
    requires c !in RunChars
    ensures CollapseRuns([c] + x, sep) == [c] + CollapseRuns(x, sep)
  {
    assert ([c] + x)[1..] == x;
  }

  /** A maximal run of run characters becomes exactly one separator. With
      `CollapseRunsWord` this pins the collapse down on every string, since
      every string is words and maximal runs in turn. */
  lemma CollapseRunsRun(run: string, t: string, sep: string)
    requires |run| > 0 && forall i :: 0 <= i < |run| ==> run[i] in RunChars
    requires t == [] || t[0] !in RunChars
    ensures CollapseRuns(run + t, sep) == sep + CollapseRuns(t, sep)
  {
    LStripPrefix(run, t, RunChars);
    assert (run + t)[0] == run[0];
  }

  /** The run branch of `CollapseKeepsWords`: the leading run and the
      separator that replaces it are both dropped by the filter. */
  lemma CollapseKeepsRunStep(s: string, sep: string)
    requires |s| > 0 && s[0] in RunChars
    requires forall i :: 0 <= i < |sep| ==> sep[i] in RunChars
    requires var rest := LStrip(s, RunChars);
      Filter(CollapseRuns(rest, sep), NotRun) == Filter(rest, NotRun)
    ensures Filter(CollapseRuns(s, sep), NotRun) == Filter(s, NotRun)
  {
    var rest := LStrip(s, RunChars);
    var a := LStripParts(s, RunChars);
    FilterDropsFront(a, rest, NotRun);
    FilterDropsFront(sep, CollapseRuns(rest, sep), NotRun);
  }

  /** The word branch of `CollapseKeepsWords`: a non-run character is kept on
      both sides. */
  lemma CollapseKeepsCharStep(s: string, sep: string)
    requires |s| > 0 && s[0] !in RunChars
    requires Filter(CollapseRuns(s[1..], sep), NotRun) == Filter(s[1..], NotRun)
    ensures Filter(CollapseRuns(s, sep), NotRun) == Filter(s, NotRun)
  {
    FilterCons(s[0], CollapseRuns(s[1..], sep), NotRun);
    FilterCons(s[0], s[1..], NotRun);
    assert s == [s[0]] + s[1..];
  }

  /** The collapse keeps the non-run characters of its input, all of them and
      in order, when the separator is made of run characters. */
  lemma {:induction false} CollapseKeepsWords(s: string, sep: string)
    requires forall i :: 0 <= i < |sep| ==> sep[i] in RunChars
    ensures Filter(CollapseRuns(s, sep), NotRun) == Filter(s, NotRun)
    decreases |s|
  {
    if |s| > 0 {
      if s[0] in RunChars {
        LStripRun(s);
        CollapseKeepsWords(LStrip(s, RunChars), sep);
        CollapseKeepsRunStep(s, sep);
      } else {
        CollapseKeepsWords(s[1..], sep);
        CollapseKeepsCharStep(s, sep);
      }
    }
  }

  /** The content characters that survive `[^\w\s-]` are the ASCII letters and
      digits. */
  lemma KeptContent(c: char)
    ensures IsAsciiAlnum(c) == (IsKept(c) && NotRun(c))
  {
  }

  /** What a slug says: its letters and digits are exactly the lower-cased
      ASCII letters and digits of the input, all of them and in order; only
      the separators between them are added or dropped. */
  lemma SlugifyKeepsContent(nfkd: string, separator: string)
    requires forall i :: 0 <= i < |separator| ==> separator[i] in RunChars
    ensures Filter(Slugify(nfkd, separator), NotRun) == Filter(Lower(Filter(nfkd, IsAscii)), IsAsciiAlnum)
  {
    var lowered := Lower(Filter(nfkd, IsAscii));
    var cleaned := Filter(lowered, IsKept);
    var collapsed := CollapseRuns(cleaned, separator);
    assert Slugify(nfkd, separator) == Strip(collapsed, {'-', '_'});
    StripKeeps(collapsed, {'-', '_'}, NotRun);
    CollapseKeepsWords(cleaned, separator);
    forall c ensures IsAsciiAlnum(c) == (IsKept(c) && NotRun(c)) {
      KeptContent(c);
    }
    FilterBoth(lowered, IsKept, NotRun, IsAsciiAlnum);
  }

  /** ASCII letters and digits are not run characters. */
  lemma AlnumWord(w: string)
    requires forall i :: 0 <= i < |w| ==> IsAsciiAlnum(w[i])
    ensures forall i :: 0 <= i < |w| ==> w[i] !in RunChars
  {
    forall i | 0 <= i < |w| ensures w[i] !in RunChars {
      KeptContent(w[i]);
    }
  }

  /** ASCII letters, digits and whitespace all survive `[^\w\s-]`. */
  lemma KeptWord(w: string)
    requires forall i :: 0 <= i < |w| ==> IsAsciiAlnum(w[i]) || w[i] == ' '
    ensures Filter(w, IsKept) == w
  {
    assert forall i :: 0 <= i < |w| ==> IsKept(w[i]);
  }

  /** The punctuation of the example is removed. */
  lemma PunctuationDropped(p: string)
    requires p == "," || p == "!"
    ensures forall i :: 0 <= i < |p| ==> !IsKept(p[i])
  {
  }

  /** The example of the slugify filter, `"Hello, World!"` to
      `"hello-world"`, step by step: nothing is non-ASCII, ... */
  lemma HelloAscii(v: string)
    requires v == "Hello, World!"
    ensures Filter(v, IsAscii) == v
  {
  }

  /** ... lowering touches the two capitals, ... */
  lemma HelloLower(v: string)
    requires v == "Hello, World!"
    ensures Lower(v) == "hello, world!"
  {
  }

  /** ... the comma and the '!' are removed, ... */
  lemma HelloKept(v: string)
    requires v == "hello, world!"
    ensures Filter(v, IsKept) == "hello world"
  {
    var a, b, c, d := "hello", ",", " world", "!";
    HelloPieces(v, a, b, c, d);
    HelloWordsKept(a, c);
    PunctuationDropped(b);
    PunctuationDropped(d);
    FilterTwoWords(a, b, c, d, IsKept);
  }

  /** The example cut at its punctuation. */
  lemma HelloPieces(v: string, a: string, b: string, c: string, d: string)
    requires v == "hello, world!"
    requires a == "hello" && b == "," && c == " world" && d == "!"
    ensures v == a + (b + (c + d)) && a + c == "hello world"
  {
  }

  /** The two words of the example, the second with its leading space. */
  lemma HelloWordsKept(a: string, c: string)
    requires a == "hello" && c == " world"
    ensures Filter(a, IsKept) == a && Filter(c, IsKept) == c
  {
    assert forall i :: 0 <= i < |a| ==> IsAsciiAlnum(a[i]);
    KeptWord(a);
    assert c[0] == ' ' && forall i :: 1 <= i < |c| ==> IsAsciiAlnum(c[i]);
    KeptWord(c);
  }

  /** Two kept words, each followed by dropped characters, filter to the two
      words. */
  lemma FilterTwoWords(a: string, b: string, c: string, d: string, keep: char -> bool)
    requires Filter(a, keep) == a && Filter(c, keep) == c
    requires forall i :: 0 <= i < |b| ==> !keep(b[i])
    requires forall i :: 0 <= i < |d| ==> !keep(d[i])
    ensures Filter(a + (b + (c + d)), keep) == a + c
  {
    FilterDropsFront(b, c + d, keep);
    FilterNone(d, keep);
    FilterAppend(c, d, keep);
    FilterAppend(a, b + (c + d), keep);
  }

  /** Two words around one run collapse to the words around one separator. */
  lemma CollapseTwoWords(a: string, b: string, c: string, sep: string)
    requires forall i :: 0 <= i < |a| ==> a[i] !in RunChars
    requires |b| > 0 && forall i :: 0 <= i < |b| ==> b[i] in RunChars
    requires forall i :: 0 <= i < |c| ==> c[i] !in RunChars
    ensures CollapseRuns(a + (b + c), sep) == a + (sep + c)
  {
    CollapseRunsWord(c, "", sep);
    assert c + "" == c;
    CollapseRunsRun(b, c, sep);
    CollapseRunsWord(a, b + c, sep);
  }

  /** ... the space becomes the separator, ... */
  lemma HelloCollapse(v: string)
    requires v == "hello world"
    ensures CollapseRuns(v, "-") == "hello-world"
  {
    var a, b, c := "hello", " ", "world";
    assert v == a + (b + c);
    assert "hello-world" == a + ("-" + c);
    assert forall i :: 0 <= i < |a| ==> IsAsciiAlnum(a[i]);
    assert forall i :: 0 <= i < |c| ==> IsAsciiAlnum(c[i]);
    AlnumWord(a);
    AlnumWord(c);
    assert b[0] in RunChars;
    CollapseTwoWords(a, b, c, "-");
  }

  /** The steps of `Slugify` before the final strip, on the example. */
  lemma HelloCollapsed(v: string)
    requires v == "Hello, World!"
    ensures CollapseRuns(Filter(Lower(Filter(v, IsAscii)), IsKept), "-") == "hello-world"
  {
    HelloAscii(v);
    HelloLower(v);
    HelloKept("hello, world!");
    HelloCollapse("hello world");
  }

  /** ... and the strip finds nothing to remove. */
  lemma SlugifyExampleHello(v: string)
    requires v == "Hello, World!"
    ensures Slugify(v, "-") == "hello-world"
  {
    HelloCollapsed(v);
    HelloStripped("hello-world");
  }

  /** The collapsed example has no '-' or '_' at its ends. */
  lemma HelloStripped(s: string)
    requires s == "hello-world"
    ensures Strip(s, {'-', '_'}) == s
  {
    assert s[0] == 'h' && s[|s| - 1] == 'd';
    StripUnchanged(s, {'-', '_'});
  }

  // ---------------------------------------------------------------------
  // git_username
  // ---------------------------------------------------------------------

  /** `email.split('@')[0]`: the text before the first '@', all of the email
      when it has none, and empty for an empty email. */
  function GitUsername(email: string): (name: string)
    ensures '@' !in name
    ensures name <= email
    ensures |name| < |email| ==> email[|name|] == '@'
    ensures '@' !in email ==> name == email
    ensures email == "" ==> name == ""
  {
    Split(email, '@')[0]
  }
}
