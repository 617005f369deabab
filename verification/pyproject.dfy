/**
 `parse_pyproject_toml` (setup_github.py): the best-effort reader of
 `key = "value"` lines from pyproject.toml. The file is given as the list of
 its lines (`fd.readlines()`); a missing file is None.
 */
module Pyproject {
  import opened Wrappers
  import opened PyStr

  /** The result before any line is read, and what a missing file gives. */
  const Defaults: map<string, string> :=
    map["description" := "Description of your repository", "license" := "MIT"]

  /** `f"{key} = " in line` */
  predicate Mentions(line: string, key: string) {
    Contains(line, key + " = ")
  }

  /** `line` holds `"v"` with its opening quote at index `i`. */
  predicate QuotedAt(line: string, i: int, v: string) {
    && 0 <= i
    && i + |v| + 2 <= |line|
    && line[i] == '"'
    && line[i + 1..i + 1 + |v|] == v
    && line[i + 1 + |v|] == '"'
  }

  /** `re.findall('"([^"]*)"', line)[0]`: the text between the first two
      double quotes of the line. None stands for the empty match list, whose
      `[0]` raises IndexError; that happens exactly when the line has fewer
      than two double quotes. */
  function FirstQuoted(line: string): (r: Option<string>)
    ensures r.None? <==> multiset(line)['"'] < 2
    ensures r.Some? ==> '"' !in r.value
    ensures r.Some? ==> exists i :: QuotedAt(line, i, r.value) && '"' !in line[..i]
  {
    match Find(line, '"')
    case None => None
    case Some(i) =>
      var rest := line[i + 1..];
      CountFromFirst(line, i, '"');
      match Find(rest, '"')
      case None => None
      case Some(j) =>
        CountFromFirst(rest, j, '"');
        assert QuotedAt(line, i, rest[..j]);
        Some(rest[..j])
  }

  /** Counting a character from its first occurrence on. */
  lemma CountFromFirst(s: string, i: nat, c: char)
    requires i < |s| && s[i] == c && c !in s[..i]
    ensures multiset(s)[c] == 1 + multiset(s[i + 1..])[c]
  {
    assert s == s[..i] + [s[i]] + s[i + 1..];
    assert multiset(s[..i])[c] == 0;
  }

  /** The state of the two loops: the result so far and `keys_to_search`. */
  datatype Scan = Scan(result: map<string, string>, pending: seq<string>)

  /** How the loop over `keys` ends for one line: normally, or with the
      IndexError of a pending key whose line has no quoted string. The
      `return` in `finally` turns the IndexError into the result held at that
      moment. */
  datatype LineEnd = Continue(scan: Scan) | Raised(result: map<string, string>)

  /** `list.remove(x)`: drops the first occurrence of `x`. */
  function RemoveFirst(s: seq<string>, x: string): (r: seq<string>)
    requires x in s
    ensures multiset(r) == multiset(s) - multiset{x}
  {
    assert s == [s[0]] + s[1..];
    if s[0] == x then s[1..] else [s[0]] + RemoveFirst(s[1..], x)
  }

  /** `for key in keys:` over one line, from the key list `ks` on. */
  function ScanKeys(line: string, ks: seq<string>, st: Scan): (r: LineEnd)
    ensures r.Raised? ==> FirstQuoted(line).None? && r.result == st.result
    ensures FirstQuoted(line).None? && r.Continue? ==> r.scan == st
    ensures r.Continue? ==> st.result.Keys <= r.scan.result.Keys
    decreases |ks|
  {
    if |ks| == 0 then Continue(st)
    else
      var key := ks[0];
      if key in st.pending && Mentions(line, key) then
        match FirstQuoted(line)
        case None => Raised(st.result)
        case Some(v) =>
          ScanKeys(line, ks[1..], Scan(st.result[key := v], RemoveFirst(st.pending, key)))
      else
        ScanKeys(line, ks[1..], st)
  }

  /** `for line in fd.readlines():` from line `i` on, skipping lines once
      nothing is pending. */
  function ScanLines(lines: seq<string>, keys: seq<string>, i: nat, st: Scan): (r: map<string, string>)
    requires i <= |lines|
    ensures st.result.Keys <= r.Keys
    ensures |st.pending| == 0 ==> r == st.result
    decreases |lines| - i
  {
    if i == |lines| then st.result
    else if |st.pending| > 0 then
      match ScanKeys(lines[i], keys, st)
      case Raised(r) => r
      case Continue(next) => ScanLines(lines, keys, i + 1, next)
    else
      ScanLines(lines, keys, i + 1, st)
  }

  // ---------------------------------------------------------------------
  // The reference description of the result
  // ---------------------------------------------------------------------

  /** The index of the first line that mentions `key`. */
  function FirstMention(lines: seq<string>, key: string): (r: Option<nat>)
    ensures r.Some? ==> r.value < |lines| && Mentions(lines[r.value], key)
    ensures r.Some? ==> forall j :: 0 <= j < r.value ==> !Mentions(lines[j], key)
    ensures r.None? ==> forall j :: 0 <= j < |lines| ==> !Mentions(lines[j], key)
    decreases |lines|
  {
    if |lines| == 0 then None
    else if Mentions(lines[0], key) then Some(0)
    else
      match FirstMention(lines[1..], key)
      case None => None
      case Some(i) => Some(i + 1)
  }

  /** `key` is mentioned in one of the first `n` lines. */
  predicate FoundBefore(lines: seq<string>, key: string, n: nat) {
    FirstMention(lines, key).Some? && FirstMention(lines, key).value < n
  }

  /** Line `i` ends the parse: it is the first mention of a requested key
      and has no quoted string. */
  predicate StopsAt(lines: seq<string>, keys: seq<string>, i: nat)
    requires i < |lines|
  {
    FirstQuoted(lines[i]).None? && exists k :: k in keys && FirstMention(lines, k) == Some(i)
  }

  /** No line before `n` ends the parse. */
  predicate NoStopBefore(lines: seq<string>, keys: seq<string>, n: nat) {
    n <= |lines| && forall i :: 0 <= i < n ==> !StopsAt(lines, keys, i)
  }

  /** The number of lines read: up to the first line that ends the parse. */
  function ReadLines(lines: seq<string>, keys: seq<string>): (n: nat)
    ensures NoStopBefore(lines, keys, n)
    ensures n < |lines| ==> StopsAt(lines, keys, n)
  {
    ReadFrom(lines, keys, 0)
  }

  /** `ReadLines`, searching from line `i` on. */
  function ReadFrom(lines: seq<string>, keys: seq<string>, i: nat): (n: nat)
    requires NoStopBefore(lines, keys, i)
    ensures i <= n && NoStopBefore(lines, keys, n)
    ensures n < |lines| ==> StopsAt(lines, keys, n)
    decreases |lines| - i
  {
    if i == |lines| || StopsAt(lines, keys, i) then i else ReadFrom(lines, keys, i + 1)
  }

  /** The value the first `n` lines give `k`: the first quoted string of its
      first mention when it is requested and mentioned there, its default
      otherwise. */
  function ValueOf(lines: seq<string>, keys: seq<string>, n: nat, k: string): string
    requires NoStopBefore(lines, keys, n)
    requires k in Defaults || (k in keys && FoundBefore(lines, k, n))
  {
    if k in keys && FoundBefore(lines, k, n) then
      var i := FirstMention(lines, k).value;
      assert !StopsAt(lines, keys, i);
      FirstQuoted(lines[i]).value
    else
      Defaults[k]
  }

  /** The result the first `n` lines give: the defaults, plus every requested
      key mentioned there, each with its `ValueOf`. */
  function Reference(lines: seq<string>, keys: seq<string>, n: nat): map<string, string>
    requires NoStopBefore(lines, keys, n)
  {
    map k | k in Defaults.Keys + (set k | k in keys && FoundBefore(lines, k, n)) :: ValueOf(lines, keys, n, k)
  }

  /** The reference result of the whole file. */
  function Expected(lines: seq<string>, keys: seq<string>): (r: map<string, string>)
    ensures Defaults.Keys <= r.Keys
    ensures forall k :: k in Defaults && k !in keys ==> r[k] == Defaults[k]
    ensures forall k :: k in r ==> k in Defaults || k in keys
  {
    Reference(lines, keys, ReadLines(lines, keys))
  }

  // ---------------------------------------------------------------------
  // The loops against the reference
  // ---------------------------------------------------------------------

  /** One more line read: `k` is found in the first `n + 1` lines when it was
      found before or line `n` mentions it, and in the latter case line `n`
      is its first mention. */
  lemma FoundStep(lines: seq<string>, k: string, n: nat)
    requires n < |lines|
    ensures FoundBefore(lines, k, n + 1) <==> FoundBefore(lines, k, n) || Mentions(lines[n], k)
    ensures !FoundBefore(lines, k, n) && Mentions(lines[n], k) ==> FirstMention(lines, k) == Some(n)
  {
  }

  /** Multiplicity in `ks` of `k`, one key peeled off. */
  lemma CountCons(ks: seq<string>, k: string)
    requires |ks| > 0
    ensures multiset(ks)[k] == multiset(ks[1..])[k] + (if k == ks[0] then 1 else 0)
  {
    assert ks == [ks[0]] + ks[1..];
  }

  /** On a line with a quoted string `v`, the key loop runs to the end; it
      gives `v` to `k` when `k` is listed in `ks`, pending and mentioned, and
      leaves its value alone otherwise; it leaves an unmentioned `k` pending
      as often as before, and stops searching for a mentioned `k` when `k` is
      pending no more often than `ks` lists it. */
  lemma {:induction false} ScanKeysQuoted(line: string, ks: seq<string>, st: Scan, v: string, k: string)
    requires FirstQuoted(line) == Some(v)
    ensures ScanKeys(line, ks, st).Continue?
    ensures var s' := ScanKeys(line, ks, st).scan;
      var hit := k in ks && k in st.pending && Mentions(line, k);
      && (k in s'.result <==> k in st.result || hit)
      && (k in s'.result ==> s'.result[k] == if hit then v else st.result[k])
      && (!Mentions(line, k) ==> multiset(s'.pending)[k] == multiset(st.pending)[k])
      && (Mentions(line, k) && multiset(st.pending)[k] <= multiset(ks)[k] ==> multiset(s'.pending)[k] == 0)
    decreases |ks|
  {
    if |ks| > 0 {
      var key, rest := ks[0], ks[1..];
      CountCons(ks, k);
      if key in st.pending && Mentions(line, key) {
        var st1 := Scan(st.result[key := v], RemoveFirst(st.pending, key));
        assert multiset(st1.pending)[k] == multiset(st.pending)[k] - (if k == key then 1 else 0);
        ScanKeysQuoted(line, rest, st1, v, k);
      } else {
        ScanKeysQuoted(line, rest, st, v, k);
      }
    }
  }

  /** On a line without a quoted string, the key loop raises at the first
      pending key the line mentions, before changing anything, and otherwise
      changes nothing. */
  lemma {:induction false} ScanKeysUnquoted(line: string, ks: seq<string>, st: Scan)
    requires FirstQuoted(line).None?
    ensures (exists k :: k in ks && k in st.pending && Mentions(line, k)) ==>
              ScanKeys(line, ks, st) == Raised(st.result)
    ensures (forall k :: k in ks && k in st.pending ==> !Mentions(line, k)) ==>
              ScanKeys(line, ks, st) == Continue(st)
    decreases |ks|
  {
    if |ks| > 0 {
      assert ks == [ks[0]] + ks[1..];
      ScanKeysUnquoted(line, ks[1..], st);
    }
  }

  /** `m` holds what the first `n` lines give: exactly the defaults and the
      requested keys mentioned there, each with its `ValueOf`. */
  ghost predicate Agrees(m: map<string, string>, lines: seq<string>, keys: seq<string>, n: nat)
    requires NoStopBefore(lines, keys, n)
  {
    && (forall k :: k in m <==> k in Defaults || (k in keys && FoundBefore(lines, k, n)))
    && (forall k :: k in m ==> m[k] == ValueOf(lines, keys, n, k))
  }

  lemma AgreesIsReference(m: map<string, string>, lines: seq<string>, keys: seq<string>, n: nat)
    requires NoStopBefore(lines, keys, n) && Agrees(m, lines, keys, n)
    ensures m == Reference(lines, keys, n)
  {
    var r := Reference(lines, keys, n);
    forall k ensures k in m <==> k in r {
      ReferenceHas(lines, keys, n, k);
    }
    forall k | k in m ensures m[k] == r[k] {
      ReferenceHas(lines, keys, n, k);
    }
  }

  /** Membership in and values of the reference result, one key at a time. */
  lemma ReferenceHas(lines: seq<string>, keys: seq<string>, n: nat, k: string)
    requires NoStopBefore(lines, keys, n)
    ensures k in Reference(lines, keys, n) <==> k in Defaults || (k in keys && FoundBefore(lines, k, n))
    ensures k in Reference(lines, keys, n) ==> Reference(lines, keys, n)[k] == ValueOf(lines, keys, n, k)
  {
  }

  /** What the loop state holds after `n` lines: the reference result of
      those lines, and as pending exactly the requested keys they do not
      mention, none more often than requested. */
  ghost predicate Tracks(lines: seq<string>, keys: seq<string>, n: nat, st: Scan) {
    && NoStopBefore(lines, keys, n)
    && Agrees(st.result, lines, keys, n)
    && (forall k :: k in st.pending <==> k in keys && !FoundBefore(lines, k, n))
    && (forall k :: multiset(st.pending)[k] <= multiset(keys)[k])
  }

  /** Reading line `n` that mentions no pending key changes nothing. */
  lemma SkipLine(lines: seq<string>, keys: seq<string>, n: nat, st: Scan)
    requires n < |lines| && Tracks(lines, keys, n, st)
    requires forall k :: k in keys && !FoundBefore(lines, k, n) ==> !Mentions(lines[n], k)
    ensures !StopsAt(lines, keys, n)
    ensures Tracks(lines, keys, n + 1, st)
  {
    NoStopHere(lines, keys, n);
    forall k
      ensures k in st.result <==> k in Defaults || (k in keys && FoundBefore(lines, k, n + 1))
      ensures k in st.result ==> st.result[k] == ValueOf(lines, keys, n + 1, k)
      ensures k in st.pending <==> k in keys && !FoundBefore(lines, k, n + 1)
    {
      SkipKey(lines, keys, n, st, k);
    }
    TracksIntro(lines, keys, n + 1, st);
  }

  /** A line that mentions no requested key still searched for does not end
      the parse. */
  lemma NoStopHere(lines: seq<string>, keys: seq<string>, n: nat)
    requires n < |lines| && NoStopBefore(lines, keys, n)
    requires forall k :: k in keys && !FoundBefore(lines, k, n) ==> !Mentions(lines[n], k)
    ensures !StopsAt(lines, keys, n)
    ensures NoStopBefore(lines, keys, n + 1)
  {
  }

  /** A line with a quoted string does not end the parse. */
  lemma QuotedNoStop(lines: seq<string>, keys: seq<string>, n: nat)
    requires n < |lines| && NoStopBefore(lines, keys, n)
    requires FirstQuoted(lines[n]).Some?
    ensures !StopsAt(lines, keys, n)
    ensures NoStopBefore(lines, keys, n + 1)
  {
  }

  /** `SkipLine` for one key. */
  lemma SkipKey(lines: seq<string>, keys: seq<string>, n: nat, st: Scan, k: string)
    requires n < |lines| && Tracks(lines, keys, n, st)
    requires forall k :: k in keys && !FoundBefore(lines, k, n) ==> !Mentions(lines[n], k)
    requires NoStopBefore(lines, keys, n + 1)
    ensures k in st.result <==> k in Defaults || (k in keys && FoundBefore(lines, k, n + 1))
    ensures k in st.result ==> st.result[k] == ValueOf(lines, keys, n + 1, k)
    ensures k in st.pending <==> k in keys && !FoundBefore(lines, k, n + 1)
  {
    FoundStep(lines, k, n);
  }

  /** Reading line `n` with a quoted string `v` gives `v` to the pending keys
      it mentions and stops searching for them. */
  lemma TakeLine(lines: seq<string>, keys: seq<string>, n: nat, st: Scan, v: string)
    requires n < |lines| && Tracks(lines, keys, n, st)
    requires FirstQuoted(lines[n]) == Some(v)
    ensures !StopsAt(lines, keys, n)
    ensures ScanKeys(lines[n], keys, st).Continue?
    ensures Tracks(lines, keys, n + 1, ScanKeys(lines[n], keys, st).scan)
  {
    var line := lines[n];
    QuotedNoStop(lines, keys, n);
    TakeKey(lines, keys, n, st, v, "");
    var s' := ScanKeys(line, keys, st).scan;
    forall k
      ensures k in s'.result <==> k in Defaults || (k in keys && FoundBefore(lines, k, n + 1))
      ensures k in s'.result ==> s'.result[k] == ValueOf(lines, keys, n + 1, k)
      ensures k in s'.pending <==> k in keys && !FoundBefore(lines, k, n + 1)
      ensures multiset(s'.pending)[k] <= multiset(keys)[k]
    {
      TakeKey(lines, keys, n, st, v, k);
    }
    TracksIntro(lines, keys, n + 1, s');
  }

  /** `Tracks`, assembled from its parts. */
  lemma TracksIntro(lines: seq<string>, keys: seq<string>, n: nat, st: Scan)
    requires NoStopBefore(lines, keys, n)
    requires forall k :: k in st.result <==> k in Defaults || (k in keys && FoundBefore(lines, k, n))
    requires forall k :: k in st.result ==> st.result[k] == ValueOf(lines, keys, n, k)
    requires forall k :: k in st.pending <==> k in keys && !FoundBefore(lines, k, n)
    requires forall k :: multiset(st.pending)[k] <= multiset(keys)[k]
    ensures Tracks(lines, keys, n, st)
  {
  }

  /** `TakeLine` for one key. */
  lemma TakeKey(lines: seq<string>, keys: seq<string>, n: nat, st: Scan, v: string, k: string)
    requires n < |lines| && Tracks(lines, keys, n, st)
    requires FirstQuoted(lines[n]) == Some(v)
    requires NoStopBefore(lines, keys, n + 1)
    ensures ScanKeys(lines[n], keys, st).Continue?
    ensures var s' := ScanKeys(lines[n], keys, st).scan;
      && (k in s'.result <==> k in Defaults || (k in keys && FoundBefore(lines, k, n + 1)))
      && (k in s'.result ==> s'.result[k] == ValueOf(lines, keys, n + 1, k))
      && (k in s'.pending <==> k in keys && !FoundBefore(lines, k, n + 1))
      && multiset(s'.pending)[k] <= multiset(keys)[k]
  {
    FoundStep(lines, k, n);
    ScanKeysQuoted(lines[n], keys, st, v, k);
  }

  /** A line without a quoted string that mentions a pending key is where the
      parse stops, so the state there already holds the reference result. */
  lemma StopLine(lines: seq<string>, keys: seq<string>, n: nat, st: Scan)
    requires n < |lines| && n <= ReadLines(lines, keys) && Tracks(lines, keys, n, st)
    requires FirstQuoted(lines[n]).None?
    requires exists k :: k in keys && k in st.pending && Mentions(lines[n], k)
    ensures st.result == Expected(lines, keys)
  {
    var k :| k in keys && k in st.pending && Mentions(lines[n], k);
    FoundStep(lines, k, n);
    assert StopsAt(lines, keys, n);
    AgreesIsReference(st.result, lines, keys, n);
  }

  /** From any state that tracks the first `n` lines, the rest of the loop
      ends with the reference result of the whole file. */
  lemma {:induction false} ScanFrom(lines: seq<string>, keys: seq<string>, n: nat, st: Scan)
    requires n <= ReadLines(lines, keys)
    requires Tracks(lines, keys, n, st)
    ensures ScanLines(lines, keys, n, st) == Expected(lines, keys)
    decreases |lines| - n, 1
  {
    if n == |lines| {
      AgreesIsReference(st.result, lines, keys, n);
    } else if |st.pending| == 0 {
      ScanIdle(lines, keys, n, st);
    } else {
      match FirstQuoted(lines[n])
      case Some(v) => ScanQuoted(lines, keys, n, st, v);
      case None => ScanUnquoted(lines, keys, n, st);
    }
  }

  /** A line that does not end the parse is not the last one read. */
  lemma ReadPast(lines: seq<string>, keys: seq<string>, n: nat)
    requires n < |lines| && n <= ReadLines(lines, keys)
    requires !StopsAt(lines, keys, n)
    ensures n + 1 <= ReadLines(lines, keys)
  {
  }

  /** One turn of the line loop that does not raise. */
  lemma ScanLinesStep(lines: seq<string>, keys: seq<string>, n: nat, st: Scan)
    requires n < |lines| && |st.pending| > 0
    requires ScanKeys(lines[n], keys, st).Continue?
    ensures ScanLines(lines, keys, n, st) == ScanLines(lines, keys, n + 1, ScanKeys(lines[n], keys, st).scan)
  {
  }

  /** `ScanFrom` once nothing is pending: the line is skipped. */
  lemma {:induction false} ScanIdle(lines: seq<string>, keys: seq<string>, n: nat, st: Scan)
    requires n < |lines| && n <= ReadLines(lines, keys)
    requires Tracks(lines, keys, n, st) && |st.pending| == 0
    ensures ScanLines(lines, keys, n, st) == Expected(lines, keys)
    decreases |lines| - n, 0
  {
    SkipLine(lines, keys, n, st);
    ReadPast(lines, keys, n);
    ScanFrom(lines, keys, n + 1, st);
  }

  /** `ScanFrom` on a line with a quoted string. */
  lemma {:induction false} ScanQuoted(lines: seq<string>, keys: seq<string>, n: nat, st: Scan, v: string)
    requires n < |lines| && n <= ReadLines(lines, keys)
    requires Tracks(lines, keys, n, st) && |st.pending| > 0
    requires FirstQuoted(lines[n]) == Some(v)
    ensures ScanLines(lines, keys, n, st) == Expected(lines, keys)
    decreases |lines| - n, 0
  {
    TakeLine(lines, keys, n, st, v);
    ReadPast(lines, keys, n);
    ScanLinesStep(lines, keys, n, st);
    ScanFrom(lines, keys, n + 1, ScanKeys(lines[n], keys, st).scan);
  }

  /** `ScanFrom` on a line without a quoted string: the parse stops there or
      the line is skipped. */
  lemma {:induction false} ScanUnquoted(lines: seq<string>, keys: seq<string>, n: nat, st: Scan)
    requires n < |lines| && n <= ReadLines(lines, keys)
    requires Tracks(lines, keys, n, st) && |st.pending| > 0
    requires FirstQuoted(lines[n]).None?
    ensures ScanLines(lines, keys, n, st) == Expected(lines, keys)
    decreases |lines| - n, 0
  {
    ScanKeysUnquoted(lines[n], keys, st);
    if exists k :: k in keys && k in st.pending && Mentions(lines[n], k) {
      StopLine(lines, keys, n, st);
    } else {
      SkipLine(lines, keys, n, st);
      ReadPast(lines, keys, n);
      ScanLinesStep(lines, keys, n, st);
      ScanFrom(lines, keys, n + 1, st);
    }
  }

  /** `parse_pyproject_toml(keys)`. */
  function ParsePyproject(file: Option<seq<string>>, keys: seq<string>): (r: map<string, string>)
    ensures "description" in r && "license" in r
    ensures file.None? ==> r == Defaults
    ensures forall k :: k in Defaults && k !in keys ==> r[k] == Defaults[k]
    ensures forall k :: k in r ==> k in Defaults || k in keys
    ensures file.Some? ==> r == Expected(file.value, keys)
  {
    match file
    case None => Defaults
    case Some(lines) =>
      assert Tracks(lines, keys, 0, Scan(Defaults, keys));
      ScanFrom(lines, keys, 0, Scan(Defaults, keys));
      ScanLines(lines, keys, 0, Scan(Defaults, keys))
  }

  // ---------------------------------------------------------------------
  // Consequences
  // ---------------------------------------------------------------------

  /** A requested key takes the first quoted string of the first line that
      mentions it, provided no line up to that one ends the parse; later
      lines that mention it do not matter. */
  lemma ParseTakesFirstMention(lines: seq<string>, keys: seq<string>, k: string, i: nat)
    requires k in keys && FirstMention(lines, k) == Some(i)
    requires NoStopBefore(lines, keys, i + 1)
    ensures FirstQuoted(lines[i]).Some?
    ensures k in ParsePyproject(Some(lines), keys)
    ensures ParsePyproject(Some(lines), keys)[k] == FirstQuoted(lines[i]).value
  {
    assert !StopsAt(lines, keys, i);
  }

  /** The first mention of `k` among the first `m` lines. */
  lemma FirstMentionPrefix(lines: seq<string>, k: string, m: nat)
    requires m <= |lines|
    ensures FirstMention(lines[..m], k) ==
      match FirstMention(lines, k)
      case Some(j) => if j < m then Some(j) else None
      case None => None
  {
    var prefix := lines[..m];
    match FirstMention(prefix, k)
    case Some(j) =>
      assert Mentions(lines[j], k);
    case None =>
  }

  /** A line before `m` ends the parse of the first `m` lines exactly when it
      ends the parse of the whole file. */
  lemma StopsAtPrefix(lines: seq<string>, keys: seq<string>, m: nat, i: nat)
    requires i < m <= |lines|
    ensures StopsAt(lines[..m], keys, i) <==> StopsAt(lines, keys, i)
  {
    forall k ensures FirstMention(lines[..m], k) == Some(i) <==> FirstMention(lines, k) == Some(i) {
      FirstMentionPrefix(lines, k, m);
    }
  }

  /** The number of lines read is determined by where the parse stops. */
  lemma ReadLinesAt(lines: seq<string>, keys: seq<string>, i: nat)
    requires NoStopBefore(lines, keys, i)
    requires i == |lines| || StopsAt(lines, keys, i)
    ensures ReadLines(lines, keys) == i
  {
  }

  /** A mention of a requested key without a quoted string, at the first
      line that mentions it, ends the parse there: the result is what the
      lines before it give, as if the file ended there. */
  lemma ParseStopsAtUnquotedMention(lines: seq<string>, keys: seq<string>, i: nat)
    requires i < |lines| && NoStopBefore(lines, keys, i) && StopsAt(lines, keys, i)
    ensures ParsePyproject(Some(lines), keys) == ParsePyproject(Some(lines[..i]), keys)
  {
    var prefix := lines[..i];
    ReadLinesAt(lines, keys, i);
    forall j | 0 <= j < i ensures !StopsAt(prefix, keys, j) {
      StopsAtPrefix(lines, keys, i, j);
    }
    ReadLinesAt(prefix, keys, i);
    var r := Reference(lines, keys, i);
    forall k ensures FoundBefore(prefix, k, i) <==> FoundBefore(lines, k, i) {
      FirstMentionPrefix(lines, k, i);
    }
    forall k | k in r ensures r[k] == ValueOf(prefix, keys, i, k) {
      FirstMentionPrefix(lines, k, i);
    }
    AgreesIsReference(r, prefix, keys, i);
  }
}
