/**
 The decisions of the GitHub provisioning script (setup_github.py) with its
 process calls taken out: whether the repository path must be added to git's
 `safe.directory` list, whether an existing repository skips the set-up,
 which installer `install_gh_cli` picks, and how the Windows branch extends
 PATH. What a process call would report is an input.
 */
module SetupGithub {
  import opened Wrappers
  import opened PyStr

  // ---------------------------------------------------------------------
  // safe.directory (initialize_git_repo)
  // ---------------------------------------------------------------------

  /** The outcome of `git config --global --get-all safe.directory`: a
      RuntimeError (git exits non-zero, which it does when the list is
      empty), or its standard output. */
  datatype Listing = ListingFailed | Listed(stdout: string)

  /** `result.stdout.strip().split('\n')`: the whole output is stripped, then
      split on newlines; the pieces themselves are not stripped. */
  function SafeDirectories(stdout: string): (dirs: seq<string>)
    ensures |dirs| >= 1
    ensures forall i :: 0 <= i < |dirs| ==> '\n' !in dirs[i]
    ensures Join(dirs, '\n') == Strip(stdout, Whitespace)
  {
    JoinSplit(Strip(stdout, Whitespace), '\n');
    Split(Strip(stdout, Whitespace), '\n')
  }

  /** The repository path has to be added: the listing failed, or no listed
      entry equals it. */
  function NeedsSafeDirectory(listing: Listing, repoPath: string): (r: bool)
    ensures listing.ListingFailed? ==> r
    ensures listing.Listed? && repoPath !in SafeDirectories(listing.stdout) ==> r
    ensures listing.Listed? && repoPath in SafeDirectories(listing.stdout) ==> !r
  {
    match listing
    case ListingFailed => true
    case Listed(stdout) =>
      var applied := exists i :: 0 <= i < |SafeDirectories(stdout)| && SafeDirectories(stdout)[i] == repoPath;
      !applied
  }

  /** How many times `git config --global --add safe.directory` runs. When the
      path is not listed and that add fails, its RuntimeError is caught by the
      same `try`, whose handler adds once more; a failure there propagates. */
  function SafeDirectoryAdds(listing: Listing, repoPath: string, firstAddFails: bool): (adds: nat)
    ensures adds <= 2
    ensures adds > 0 <==> NeedsSafeDirectory(listing, repoPath)
    ensures adds == 2 <==> listing.Listed? && NeedsSafeDirectory(listing, repoPath) && firstAddFails
  {
    match listing
    case ListingFailed => 1
    case Listed(_) =>
      if !NeedsSafeDirectory(listing, repoPath) then 0
      else if firstAddFails then 2
      else 1
  }

  /** What git prints for a non-empty list of entries: each on its own line. */
  function GitListing(entries: seq<string>): string
    requires |entries| >= 1
  {
    Join(entries, '\n') + "\n"
  }

  /** An entry git can print and read back unchanged: non-empty, on one line,
      and with no whitespace at either end. */
  predicate CleanEntry(e: string) {
    |e| > 0 && '\n' !in e && e[0] !in Whitespace && e[|e| - 1] !in Whitespace
  }

  /** The first character of a join is the first character of its first
      piece. */
  lemma JoinHead(parts: seq<string>, sep: char)
    requires |parts| >= 1 && |parts[0]| > 0
    ensures |Join(parts, sep)| > 0 && Join(parts, sep)[0] == parts[0][0]
  {
  }

  /** The last character of a join is the last character of its last
      piece. */
  lemma {:induction false} JoinLast(parts: seq<string>, sep: char)
    requires |parts| >= 1 && |parts[|parts| - 1]| > 0
    ensures var j := Join(parts, sep); |j| > 0 && j[|j| - 1] == parts[|parts| - 1][|parts[|parts| - 1]| - 1]
    decreases |parts|
  {
    if |parts| > 1 {
      JoinLast(parts[1..], sep);
    }
  }

  /** Stripping a string whose ends are not strippable, followed by one
      strippable character, gives back the string. */
  lemma StripTrailing(s: string, c: char, chars: set<char>)
    requires c in chars
    requires s == [] || (s[0] !in chars && s[|s| - 1] !in chars)
    ensures Strip(s + [c], chars) == s
  {
    if s == [] {
      assert LStrip([c], chars) == LStrip([c][1..], chars);
    } else {
      assert LStrip(s + [c], chars) == s + [c];
      assert (s + [c])[..|s|] == s;
      assert RStrip(s + [c], chars) == RStrip(s, chars);
    }
  }

  /** Reading back what git prints gives exactly the entries. */
  lemma ListingRoundTrip(entries: seq<string>)
    requires |entries| >= 1
    requires forall i :: 0 <= i < |entries| ==> CleanEntry(entries[i])
    ensures SafeDirectories(GitListing(entries)) == entries
  {
    var j := Join(entries, '\n');
    JoinHead(entries, '\n');
    JoinLast(entries, '\n');
    StripTrailing(j, '\n', Whitespace);
    SplitJoin(entries, '\n');
  }

  /** For entries as git prints them, the path is added exactly when it is
      not one of them. */
  lemma NeedsSafeDirectoryIffUnlisted(entries: seq<string>, repoPath: string)
    requires |entries| >= 1
    requires forall i :: 0 <= i < |entries| ==> CleanEntry(entries[i])
    ensures NeedsSafeDirectory(Listed(GitListing(entries)), repoPath) <==> repoPath !in entries
  {
    ListingRoundTrip(entries);
  }

  // ---------------------------------------------------------------------
  // The skip prompt (the `__main__` block)
  // ---------------------------------------------------------------------

  /** `not response or response.lower().startswith('y')`. Only `y` and `Y`
      lower to a string starting with `y`, so ASCII lowering is exact here. */
  function SkipSetup(response: string): (skip: bool)
    ensures skip <==> response == "" || response[0] == 'y' || response[0] == 'Y'
  {
    response == "" || "y" <= Lower(response)
  }

  /** The answer's first character alone decides. */
  lemma SkipDependsOnFirstChar(a: string, b: string)
    requires |a| > 0 && |b| > 0 && a[0] == b[0]
    ensures SkipSetup(a) == SkipSetup(b)
  {
  }

  // ---------------------------------------------------------------------
  // Installer selection (install_gh_cli)
  // ---------------------------------------------------------------------

  /** How a `--version` probe ends: it runs, the program is missing
      (FileNotFoundError), or it exits non-zero (RuntimeError). */
  datatype Probe = Runs | NotFound | Fails

  /** What `install_gh_cli` does. `bootstrap` says that the package manager
      is installed first. `BrewProbeRaised` is the RuntimeError of
      `brew --version`, which the darwin branch does not catch. The two
      unsupported cases end in `sys.exit(0)`. */
  datatype InstallPlan =
    | AlreadyInstalled
    | AptInstall
    | DnfInstall
    | BrewInstall(bootstrap: bool)
    | BrewProbeRaised
    | ScoopInstall(bootstrap: bool)
    | UnsupportedDistro(distro: string)
    | UnsupportedPlatform(platform: string)
  {
    predicate IsExit() {
      UnsupportedDistro? || UnsupportedPlatform?
    }
  }

  /** The Debian family, looked for first. */
  predicate IsAptDistro(distro: string) {
    Contains(distro, "ubuntu") || Contains(distro, "debian")
  }

  /** The Red Hat family. */
  predicate IsDnfDistro(distro: string) {
    Contains(distro, "fedora") || Contains(distro, "centos") || Contains(distro, "rhel")
  }

  /** The branch `install_gh_cli` takes on `platform` (the lower-cased
      `platform.system()`), given how `gh --version` ends, the Linux distribution id, and how the platform's package
      manager probe (`brew` or `scoop`) ends. */
  function SelectInstaller(platform: string, gh: Probe, distro: string, manager: Probe): (plan: InstallPlan)
    ensures plan.AlreadyInstalled? <==> gh == Runs
    ensures plan.AptInstall? ==> platform == "linux" && IsAptDistro(distro)
    ensures plan.DnfInstall? ==> platform == "linux" && IsDnfDistro(distro) && !IsAptDistro(distro)
    ensures plan.BrewInstall? ==> platform == "darwin" && plan.bootstrap == (manager == NotFound)
    ensures plan.BrewProbeRaised? ==> platform == "darwin" && manager == Fails
    ensures plan.ScoopInstall? ==> platform == "windows" && plan.bootstrap == (manager != Runs)
    ensures plan.UnsupportedDistro? ==> platform == "linux" && plan.distro == distro
    ensures plan.UnsupportedPlatform? ==> plan.platform == platform
    ensures gh != Runs && platform == "darwin" ==>
      plan == (if manager == Fails then BrewProbeRaised else BrewInstall(manager == NotFound))
    ensures gh != Runs && platform == "windows" ==> plan == ScoopInstall(manager != Runs)
    ensures gh != Runs && platform == "linux" && !IsAptDistro(distro) && !IsDnfDistro(distro) ==>
      plan == UnsupportedDistro(distro)
  {
    if gh == Runs then AlreadyInstalled
    else if platform == "linux" then
      if IsAptDistro(distro) then AptInstall
      else if IsDnfDistro(distro) then DnfInstall
      else UnsupportedDistro(distro)
    else if platform == "darwin" then
      match manager
      case Runs => BrewInstall(false)
      case NotFound => BrewInstall(true)
      case Fails => BrewProbeRaised
    else if platform == "windows" then
      ScoopInstall(manager != Runs)
    else
      UnsupportedPlatform(platform)
  }

  /** When gh is missing, the script ends in an unsupported exit exactly for
      a platform other than the three it knows, or for a Linux distribution
      outside both families. */
  lemma ExitIffUnsupported(platform: string, gh: Probe, distro: string, manager: Probe)
    requires gh != Runs
    ensures SelectInstaller(platform, gh, distro, manager).IsExit() <==>
      (platform !in {"linux", "darwin", "windows"} ||
       (platform == "linux" && !IsAptDistro(distro) && !IsDnfDistro(distro)))
  {
  }

  /** On Linux the distribution alone decides, and the Debian family wins
      over the Red Hat family. */
  lemma LinuxPlanByDistro(gh: Probe, distro: string, m1: Probe, m2: Probe)
    requires gh != Runs
    ensures SelectInstaller("linux", gh, distro, m1) == SelectInstaller("linux", gh, distro, m2)
    ensures IsAptDistro(distro) ==> SelectInstaller("linux", gh, distro, m1) == AptInstall
    ensures IsDnfDistro(distro) && !IsAptDistro(distro) ==> SelectInstaller("linux", gh, distro, m1) == DnfInstall
  {
  }

  /** Away from Linux the distribution id plays no part. */
  lemma DistroOnlyOnLinux(platform: string, gh: Probe, d1: string, d2: string, manager: Probe)
    requires platform != "linux"
    ensures SelectInstaller(platform, gh, d1, manager) == SelectInstaller(platform, gh, d2, manager)
  {
  }

  // ---------------------------------------------------------------------
  // PATH extension (the Windows branch of install_gh_cli)
  // ---------------------------------------------------------------------

  /** `os.pathsep` on Windows, the only platform that reaches this code. */
  const PathSep: char := ';'

  /** `os.environ['PATH'] += sep + shims`, with `sep` empty when PATH already
      ends with the separator. An empty PATH makes `[-1]` raise IndexError,
      which is None here. */
  function ExtendPath(path: string, shims: string): (r: Option<string>)
    ensures r.None? <==> path == ""
    ensures r.Some? ==> |r.value| == |path| + |shims| + (if path[|path| - 1] == PathSep then 0 else 1)
    ensures r.Some? ==> path <= r.value && r.value[|r.value| - |shims|..] == shims
    ensures r.Some? && path[|path| - 1] != PathSep ==> r.value[|path|] == PathSep
  {
    if path == "" then None
    else
      var sep := if path[|path| - 1] != PathSep then [PathSep] else "";
      Some(path + sep + shims)
  }

  /** The directories a PATH names: its non-empty `;`-separated pieces. */
  function PathEntries(path: string): seq<string> {
    NonEmpty(Split(path, PathSep))
  }

  /** The non-empty strings of `parts`, in order. */
  function NonEmpty(parts: seq<string>): (r: seq<string>)
    ensures |r| <= |parts|
    ensures forall i :: 0 <= i < |r| ==> r[i] != "" && r[i] in parts
  {
    if |parts| == 0 then []
    else (if parts[0] == "" then [] else [parts[0]]) + NonEmpty(parts[1..])
  }

  lemma {:induction false} NonEmptyAppend(a: seq<string>, b: seq<string>)
    ensures NonEmpty(a + b) == NonEmpty(a) + NonEmpty(b)
    decreases |a|
  {
    if |a| > 0 {
      assert (a + b)[1..] == a[1..] + b;
      NonEmptyAppend(a[1..], b);
    } else {
      assert a + b == b;
    }
  }

  /** Appending `;shims` to PATH adds one entry. */
  lemma AppendEntry(head: string, shims: string)
    requires shims != "" && PathSep !in shims
    ensures PathEntries(head + [PathSep] + shims) == PathEntries(head) + [shims]
  {
    SplitWithoutSeparator(shims, PathSep);
    SplitAppend(head, shims, PathSep);
    NonEmptyAppend(Split(head, PathSep), [shims]);
    assert NonEmpty([shims]) == [shims];
  }

  /** A trailing `;` adds no entry. */
  lemma TrailingSeparator(head: string)
    ensures PathEntries(head + [PathSep]) == PathEntries(head)
  {
    assert head + [PathSep] == head + [PathSep] + "";
    SplitAppend(head, "", PathSep);
    assert Split("", PathSep) == [""];
    NonEmptyAppend(Split(head, PathSep), [""]);
    assert NonEmpty([""]) == [];
  }

  /** Extending PATH adds the shims directory as exactly one new entry after
      the old ones. */
  lemma ExtendPathAddsOneEntry(path: string, shims: string)
    requires path != "" && shims != "" && PathSep !in shims
    ensures ExtendPath(path, shims).Some?
    ensures PathEntries(ExtendPath(path, shims).value) == PathEntries(path) + [shims]
  {
    if path[|path| - 1] != PathSep {
      AppendEntry(path, shims);
    } else {
      var head := path[..|path| - 1];
      assert path == head + [PathSep];
      assert ExtendPath(path, shims).value == head + [PathSep] + shims;
      AppendEntry(head, shims);
      TrailingSeparator(head);
    }
  }
}
