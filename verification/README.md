# copier-numpy template helpers and GitHub set-up decisions, in Dafny

This project models the pure logic inside two scripts of the copier-numpy
project template.

- `extensions.py` is the template extension. The model covers three parts of it:
  - the `format_python_version` filter, which shortens a PEP 508 Python
    version specifier such as `>=3.9,<3.13` to `3.9+`;
  - the `slugify` filter;
  - the `git_username` default, which is the part of the git e-mail before `@`.
- `setup_github.py` is the provisioning script run after generation. The
  model covers its decisions, with every process call replaced by an input:
  - the best-effort `pyproject.toml` reader `parse_pyproject_toml`;
  - whether the repository path has to be added to git's
    `safe.directory` list;
  - whether an existing repository skips the set-up;
  - which branch `install_gh_cli` takes for the platform, the Linux
    distribution and the outcome of the probe commands;
  - how that branch extends `PATH` on Windows.

The files:

- `wrappers.dfy`: the `Option` type.
- `py_str.dfy` (module `PyStr`): the Python string operations the scripts
  rely on. These are `str.split` with a one-character separator,
  `sep.join`, `strip`/`lstrip`/`rstrip` with a character set, the
  `str.isspace` whitespace set, `lower`, `isdigit`, the substring test `in`,
  and finding a character. Around them are the split/join round trips and
  the split-of-a-concatenation law.
- `extensions.dfy` (module `Extensions`): the three template helpers.
- `pyproject.dfy` (module `Pyproject`): `parse_pyproject_toml`.
  - It is modelled twice: once as the two nested loops exactly as written,
    and once as a declarative reference result. The reference gives each
    requested key the first quoted string of its first mention, and stops
    at the first mention that has no quoted string.
  - `ScanFrom` proves the two agree on every file.
- `setup_github.dfy` (module `SetupGithub`): the decisions listed above.

Two Python behaviours shape the parser model.

- `keys_to_search.remove(key)` is `list.remove`, which takes out one
  occurrence. A key listed twice in `keys` is still set only once: on the
  first line that mentions it with a quoted string, both copies leave the
  pending keys (`Pyproject.ScanKeysQuoted`).
- The `return` inside `finally` turns the `IndexError` of a matching line
  without quotes into a normal return of the values collected so far.

The `+` of `format_python_version` depends on the whole first clause:
extensions.py:52 appends it whenever that clause contains `>`, so
`>=3.9,<3.13` gives `3.9+` (`Extensions.FormatExampleRange`).

## Model

| member | source | states |
|---|---|---|
| PyStr.Find | setup_github.py:166 | The first index of a character: it is that character and no earlier index is; None exactly when the character does not occur. |
| PyStr.Contains | setup_github.py:165 | The substring test `in`: the empty string occurs in every string, a one-character string occurs exactly when its character does, and nothing longer than the string occurs in it. |
| PyStr.Split | extensions.py:44 | The pieces of `str.split` on one character. There is at least one piece and none holds the separator. The first piece is the prefix up to the first separator. There is exactly one piece when the separator does not occur. |
| PyStr.Join | extensions.py:51 | `sep.join(parts)` of no pieces is empty. Otherwise it starts with the first piece, and with two or more pieces the separator follows that first piece. |
| PyStr.JoinSplit | extensions.py:50-51 | Joining the pieces of a split with the same separator gives back the string. |
| PyStr.SplitJoin | setup_github.py:201 | Splitting a join of separator-free pieces gives back the pieces. |
| PyStr.SplitAppend | extensions.py:44 | Splitting `a + sep + b` gives the pieces of `a` followed by the pieces of `b`. |
| PyStr.SplitWithoutSeparator | extensions.py:44 | A string without the separator splits into itself alone. |
| PyStr.JoinFirstTwo | extensions.py:51 | Joining the first two pieces puts the separator between them, and the full join continues from there. |
| PyStr.LStrip | extensions.py:39 | `lstrip(chars)` keeps a suffix that is empty or starts outside `chars`, and everything it drops is in `chars`. |
| PyStr.RStrip | extensions.py:39 | `rstrip(chars)` keeps a prefix that is empty or ends outside `chars`, and everything it drops is in `chars`. |
| PyStr.Strip | setup_github.py:201 | `strip(chars)` keeps a prefix of what `lstrip` keeps, that prefix neither starts nor ends with a character of `chars`, and everything dropped after it is in `chars`. |
| PyStr.StripUnchanged | extensions.py:39 | A string whose ends are not in `chars` is left alone by `strip`. |
| PyStr.Lower | extensions.py:38 | `lower()` keeps the length and lowers each character on its own. |
| PyStr.Filter | extensions.py:37-38 | Dropping characters keeps only characters that pass, all taken from the input, and keeps the input whole when every character passes. |
| PyStr.FilterAppend | extensions.py:37-38 | Filtering distributes over concatenation, so every passing character is kept and the input order is preserved. |
| PyStr.StripKeeps | extensions.py:39 | Stripping characters that all fail a test leaves exactly the characters that pass it. |
| Extensions.FirstClause | extensions.py:44 | The first clause is a comma-free prefix of the specifier, followed by a comma or by the end. |
| Extensions.FirstDigit | extensions.py:46-49 | The `enumerate` loop stops at a digit with no digit before it, and finds nothing exactly when there is no digit. |
| Extensions.MajorMinor | extensions.py:50-51 | The short version is cut just before its second `.`. The result is a prefix with at most one `.`, and it is the whole string when there is no second `.`. |
| Extensions.CutAtSecondDot | extensions.py:51 | Two dot-free pieces joined by `.` hold exactly one `.`, and they are the whole string when it has no further `.`. |
| Extensions.VersionBase | extensions.py:45-51 | Without a digit the base is the default `3.11`. Otherwise it is a prefix of the clause from its first digit onward, with at most one `.`, cut exactly at the second `.`. |
| Extensions.FormatPythonVersion | extensions.py:42-52 | The result is the base of the first clause, lengthened by one `+` exactly when that clause contains `>`. |
| Extensions.FormatIgnoresLaterClauses | extensions.py:44 | Everything after the first comma is ignored: `clause,rest` formats like `clause`. |
| Extensions.FormatExampleLowerBound | extensions.py:42-52 | `>=3.9` gives `3.9+`. |
| Extensions.FormatExampleRange | extensions.py:44-52 | `>=3.9,<3.13` gives `3.9+`. The upper bound is ignored, and `>=` counts as `>`. |
| Extensions.FormatExampleStrict | extensions.py:42-52 | `>3.11` gives `3.11+`. |
| Extensions.FormatExampleNoDigit | extensions.py:45-52 | `abc` gives the default `3.11` with no `+`. |
| Extensions.CollapseRuns | extensions.py:39 | `re.sub("[-_\s]+", sep, …)` keeps the first character when it is not a run character. Every output character is a kept non-run input character or comes from `sep`. |
| Extensions.CollapseRunsWord | extensions.py:39 | A word of non-run characters is copied through unchanged. |
| Extensions.CollapseRunsRun | extensions.py:39 | A maximal run of `-`, `_` and whitespace becomes exactly one separator. |
| Extensions.CollapseKeepsWords | extensions.py:39 | With a separator made of run characters, the non-run characters of the output are those of the input, all of them and in order. |
| Extensions.Slugify | extensions.py:36-39 | With the default separator the result uses only lower-case ASCII letters, digits and `-`. It never holds `--` and neither starts nor ends with `-`. |
| Extensions.CleanedAlphabet | extensions.py:37-38 | After dropping non-ASCII, lowering and removing `[^\w\s-]`, only lower-case letters, digits and run characters remain. |
| Extensions.CollapsedNoDoubleDash | extensions.py:39 | Collapsing runs with `-` never leaves two `-` in a row, whatever the input. |
| Extensions.CollapsedIsDashSeparated | extensions.py:39 | Collapsing with `-` leaves only slug characters and never two `-` in a row. |
| Extensions.StrippedSlug | extensions.py:39 | Stripping `-` and `_` from such a string gives a slug. |
| Extensions.CollapseSlugUnchanged | extensions.py:39 | Collapsing leaves a slug unchanged, because each of its `-` is a run of its own. |
| Extensions.SlugIsFixedPoint | extensions.py:37-39 | `slugify` returns every slug unchanged. |
| Extensions.SlugifyIdempotent | extensions.py:37-39 | `slugify(slugify(x)) == slugify(x)` with the default separator. |
| Extensions.SlugifyKeepsContent | extensions.py:36-39 | The letters and digits of the slug are exactly the lower-cased ASCII letters and digits of the input, all of them and in order. |
| Extensions.SlugifyExampleHello | extensions.py:36-39 | `Hello, World!` gives `hello-world`. |
| Extensions.GitUsername | extensions.py:59-63 | The username is the `@`-free prefix of the e-mail that stops at its first `@`. It is the whole e-mail when there is no `@`, and empty for an empty e-mail. |
| Pyproject.FirstQuoted | setup_github.py:166 | `re.findall('"([^"]*)"', line)[0]` is the quote-free text between the first two `"` of the line. It is missing, so `[0]` raises, exactly when the line has fewer than two `"`. |
| Pyproject.RemoveFirst | setup_github.py:167 | `list.remove` takes exactly one occurrence of the key out of the pending keys. |
| Pyproject.ScanKeys | setup_github.py:164-167 | The key loop over one line, as written. It raises only on a line without a quoted string, and then with the result unchanged. On such a line it otherwise changes nothing. It never removes a key from the result. |
| Pyproject.ScanLines | setup_github.py:162-167 | The line loop, as written. It never removes a key from the result, and once no key is pending the remaining lines change nothing. |
| Pyproject.ScanKeysQuoted | setup_github.py:164-167 | On a line with a quoted string, the key loop finishes. It gives that string to each pending requested key the line mentions, leaves every other value alone, and stops searching for the keys it set. |
| Pyproject.ScanKeysUnquoted | setup_github.py:164-166 | On a line without a quoted string, the key loop raises, with the result unchanged, when a pending key is mentioned, and otherwise changes nothing. |
| Pyproject.FirstMention | setup_github.py:162-165 | The first line that contains `"<key> = "`, or none. |
| Pyproject.ReadLines | setup_github.py:162-171 | Lines are read up to, and not including, the first line that ends the parse. No earlier line ends it. |
| Pyproject.Expected | setup_github.py:158-171 | The reference result always holds both defaults. Only the defaults and requested keys occur, and an unrequested default keeps its value. |
| Pyproject.SkipLine | setup_github.py:163-165 | A line that mentions no pending key changes nothing and does not end the parse. |
| Pyproject.TakeLine | setup_github.py:164-167 | A line with a quoted string moves the loop state from the reference of the lines before it to the reference including it. |
| Pyproject.ScanFrom | setup_github.py:162-171 | From any state that agrees with the reference of the lines read so far, the loops end with the reference result of the whole file. |
| Pyproject.ParsePyproject | setup_github.py:157-171 | `description` and `license` are always present. A missing file gives the defaults. An unrequested key keeps its default, and no other key appears. A present file gives the reference result. |
| Pyproject.ParseTakesFirstMention | setup_github.py:162-167 | A requested key gets the first quoted string of the first line that mentions it, so later mentions never override it, unless the parse stopped earlier. |
| Pyproject.FirstMentionPrefix | setup_github.py:162-165 | The first mention within the first `m` lines is the file's first mention when that is before `m`, and none otherwise. |
| Pyproject.ParseStopsAtUnquotedMention | setup_github.py:166-171 | A first mention of a requested key without a quoted string ends parsing. The result is that of the lines before it, as if the file ended there. |
| SetupGithub.SafeDirectories | setup_github.py:201 | The listed entries are the newline-split pieces of the stripped output: at least one, none holding a newline, and joined with newlines they give back the stripped output. |
| SetupGithub.NeedsSafeDirectory | setup_github.py:199-209 | The path is added when the listing fails, or when it equals none of the listed entries. It is not added when it is listed. |
| SetupGithub.SafeDirectoryAdds | setup_github.py:199-209 | At most two adds, and some add exactly when it is needed. A second add happens exactly when the listing succeeded, the path was missing and the first add failed, because the handler of the same `try` retries it. |
| SetupGithub.StripTrailing | setup_github.py:201 | Stripping a string whose ends are not whitespace, followed by a newline, gives back the string. |
| SetupGithub.ListingRoundTrip | setup_github.py:200-201 | Reading back what git prints for non-empty one-line entries without whitespace at their ends gives exactly those entries. |
| SetupGithub.NeedsSafeDirectoryIffUnlisted | setup_github.py:200-207 | For such entries the path is added if and only if it is not among them. |
| SetupGithub.SkipSetup | setup_github.py:273-277 | Set-up is skipped exactly when the answer is empty or starts with `y` or `Y`. |
| SetupGithub.SkipDependsOnFirstChar | setup_github.py:275 | Two non-empty answers with the same first character get the same decision. |
| SetupGithub.SelectInstaller | setup_github.py:80-123 | A working `gh` means nothing is installed. apt is chosen only on Linux for the Debian family, and dnf only on Linux for the Red Hat family outside the Debian family. A Linux distribution outside both families ends in the unsupported-distribution exit. On darwin, brew is bootstrapped exactly when it is missing, and a failing `brew --version` escapes because only FileNotFoundError is caught. On Windows, scoop is bootstrapped whenever its probe does not run. |
| SetupGithub.ExitIffUnsupported | setup_github.py:87-123 | With `gh` missing, the script exits as unsupported exactly for an unknown platform or for a Linux distribution outside both families. |
| SetupGithub.LinuxPlanByDistro | setup_github.py:87-103 | On Linux the distribution alone decides, and the Debian family is checked before the Red Hat family. |
| SetupGithub.DistroOnlyOnLinux | setup_github.py:104-123 | Away from Linux the distribution id plays no part. |
| SetupGithub.ExtendPath | setup_github.py:118-119 | An empty PATH raises. Otherwise the old PATH is a prefix of the result and the shims path its suffix, with exactly one `;` inserted unless PATH already ends with one. |
| SetupGithub.NonEmptyAppend | setup_github.py:118-119 | Dropping empty PATH pieces distributes over concatenation. |
| SetupGithub.ExtendPathAddsOneEntry | setup_github.py:118-119 | The directories PATH names after the extension are the old ones followed by the shims directory. |

## Left out

- Process calls are not modelled. This covers `run_command`, `subprocess`, `shlex`, the PowerShell wrapping, `curl`, `gh` and `git` invocations and `sys.exit`. Their outcomes are inputs: `Listing`, `Probe`, `firstAddFails`, the distribution id, the PATH value and the shims path.
- `get_linux_distro` downloads and imports a third-party module, so the lower-cased distribution id is an input.
- Opening `pyproject.toml` is file I/O. The file is its list of lines, or None when it is missing. Exceptions other than a missing file and the `IndexError` modelled here are not modelled.
- `authenticate_gh`, `add_license_file`, the repository creation and settings, branch rules and the rest of `initialize_git_repo` after the safe-directory step are network and interactive I/O.
- `git_user_name` and `git_user_email` are environment lookups; the e-mail is an input to `GitUsername`. The template-engine registration in `TemplateDefaultExtension` is also left out, along with the current year and the project directory.
- template/_copier_cli.py is a thin wrapper around the external copier command and is not part of this model.
- The top-level exception handler and all progress printing are left out.
- Extensions.Slugify: takes the NFKD normal form of its argument as input, because Unicode normalisation needs the Unicode tables. The ASCII-ignore step after it is modelled exactly.
- Extensions.Slugify: `separator` is used literally; the backslash-escape processing `re.sub` applies to a replacement string is not modelled. The default `-` has none.
- Extensions.FirstDigit: `isdigit` is modelled for ASCII digits only; Python also accepts other Unicode digits.
- PyStr.Lower: lowers ASCII letters only. This is exact for `slugify`, which lowers after dropping non-ASCII characters, and for the skip prompt, where only `y` and `Y` lower to a string starting with `y`.
- SetupGithub.NeedsSafeDirectory: the entries are not stripped one by one, because the code strips only the whole output. An entry written with a leading blank on a later line, such as `" /repo"`, does not match `/repo`.
- SetupGithub.ListingRoundTrip: assumes git prints each value followed by a newline and fails on an empty list. That is git's behaviour, not something the script checks.
- SetupGithub.ExtendPath: `os.pathsep` is fixed to `;`, the Windows value, because only the Windows branch extends PATH. The shims path from `os.path.join(os.path.expanduser('~'), 'scoop', 'shims')` is an input.
- Pyproject.ParsePyproject: the value is taken from whichever line first contains `"<key> = "`. Like the code, the model does no TOML parsing, so a key in any table, or a key that ends another key's name, matches too.
