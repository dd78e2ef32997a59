# fpm catalog triage, modelled in Dafny

Two scripts read a Markdown catalog of Fortran projects, one line at a time.
They probe each project's repository for a package manifest and print the
lines whose manifest exists. `xfpm.py` prints an unsorted listing. `xfpm_c.py`
regroups the listing by topic section and sorts every section but the last. This project
models both scripts' logic and proves what they print.

- **Network.** A HEAD request is a function `Network = string -> HeadResult`
  from an address to either the final response status or the message of the
  exception raised (`Probe`). `check_url_exists` is modelled exactly on top of
  that function. The module's name for "the address answers with a 2xx
  status" is `Reachable`.
- **Standard output.** Output is a `seq<string>` holding the argument of each
  `print` call. `print`'s own trailing line feed is implied. The
  `"".join([line, "\n"])` idiom gives `line + "\n"`.
- **Link extraction.** `re.search(r"\[.*?\]\((.*?)\)", text)` is modelled by
  `LinkPattern` with the semantics of Python's backtracking matcher. The match
  is the lexicographically least (start, `](`, `)`) triple.
  `.` matches anything but a line feed.
- **Line handling.** `xfpm_c.py` strips its lines with Python's full
  `str.isspace` set. `xfpm.py` uses each line as read, line terminator
  included. A terminating `\n` can never be inside a match, so the terminator
  changes nothing about the match.
- **Sorting.** `sorted(key=str.casefold)` is a stable sort by code-point order
  of the key. It is modelled as a stable insertion sort, which gives the same
  list. It is proved sorted, a permutation of its input, and stable.
- **The loops.** `xfpm_c.py`'s `triage_lines` is an imperative method
  (`TopicReport.TriageLines`) proved equal to a fold of a one-line step
  function. The properties of the report are proved as lemmas about that fold.
  In the same way, `xfpm.py`'s loop (`FlatReport.FileReader`) is proved equal
  to a filter, `Listing`.

Only the last section of `xfpm_c.py`'s report is printed in register order.
Every other section is sorted (`FinalFlush` vs `Flush`). The model keeps this
as written.

The `-t` option's help text speaks of "125 lines output". The code keeps the
first 300 input lines (`max_lines = 300`), and the model follows the code.

## Model

| member | source | states |
|---|---|---|
| TopicReport.Checker | xfpm_c.py:109-124 | `checker`; its contract is carried by CheckerWithoutLink and CheckerOnProjectLine |
| TopicReport.Survivors | xfpm_c.py:158-162 | `affirmative_tests`; its contract is carried by SurvivorsInOrder, SurvivorsExactly and CheckEntries |
| TopicReport.SurvivorsInOrder | xfpm_c.py:158-162 | the survivors are one result per passing register entry, in register order: the entry's line plus a line feed, at strictly increasing register indices, every passing index included (an entry queued twice survives twice) |
| TopicReport.Flush | xfpm_c.py:153-168 | the flush at a section heading; its contract is carried by FlushIsSortedSection, FlushMembers and FlushComplete |
| TopicReport.Step | xfpm_c.py:138-170 | one pass of the loop body; its contract is carried by StepAtHeading, StepAtEcho, StepAtProject and StepAtOther |
| TopicReport.Fold | xfpm_c.py:138-170 | the loop state after each line; its contract is carried by RegisterHoldsPendingProjects, FoldSound and FoldComplete |
| TopicReport.Report | xfpm_c.py:133-186 | everything `triage_lines` prints; its contract is carried by ProjectReportedIff, ReportAccounted, EchoLinesReported and TriageLines |
| FlatReport.Printed | xfpm.py:57-73 | whether the loop prints a line; its contract is carried by PrintedProjectLine and KeptDependsOnlyOnProbes |
| FlatReport.Kept | xfpm.py:54-73 | the printed lines in order; its contract is carried by KeptIsOrderedSelection and KeptDependsOnlyOnProbes |
| FlatReport.Listing | xfpm.py:54-73 | everything `file_reader` prints; its contract is carried by ListingPrintsExactly, ListingIgnoresTail and FileReader |
| Probe.HasFpmManifest | xfpm_c.py:112-121 | the reporting condition (also xfpm.py:61-71); its contract is carried by CheckerWithoutLink, CheckerOnProjectLine and PrintedProjectLine |
| LinkPattern.Search | xfpm_c.py:112 | `re.search`; its contract is carried by SearchIsLeastMatch |
| LinkPattern.Target | xfpm_c.py:112-114 | `match.group(1) if match else None`; its contract is carried by TargetIsGroup, ProjectLineTarget and NoBracketNoTarget |
| Sorting.SortByKey | xfpm_c.py:165 | `sorted(key=...)`; its contract is carried by SortByKeySorts, SortByKeyStable and SortByKeyMembers |
| Strings.Casefold | xfpm_c.py:165 | the sort key keeps the length, maps each of A..Z to the matching a..z, and changes no other character (ASCII only, see Left out) |
| Strings.StartsWith | xfpm_c.py:140-151 | `str.startswith` (also xfpm.py:57); its meaning for the loop's tests is carried by TopicReport.PrefixesExclusive |
| Strings.LexLessEq | xfpm_c.py:165 | Python's `<=` on strings, the order `sorted` uses; its contract is carried by LexReflexive, LexTotal, LexTransitive and LexAntisymmetric |
| TopicReport.Echo | xfpm_c.py:140-143 | what a line echoes; its contract is carried by StepAtEcho, StepAtHeading, StepAtProject and StepAtOther |
| TopicReport.IsSectionHeading | xfpm_c.py:151-152 | a `##` line other than the catalog heading; its contract is carried by PrefixesExclusive and StepAtHeading |
| TopicReport.IsProject | xfpm_c.py:147 | a `[` line; its contract is carried by PrefixesExclusive and StepAtProject |
| FlatReport.IsMarker | xfpm.py:57 | a `*` or `##` line; its contract is carried by ListingPrintsExactly and KeptDependsOnlyOnProbes |
| Probe.Reachable | xfpm_c.py:120-121 | the `exists` flag (also xfpm.py:70-71); its contract is carried by Probe.CheckUrlExists |
| Strings.IsSpace | xfpm_c.py:90 | the characters `strip()` removes; its contract is carried by Strip, StripsToUnique and StripIdempotent |
| Probe.CheckUrlExists | xfpm_c.py:72-83 | success exactly when the request returned a status in 200..299; the status is returned in both cases, the exception text when the request failed (the same function as xfpm.py:32-43) |
| Probe.ProbeAddress | xfpm_c.py:119 | the probed address is the extracted target followed by exactly `/blob/master/fpm.toml` (also xfpm.py:69) |
| Probe.ProbeAddressRoundTrip | xfpm_c.py:119 | removing the manifest suffix gives back the target, and any address that yields a target is that target's probe address |
| LinkPattern.FirstCloseIsLeast | xfpm_c.py:112 | the lazy `(.*?)\)` stops at the first `)` with no line feed before it, and finds none when no such `)` exists |
| LinkPattern.FindBracketIsLeast | xfpm_c.py:112 | from a `[`, the lazy `.*?\]\(` takes the first `](` that has a later `)`; no earlier `](` completes a match |
| LinkPattern.SearchFromIsLeast | xfpm_c.py:112 | the search from a position returns the leftmost matching start with its least `](` and `)`, or none when no match starts there or later |
| LinkPattern.SearchIsLeastMatch | xfpm_c.py:112 | `re.search` reports the leftmost-lazy match, and reports nothing exactly when no match exists (also xfpm.py:61) |
| LinkPattern.LeastMatchUnique | xfpm_c.py:112 | the leftmost-lazy match is unique |
| LinkPattern.TargetIsGroup | xfpm_c.py:112-114 | the extracted address is None exactly when nothing matches; otherwise it is group 1 of the leftmost-lazy match (also xfpm.py:61-63) |
| LinkPattern.ProjectLineTarget | xfpm_c.py:112-114 | for a line `[name](url)` plus anything, with no `]` in name and no `)` in url, the target is exactly url |
| LinkPattern.NoBracketNoTarget | xfpm_c.py:112-114 | a line with no `[` yields no target |
| Strings.FirstNonSpace | xfpm_c.py:90 | the first non-whitespace index, with only whitespace before it |
| Strings.LastNonSpace | xfpm_c.py:90 | the end of the text once trailing whitespace is dropped, with only whitespace after it |
| Strings.Strip | xfpm_c.py:90 | `strip()` removes a whitespace prefix and suffix and leaves no whitespace at either end |
| Strings.StripsToUnique | xfpm_c.py:90 | there is only one way to strip a line |
| Strings.StripIdempotent | xfpm_c.py:90 | stripping a stripped line changes nothing |
| Strings.CasefoldChar | xfpm_c.py:165 | the sort key lower-cases A..Z and leaves every other character alone |
| Strings.LexReflexive | xfpm_c.py:165 | the string order used by `sorted` is reflexive |
| Strings.LexTotal | xfpm_c.py:165 | the string order is total |
| Strings.LexTransitive | xfpm_c.py:165 | the string order is transitive |
| Strings.LexAntisymmetric | xfpm_c.py:165 | the string order is antisymmetric |
| Sorting.InsertPermutes | xfpm_c.py:165 | one insertion step adds exactly the inserted element |
| Sorting.InsertSorted | xfpm_c.py:165 | inserting into a sorted list keeps it sorted by key |
| Sorting.InsertStable | xfpm_c.py:165 | the inserted element goes after every element with an equal key |
| Sorting.SortByKeySorts | xfpm_c.py:165 | `sorted(..., key=...)` is ordered by key and is a permutation of its input |
| Sorting.SortByKeyStable | xfpm_c.py:165 | elements with equal keys keep their input order |
| Sorting.SortByKeyMembers | xfpm_c.py:165 | sorting keeps exactly the elements it was given |
| TopicReport.FileReader | xfpm_c.py:89-95 | every line stripped, in input order; the length is min(n, 300) in a test run and n otherwise |
| TopicReport.TestRunIsPrefix | xfpm_c.py:89-95 | a test run reads a prefix of a full run, and the lines read are already stripped |
| TopicReport.CheckerWithoutLink | xfpm_c.py:112-115 | `checker` returns None for a line with no `[..](..)` match |
| TopicReport.CheckerOnProjectLine | xfpm_c.py:112-124 | for `[name](url) ...`, `checker` returns the line plus a line feed exactly when url is non-empty and url + `/blob/master/fpm.toml` answers 2xx, and None otherwise |
| TopicReport.SurvivorsExactly | xfpm_c.py:158-162 | `affirmative_tests` holds exactly the register entries whose manifest exists, each with a line feed |
| TopicReport.FlushIsSortedSection | xfpm_c.py:153-168 | a section flush prints nothing when no entry passes; otherwise the old title, then the passing entries as a casefold-sorted, stable permutation |
| TopicReport.FinalFlush | xfpm_c.py:174-186 | the last-line flush prints nothing when no entry passes; otherwise the title, then the passing entries in register order, unsorted |
| TopicReport.PrefixesExclusive | xfpm_c.py:140-151 | a `##` line is never queued or echoed as `* [`; a `* [` line is never queued; the catalog heading starts with `##` |
| TopicReport.StepAtHeading | xfpm_c.py:151-170 | a qualifying `##` heading flushes the register under the old title, empties the register and becomes the title |
| TopicReport.StepAtEcho | xfpm_c.py:140-152 | the catalog heading and `* [` lines are echoed and change neither the register nor the title |
| TopicReport.StepAtProject | xfpm_c.py:147-148 | a `[` line is queued and prints nothing |
| TopicReport.StepAtOther | xfpm_c.py:138-170 | every other line changes nothing |
| TopicReport.SectionStart | xfpm_c.py:151-170 | the position after the last qualifying heading, with no qualifying heading after it |
| TopicReport.RegisterHoldsPendingProjects | xfpm_c.py:135-170 | the register is exactly the `[` lines since the last qualifying heading; the title is that heading, or "" before the first |
| TopicReport.FoldSound | xfpm_c.py:138-170 | everything printed so far is an echoed line, a section title or a passing project line; the register holds only input `[` lines |
| TopicReport.FoldComplete | xfpm_c.py:138-170 | every echo line has been printed, and every passing project line is printed or still queued |
| TopicReport.FlushMembers | xfpm_c.py:158-186 | a flush prints only the title and passing register entries |
| TopicReport.FlushComplete | xfpm_c.py:158-186 | a flush prints every passing register entry |
| TopicReport.ProjectReportedIff | xfpm_c.py:133-186 | a `[` line is printed exactly when it occurs in the input and its manifest exists |
| TopicReport.ReportAccounted | xfpm_c.py:133-186 | every printed element is an input line plus a line feed that may be printed, or the empty initial title |
| TopicReport.EchoLinesReported | xfpm_c.py:140-143 | every catalog heading and `* [` line of the input is printed |
| TopicReport.CheckEntries | xfpm_c.py:158-162 | the inner loop collects exactly the survivors, in register order |
| TopicReport.FlushSection | xfpm_c.py:153-168 | prints exactly the sorted section flush |
| TopicReport.FinalSection | xfpm_c.py:174-186 | prints exactly the last-line flush |
| TopicReport.TriageLines | xfpm_c.py:133-186 | the loop prints exactly the report defined by the step function and the final flush |
| FlatReport.PrintedProjectLine | xfpm.py:61-73 | `[name](url) ...` is printed exactly when url is non-empty and url + `/blob/master/fpm.toml` answers 2xx |
| FlatReport.Cutoff | xfpm.py:49-56 | the loop handles min(n, max_lines + 1) lines |
| FlatReport.KeptIsOrderedSelection | xfpm.py:54-73 | the kept lines are exactly the printable lines, in increasing index order |
| FlatReport.ListingPrintsExactly | xfpm.py:54-73 | the output is, in input order, exactly those lines with index 0..max_lines that are markers or whose manifest exists |
| FlatReport.ListingIgnoresTail | xfpm.py:49-56 | lines after index max_lines never affect the output |
| FlatReport.KeptDependsOnlyOnProbes | xfpm.py:57-71 | markers are printed without a probe; only the probe addresses of non-marker lines with a non-empty target are consulted |
| FlatReport.FileReader | xfpm.py:47-78 | the loop with its `break` and `continue` prints exactly `Listing` |

## Left out

- HTTP itself (`requests.head`, the 5-second timeout, redirect following) is external I/O. Only the final status, or the exception's message, enters the model, through the `Network` function.
- `Network` is a function, so one address always gets the same answer within a run. A line queued twice, or two lines with the same target, see the same verdict; for example, the "exactly when" of TopicReport.ProjectReportedIff relies on this. A real server may answer repeated requests differently.
- xfpm.py:35 sets no timeout, so a probe there can block forever. The model assumes every probe returns.
- The `Retry`/`HTTPAdapter` session at xfpm_c.py:66-70 is not modelled: `requests.head` does not use it, so it has no effect.
- Command-line parsing (`get_args`), file opening, `perf_counter` timing, the date stamp, `PYTHONIOENCODING` and `main` are process plumbing and are not modelled.
- The model describes a run without `-d`. With `-d`, `file_reader`, `checker` and `triage_lines` print extra lines to stdout (xfpm_c.py:97-104, 116-118, 155-156, 175-176); those are not modelled. The `print(fpm_link)` at xfpm_c.py:129-130 is unreachable with or without `-d`, because the `try` before it always returns.
- Output encoding is not modelled: every `print` is taken to succeed. What that loses:
  - In xfpm.py:72-76, a project line that stdout cannot encode is replaced by "An encoding error occurred: …" followed by the error.
  - The marker print at xfpm.py:58 is unguarded, so a `*` or `##` line that stdout cannot encode would abort the run.
  - In xfpm_c.py the prints at lines 141, 143, 164, 167, 184 and 186 are unguarded, so such a line would abort the run.
  - The handler in `checker` (xfpm_c.py:122-128) guards only a string join, which cannot raise that error, so it never fires.
- Strings.CasefoldChar, Strings.Casefold: only ASCII letters are folded, not full Unicode `str.casefold` (for example `ß` to `ss`).
