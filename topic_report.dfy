/**
 * xfpm_c.py: the report of manifest-bearing projects organised by topic.
 * The catalog is read and stripped line by line; project lines are held in
 * a register until the next section heading, then probed, and the ones that
 * pass are printed under the title of the section they belong to.
 *
 * Standard output is a sequence holding the argument of each `print` call
 * (print's own trailing line feed is implied, not stored).
 */
module TopicReport {
  import opened Optional
  import opened Strings
  import opened Sorting
  import opened Probe
  import LinkPattern

  /** Lines kept in a test run. */
  const TestLines := 300

  /** The heading that introduces the catalog; it is echoed but does not open a section. */
  const CatalogHeading := "## Fortran code on GitHub"

  /** `file_reader`: every raw line stripped, in order; a test run keeps only the first 300. */
  function FileReader(infile: seq<string>, test: bool): (rawData: seq<string>)
    ensures |rawData| == if test && |infile| > TestLines then TestLines else |infile|
    ensures forall m :: 0 <= m < |rawData| ==> rawData[m] == Strip(infile[m])
  {
    var stripped := seq(|infile|, m requires 0 <= m < |infile| => Strip(infile[m]));
    if test && |stripped| > TestLines then stripped[..TestLines] else stripped
  }

  /** A test run reads a prefix of what a full run reads, and every line it reads is already stripped. */
  lemma TestRunIsPrefix(infile: seq<string>)
    ensures FileReader(infile, true) == FileReader(infile, false)[..|FileReader(infile, true)|]
    ensures forall m :: 0 <= m < |FileReader(infile, false)| ==>
      Strip(FileReader(infile, false)[m]) == FileReader(infile, false)[m]
  {
    var full := FileReader(infile, false);
    forall m | 0 <= m < |full| ensures Strip(full[m]) == full[m] {
      StripIdempotent(infile[m]);
    }
  }

  /** `checker(text)`: the line followed by a line feed when its manifest exists, else None. */
  function Checker(text: string, net: Network): Option<string> {
    if HasFpmManifest(text, net) then Some(text + "\n") else None
  }

  /** A line with no `[..](..)` match is never reported. */
  lemma CheckerWithoutLink(text: string, net: Network)
    requires forall i, j, k :: !LinkPattern.Matches(text, i, j, k)
    ensures Checker(text, net) == None
  {
    LinkPattern.TargetIsGroup(text);
  }

  /**
   * For a catalog project line `[name](url) description`, the checker
   * probes exactly url + "/blob/master/fpm.toml" and reports the line when
   * the url is not empty and that address answers with a 2xx status.
   */
  lemma CheckerOnProjectLine(name: string, url: string, rest: string, net: Network)
    requires forall m :: 0 <= m < |name| ==> name[m] != ']' && name[m] != '\n'
    requires forall m :: 0 <= m < |url| ==> url[m] != ')' && url[m] != '\n'
    ensures var line := "[" + name + "](" + url + ")" + rest;
      Checker(line, net) == if url != "" && Reachable(net, url + ManifestPath) then Some(line + "\n") else None
  {
    LinkPattern.ProjectLineTarget(name, url, rest);
  }

  /** `affirmative_tests`: the checker's results for the register entries that pass, in order. */
  function Survivors(register: seq<string>, net: Network): seq<string>
    decreases |register|
  {
    if register == [] then []
    else
      var last := register[|register| - 1];
      Survivors(register[..|register| - 1], net)
      + (match Checker(last, net) case Some(t) => [t] case None => [])
  }

  /** The survivors are exactly the passing register entries, each with a line feed appended. */
  lemma {:induction false} SurvivorsExactly(register: seq<string>, net: Network)
    ensures forall e :: e in register && HasFpmManifest(e, net) ==> e + "\n" in Survivors(register, net)
    ensures forall t :: t in Survivors(register, net) ==>
      exists e :: e in register && HasFpmManifest(e, net) && t == e + "\n"
    ensures |Survivors(register, net)| <= |register|
    decreases |register|
  {
    if register != [] {
      var init := register[..|register| - 1];
      SurvivorsExactly(init, net);
      assert register == init + [register[|register| - 1]];
    }
  }

  /** The indices of the register entries whose manifest exists, in order. */
  function PassingIndices(register: seq<string>, net: Network): seq<nat>
    decreases |register|
  {
    if register == [] then []
    else
      PassingIndices(register[..|register| - 1], net)
      + (if HasFpmManifest(register[|register| - 1], net) then [|register| - 1] else [])
  }

  /**
   * The survivors are an ordered selection: one result per passing entry,
   * in register order, so an entry queued twice survives twice.
   */
  lemma {:induction false} SurvivorsInOrder(register: seq<string>, net: Network)
    ensures var idx, tests := PassingIndices(register, net), Survivors(register, net);
      && |idx| == |tests|
      && (forall m :: 0 <= m < |idx| ==>
            idx[m] < |register| && tests[m] == register[idx[m]] + "\n" && HasFpmManifest(register[idx[m]], net))
      && (forall m, m' :: 0 <= m < m' < |idx| ==> idx[m] < idx[m'])
      && (forall i :: 0 <= i < |register| && HasFpmManifest(register[i], net) ==> i in idx)
    decreases |register|
  {
    if register != [] {
      var init := register[..|register| - 1];
      SurvivorsInOrder(init, net);
      assert forall i :: 0 <= i < |init| ==> init[i] == register[i];
    }
  }

  /** What `triage_lines` prints when a section heading flushes the register. */
  function Flush(register: seq<string>, title: string, net: Network): seq<string> {
    var tests := Survivors(register, net);
    if tests == [] then [] else [title + "\n"] + SortByKey(Casefold, tests)
  }

  /**
   * A flush prints nothing when no entry passes; otherwise the section title,
   * then the passing entries as a permutation of them sorted by casefold key,
   * entries with equal keys in register order.
   */
  lemma FlushIsSortedSection(register: seq<string>, title: string, net: Network)
    ensures var r := Flush(register, title, net);
      && (r == [] <==> Survivors(register, net) == [])
      && (r != [] ==> r[0] == title + "\n" && SortedBy(Casefold, r[1..]))
      && (r != [] ==> multiset(r[1..]) == multiset(Survivors(register, net)))
      && (r != [] ==> forall k :: WithKey(Casefold, r[1..], k) == WithKey(Casefold, Survivors(register, net), k))
  {
    var tests := Survivors(register, net);
    if tests != [] {
      var r := Flush(register, title, net);
      assert r[1..] == SortByKey(Casefold, tests);
      SortByKeySorts(Casefold, tests);
      forall k ensures WithKey(Casefold, r[1..], k) == WithKey(Casefold, tests, k) {
        SortByKeyStable(Casefold, tests, k);
      }
    }
  }

  /** What `triage_lines` prints at the last line: the title, then the survivors in register order. */
  function FinalFlush(register: seq<string>, title: string, net: Network): (r: seq<string>)
    ensures r == [] <==> Survivors(register, net) == []
    ensures r != [] ==> r[0] == title + "\n" && r[1..] == Survivors(register, net)
  {
    var tests := Survivors(register, net);
    if tests == [] then [] else [title + "\n"] + tests
  }

  /** A heading that opens a new section. */
  predicate IsSectionHeading(line: string) {
    StartsWith(line, "##") && !StartsWith(line, CatalogHeading)
  }

  /** A line that names a project to probe. */
  predicate IsProject(line: string) {
    StartsWith(line, "[")
  }

  /** What `triage_lines` echoes for a line before any section work. */
  function Echo(line: string): seq<string> {
    (if StartsWith(line, CatalogHeading) then [line + "\n"] else [])
    + (if StartsWith(line, "* [") then [line + "\n"] else [])
  }

  /** The loop state of `triage_lines`. */
  datatype Triage = Triage(register: seq<string>, title: string, out: seq<string>)

  /** One pass of the `triage_lines` loop body, before the last-line check. */
  function Step(st: Triage, line: string, net: Network): Triage {
    var out := st.out + Echo(line);
    var register := if IsProject(line) then st.register + [line] else st.register;
    if IsSectionHeading(line) then Triage([], line, out + Flush(register, st.title, net))
    else Triage(register, st.title, out)
  }

  /** The prefixes the loop tests exclude one another, except that the catalog heading starts with "##". */
  lemma PrefixesExclusive(line: string)
    ensures StartsWith(line, CatalogHeading) ==> StartsWith(line, "##")
    ensures StartsWith(line, "##") ==> !StartsWith(line, "[") && !StartsWith(line, "* [")
    ensures StartsWith(line, "* [") ==> !StartsWith(line, "[")
  {
    if StartsWith(line, CatalogHeading) {
      assert line[..2] == line[..|CatalogHeading|][..2];
    }
    if StartsWith(line, "##") {
      assert line[0] == '#';
    }
    if StartsWith(line, "* [") {
      assert line[0] == '*';
    }
  }

  /** A section heading flushes the register under the old title and becomes the title. */
  lemma StepAtHeading(st: Triage, line: string, net: Network)
    requires IsSectionHeading(line)
    ensures Step(st, line, net) == Triage([], line, st.out + Flush(st.register, st.title, net))
  {
    PrefixesExclusive(line);
    assert !IsProject(line) && !StartsWith(line, "* [");
    assert Echo(line) == [];
    assert st.out + Echo(line) == st.out;
  }

  /** The catalog heading and `* [` lines are echoed; register and title are untouched. */
  lemma StepAtEcho(st: Triage, line: string, net: Network)
    requires StartsWith(line, CatalogHeading) || StartsWith(line, "* [")
    ensures Step(st, line, net) == Triage(st.register, st.title, st.out + [line + "\n"])
  {
    PrefixesExclusive(line);
    assert Echo(line) == [line + "\n"];
  }

  /** A project line is queued and nothing is printed. */
  lemma StepAtProject(st: Triage, line: string, net: Network)
    requires IsProject(line)
    ensures Step(st, line, net) == Triage(st.register + [line], st.title, st.out)
  {
    PrefixesExclusive(line);
    assert Echo(line) == [];
  }

  /** Any other line changes nothing. */
  lemma StepAtOther(st: Triage, line: string, net: Network)
    requires !StartsWith(line, "##") && !StartsWith(line, "* [") && !IsProject(line)
    ensures Step(st, line, net) == st
  {
    PrefixesExclusive(line);
    assert Echo(line) == [];
  }

  /** The state after the loop body has run on every line (without the last-line flush). */
  function Fold(lines: seq<string>, net: Network): Triage
    decreases |lines|
  {
    if lines == [] then Triage([], "", [])
    else Step(Fold(lines[..|lines| - 1], net), lines[|lines| - 1], net)
  }

  /** Everything `triage_lines` prints. */
  function Report(lines: seq<string>, net: Network): seq<string> {
    if lines == [] then []
    else
      var st := Fold(lines, net);
      st.out + FinalFlush(st.register, st.title, net)
  }

  /** The index just after the last section heading of lines, or 0 when there is none. */
  function SectionStart(lines: seq<string>): (p: nat)
    ensures p <= |lines|
    ensures 0 < p ==> IsSectionHeading(lines[p - 1])
    ensures forall m :: p <= m < |lines| ==> !IsSectionHeading(lines[m])
    decreases |lines|
  {
    if lines == [] then 0
    else if IsSectionHeading(lines[|lines| - 1]) then |lines|
    else SectionStart(lines[..|lines| - 1])
  }

  /** The project lines of lines, in order. */
  function Projects(lines: seq<string>): seq<string>
    decreases |lines|
  {
    if lines == [] then []
    else Projects(lines[..|lines| - 1]) + (if IsProject(lines[|lines| - 1]) then [lines[|lines| - 1]] else [])
  }

  lemma ProjectsSnoc(xs: seq<string>, line: string)
    ensures Projects(xs + [line]) == Projects(xs) + (if IsProject(line) then [line] else [])
  {
    assert (xs + [line])[..|xs|] == xs;
  }

  /** Where the last section starts, once one more line that is not a section heading is read. */
  lemma SectionStartSnoc(init: seq<string>, line: string)
    requires !IsSectionHeading(line)
    ensures SectionStart(init + [line]) == SectionStart(init)
    ensures (init + [line])[SectionStart(init)..] == init[SectionStart(init)..] + [line]
    ensures 0 < SectionStart(init) ==> (init + [line])[SectionStart(init) - 1] == init[SectionStart(init) - 1]
  {
    assert (init + [line])[..|init|] == init;
  }

  /**
   * The register always holds exactly the project lines read since the last
   * section heading, and the title is that heading ("" before the first one).
   */
  lemma {:induction false} RegisterHoldsPendingProjects(lines: seq<string>, net: Network)
    ensures Fold(lines, net).register == Projects(lines[SectionStart(lines)..])
    ensures Fold(lines, net).title == if SectionStart(lines) == 0 then "" else lines[SectionStart(lines) - 1]
    decreases |lines|
  {
    if lines != [] {
      var init, line := lines[..|lines| - 1], lines[|lines| - 1];
      assert lines == init + [line];
      var st := Fold(init, net);
      RegisterHoldsPendingProjects(init, net);
      assert Fold(lines, net) == Step(st, line, net);
      if IsSectionHeading(line) {
        StepAtHeading(st, line, net);
        assert lines[|lines|..] == [];
      } else {
        var p := SectionStart(init);
        SectionStartSnoc(init, line);
        ProjectsSnoc(init[p..], line);
        PrefixesExclusive(line);
        if StartsWith(line, CatalogHeading) || StartsWith(line, "* [") {
          StepAtEcho(st, line, net);
        } else if IsProject(line) {
          StepAtProject(st, line, net);
        } else {
          StepAtOther(st, line, net);
        }
      }
    }
  }

  /** A line the report may print, followed by a line feed. */
  ghost predicate Emittable(line: string, net: Network) {
    StartsWith(line, CatalogHeading) || StartsWith(line, "* [") || IsSectionHeading(line)
    || (IsProject(line) && HasFpmManifest(line, net))
  }

  /** What a printed element may be: the empty initial title, or an emittable input line plus a line feed. */
  ghost predicate Accounted(e: string, lines: seq<string>, net: Network) {
    e == "\n" || exists l :: l in lines && Emittable(l, net) && e == l + "\n"
  }

  lemma FlushMembers(register: seq<string>, title: string, net: Network, e: string)
    requires e in Flush(register, title, net) || e in FinalFlush(register, title, net)
    ensures e == title + "\n" || exists l :: l in register && HasFpmManifest(l, net) && e == l + "\n"
  {
    var tests := Survivors(register, net);
    SurvivorsExactly(register, net);
    if e != title + "\n" {
      SortByKeyMembers(Casefold, tests, e);
      assert e in tests;
    }
  }

  lemma FlushComplete(register: seq<string>, title: string, net: Network, l: string)
    requires l in register && HasFpmManifest(l, net)
    ensures l + "\n" in Flush(register, title, net) && l + "\n" in FinalFlush(register, title, net)
  {
    var tests := Survivors(register, net);
    SurvivorsExactly(register, net);
    SortByKeyMembers(Casefold, tests, l + "\n");
  }

  /** Everything the loop has printed is accounted for; the register and title come from the input. */
  lemma {:induction false} FoldSound(lines: seq<string>, net: Network)
    ensures forall e :: e in Fold(lines, net).out ==> Accounted(e, lines, net)
    ensures forall e :: e in Fold(lines, net).register ==> e in lines && IsProject(e)
    ensures Fold(lines, net).title == "" || (Fold(lines, net).title in lines && IsSectionHeading(Fold(lines, net).title))
    decreases |lines|
  {
    if lines != [] {
      var init, line := lines[..|lines| - 1], lines[|lines| - 1];
      var st := Fold(init, net);
      FoldSound(init, net);
      assert Fold(lines, net) == Step(st, line, net);
      assert forall l :: l in init ==> l in lines;
      forall e | e in st.out ensures Accounted(e, lines, net) {
        assert Accounted(e, init, net);
      }
      PrefixesExclusive(line);
      if IsSectionHeading(line) {
        StepAtHeading(st, line, net);
        forall e | e in Flush(st.register, st.title, net) ensures Accounted(e, lines, net) {
          FlushMembers(st.register, st.title, net, e);
          if e == st.title + "\n" && st.title != "" {
            assert Emittable(st.title, net);
          }
        }
      } else if StartsWith(line, CatalogHeading) || StartsWith(line, "* [") {
        StepAtEcho(st, line, net);
        assert Emittable(line, net);
      } else if IsProject(line) {
        StepAtProject(st, line, net);
      } else {
        StepAtOther(st, line, net);
      }
    }
  }

  /** Every echoed line has been printed, and every passing project line is printed or still queued. */
  lemma {:induction false} FoldComplete(lines: seq<string>, net: Network)
    ensures forall l :: l in lines && (StartsWith(l, CatalogHeading) || StartsWith(l, "* [")) ==>
      l + "\n" in Fold(lines, net).out
    ensures forall l :: l in lines && IsProject(l) && HasFpmManifest(l, net) ==>
      l in Fold(lines, net).register || l + "\n" in Fold(lines, net).out
    decreases |lines|
  {
    if lines != [] {
      var init, line := lines[..|lines| - 1], lines[|lines| - 1];
      var st := Fold(init, net);
      FoldComplete(init, net);
      assert Fold(lines, net) == Step(st, line, net);
      assert forall l :: l in lines ==> l in init || l == line;
      PrefixesExclusive(line);
      if IsSectionHeading(line) {
        StepAtHeading(st, line, net);
        forall l | l in st.register && HasFpmManifest(l, net) ensures l + "\n" in Fold(lines, net).out {
          FlushComplete(st.register, st.title, net, l);
        }
      } else if StartsWith(line, CatalogHeading) || StartsWith(line, "* [") {
        StepAtEcho(st, line, net);
      } else if IsProject(line) {
        StepAtProject(st, line, net);
      } else {
        StepAtOther(st, line, net);
      }
    }
  }

  lemma LineFeedInjective(a: string, b: string)
    requires a + "\n" == b + "\n"
    ensures a == b
  {
    assert a == (a + "\n")[..|a|];
  }

  /**
   * A project line is reported exactly when it occurs in the input and its
   * manifest exists: nothing passing is lost at a section boundary or at the
   * end, and nothing failing is printed.
   */
  lemma ProjectReportedIff(lines: seq<string>, net: Network, l: string)
    requires IsProject(l)
    ensures l + "\n" in Report(lines, net) <==> l in lines && HasFpmManifest(l, net)
  {
    var e := l + "\n";
    PrefixesExclusive(l);
    if lines != [] {
      var st := Fold(lines, net);
      FoldSound(lines, net);
      FoldComplete(lines, net);
      assert Report(lines, net) == st.out + FinalFlush(st.register, st.title, net);
      if e in Report(lines, net) {
        assert e != "\n" by { assert |e| == |l| + 1 > 1; }
        if e in st.out {
          assert Accounted(e, lines, net);
          var k :| k in lines && Emittable(k, net) && e == k + "\n";
          LineFeedInjective(k, l);
        } else {
          PrefixesExclusive(st.title);
          assert st.title != l;
          assert e != st.title + "\n" by {
            if e == st.title + "\n" { LineFeedInjective(l, st.title); }
          }
          FlushMembers(st.register, st.title, net, e);
          var k :| k in st.register && HasFpmManifest(k, net) && e == k + "\n";
          LineFeedInjective(k, l);
        }
      }
      if l in lines && HasFpmManifest(l, net) && l in st.register {
        FlushComplete(st.register, st.title, net, l);
      }
    }
  }

  /**
   * Everything the report prints is an input line followed by a line feed
   * (an echoed line, a section title, or a project line whose manifest
   * exists), or the empty title of the lines before the first section.
   */
  lemma ReportAccounted(lines: seq<string>, net: Network, e: string)
    requires e in Report(lines, net)
    ensures Accounted(e, lines, net)
  {
    var st := Fold(lines, net);
    FoldSound(lines, net);
    if e !in st.out {
      FlushMembers(st.register, st.title, net, e);
      if e == st.title + "\n" && st.title != "" {
        assert Emittable(st.title, net);
      }
    }
  }

  /** The catalog heading and every `* [` line are echoed. */
  lemma EchoLinesReported(lines: seq<string>, net: Network, l: string)
    requires l in lines && (StartsWith(l, CatalogHeading) || StartsWith(l, "* ["))
    ensures l + "\n" in Report(lines, net)
  {
    FoldComplete(lines, net);
  }

  /** The inner `for entry in intermediate_register` loop. */
  method CheckEntries(register: seq<string>, net: Network) returns (affirmativeTests: seq<string>)
    ensures affirmativeTests == Survivors(register, net)
  {
    affirmativeTests := [];
    for m := 0 to |register|
      invariant affirmativeTests == Survivors(register[..m], net)
    {
      assert register[..m + 1][..m] == register[..m];
      var test := Checker(register[m], net);
      if test.Some? {
        affirmativeTests := affirmativeTests + [test.value];
      }
    }
    assert register[..|register|] == register;
  }

  /** `triage_lines`, the flush at a section heading: check the register and print the passing entries, sorted, under the title. */
  method FlushSection(register: seq<string>, title: string, net: Network) returns (printed: seq<string>)
    ensures printed == Flush(register, title, net)
  {
    printed := [];
    var affirmativeTests := CheckEntries(register, net);
    if affirmativeTests != [] {
      printed := printed + [title + "\n"];
      affirmativeTests := SortByKey(Casefold, affirmativeTests);
      printed := printed + affirmativeTests;
    }
  }

  /** `triage_lines`, the flush at the last line: check the register and print the passing entries, in order, under the title. */
  method FinalSection(register: seq<string>, title: string, net: Network) returns (printed: seq<string>)
    ensures printed == FinalFlush(register, title, net)
  {
    printed := [];
    var affirmativeTests := CheckEntries(register, net);
    if affirmativeTests != [] {
      printed := printed + [title + "\n"];
      printed := printed + affirmativeTests;
    }
  }

  /** `triage_lines(raw_data)` */
  method TriageLines(rawData: seq<string>, net: Network) returns (out: seq<string>)
    ensures out == Report(rawData, net)
  {
    var previousSectionTitle := "";
    var intermediateRegister: seq<string> := [];
    out := [];
    for i := 0 to |rawData|
      invariant i < |rawData| || i == 0 ==>
        Fold(rawData[..i], net) == Triage(intermediateRegister, previousSectionTitle, out)
      invariant 0 < i == |rawData| ==> out == Report(rawData, net)
    {
      ghost var before := Triage(intermediateRegister, previousSectionTitle, out);
      var line := rawData[i];
      PrefixesExclusive(line);
      if StartsWith(line, CatalogHeading) {
        out := out + [line + "\n"];
      }
      if StartsWith(line, "* [") {
        out := out + [line + "\n"];
      }
      if StartsWith(line, "[") {
        intermediateRegister := intermediateRegister + [line];
      }
      if StartsWith(line, "##") {
        if !StartsWith(line, CatalogHeading) {
          if intermediateRegister != [] {
            var printed := FlushSection(intermediateRegister, previousSectionTitle, net);
            out := out + printed;
            intermediateRegister := [];
          }
          previousSectionTitle := line;
        }
      }
      if IsSectionHeading(line) {
        StepAtHeading(before, line, net);
      } else if StartsWith(line, CatalogHeading) || StartsWith(line, "* [") {
        StepAtEcho(before, line, net);
      } else if IsProject(line) {
        StepAtProject(before, line, net);
      } else {
        StepAtOther(before, line, net);
      }
      assert Triage(intermediateRegister, previousSectionTitle, out) == Step(before, line, net);
      assert rawData[..i + 1][..i] == rawData[..i] && rawData[..i + 1][i] == line;
      if i == |rawData| - 1 {
        assert rawData[..i + 1] == rawData;
        var printed := FinalSection(intermediateRegister, previousSectionTitle, net);
        out := out + printed;
      }
    }
  }
}
