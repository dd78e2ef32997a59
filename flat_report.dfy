/**
 * xfpm.py: the unsorted report. Every catalog line up to the cutoff is read
 * as it is (not stripped); category markers are printed unchanged, and any
 * other line with a non-empty link target is printed when the package
 * manifest under that target exists.
 *
 * Standard output is a sequence holding the argument of each `print` call.
 */
module FlatReport {
  import opened Strings
  import opened Probe
  import LinkPattern

  /** `max_lines = 10**6`: lines with a greater index are not read. */
  const MaxLines := 1_000_000

  /** A category marker: a bullet (`*`) or a heading (`##`). */
  predicate IsMarker(text: string) {
    StartsWith(text, "*") || StartsWith(text, "##")
  }

  /** Whether the loop prints a line. */
  predicate Printed(text: string, net: Network) {
    IsMarker(text) || HasFpmManifest(text, net)
  }

  /**
   * A catalog project line `[name](url) description` is printed exactly when
   * the url is not empty and url + "/blob/master/fpm.toml" answers with a 2xx status.
   */
  lemma PrintedProjectLine(name: string, url: string, rest: string, net: Network)
    requires forall m :: 0 <= m < |name| ==> name[m] != ']' && name[m] != '\n'
    requires forall m :: 0 <= m < |url| ==> url[m] != ')' && url[m] != '\n'
    ensures Printed("[" + name + "](" + url + ")" + rest, net) <==> url != "" && Reachable(net, url + ManifestPath)
  {
    var line := "[" + name + "](" + url + ")" + rest;
    LinkPattern.ProjectLineTarget(name, url, rest);
    assert line[0] == '[';
  }

  /** How many lines the loop handles before it breaks. */
  function Cutoff(n: nat): (c: nat)
    ensures c <= n && c <= MaxLines + 1
    ensures c == n || c == MaxLines + 1
  {
    if n <= MaxLines + 1 then n else MaxLines + 1
  }

  /** The printed lines of lines, in order. */
  function Kept(lines: seq<string>, net: Network): seq<string>
    decreases |lines|
  {
    if lines == [] then []
    else
      var last := lines[|lines| - 1];
      Kept(lines[..|lines| - 1], net) + (if Printed(last, net) then [last] else [])
  }

  /** Everything `file_reader` prints. */
  function Listing(infile: seq<string>, net: Network): seq<string> {
    Kept(infile[..Cutoff(|infile|)], net)
  }

  /** The indices of the printed lines. */
  function PrintedIndices(lines: seq<string>, net: Network): seq<nat>
    decreases |lines|
  {
    if lines == [] then []
    else
      PrintedIndices(lines[..|lines| - 1], net)
      + (if Printed(lines[|lines| - 1], net) then [|lines| - 1] else [])
  }

  /** Kept selects, in increasing index order, exactly the lines that are printed. */
  lemma {:induction false} KeptIsOrderedSelection(lines: seq<string>, net: Network)
    ensures var idx, out := PrintedIndices(lines, net), Kept(lines, net);
      && |idx| == |out|
      && (forall m :: 0 <= m < |idx| ==> idx[m] < |lines| && out[m] == lines[idx[m]] && Printed(lines[idx[m]], net))
      && (forall m, m' :: 0 <= m < m' < |idx| ==> idx[m] < idx[m'])
      && (forall i :: 0 <= i < |lines| && Printed(lines[i], net) ==> i in idx)
    decreases |lines|
  {
    if lines != [] {
      var init := lines[..|lines| - 1];
      KeptIsOrderedSelection(init, net);
      assert forall i :: 0 <= i < |init| ==> init[i] == lines[i];
    }
  }

  /**
   * The report prints, in input order, exactly those of the first
   * MaxLines + 1 lines that are markers or whose manifest exists.
   */
  lemma ListingPrintsExactly(infile: seq<string>, net: Network)
    ensures var cut, idx, out := Cutoff(|infile|), PrintedIndices(infile[..Cutoff(|infile|)], net), Listing(infile, net);
      && |idx| == |out|
      && (forall m :: 0 <= m < |idx| ==> idx[m] < cut && out[m] == infile[idx[m]] && Printed(infile[idx[m]], net))
      && (forall m, m' :: 0 <= m < m' < |idx| ==> idx[m] < idx[m'])
      && (forall i :: 0 <= i < cut && Printed(infile[i], net) ==> i in idx)
  {
    var cut := Cutoff(|infile|);
    KeptIsOrderedSelection(infile[..cut], net);
    assert forall i :: 0 <= i < cut ==> infile[..cut][i] == infile[i];
  }

  /** Lines after index MaxLines are never read. */
  lemma ListingIgnoresTail(infile: seq<string>, more: seq<string>, net: Network)
    requires |infile| > MaxLines
    ensures Listing(infile + more, net) == Listing(infile, net)
  {
    assert (infile + more)[..MaxLines + 1] == infile[..MaxLines + 1];
  }

  /**
   * Markers are printed without a probe: the network is consulted only for
   * the probe addresses of non-marker lines with a non-empty target, so two networks that agree on
   * those give the same report.
   */
  lemma {:induction false} KeptDependsOnlyOnProbes(lines: seq<string>, net: Network, net': Network)
    requires forall m :: 0 <= m < |lines| && !IsMarker(lines[m]) && LinkPattern.Target(lines[m]).Some? && LinkPattern.Target(lines[m]).value != "" ==>
      var a := ProbeAddress(LinkPattern.Target(lines[m]).value);
      Reachable(net, a) == Reachable(net', a)
    ensures Kept(lines, net) == Kept(lines, net')
    decreases |lines|
  {
    if lines != [] {
      var init := lines[..|lines| - 1];
      assert forall m :: 0 <= m < |init| ==> init[m] == lines[m];
      KeptDependsOnlyOnProbes(init, net, net');
      assert Printed(lines[|lines| - 1], net) == Printed(lines[|lines| - 1], net');
    }
  }

  /** `file_reader(infile)` */
  method FileReader(infile: seq<string>, net: Network) returns (out: seq<string>)
    ensures out == Listing(infile, net)
  {
    out := [];
    var i := 0;
    while i < |infile|
      invariant 0 <= i <= |infile| && i <= MaxLines + 1
      invariant out == Kept(infile[..i], net)
    {
      if i > MaxLines {
        break;
      }
      var text := infile[i];
      assert infile[..i + 1][..i] == infile[..i] && infile[..i + 1][i] == text;
      if StartsWith(text, "*") || StartsWith(text, "##") {
        out := out + [text];
        i := i + 1;
        continue;
      }
      var extractedText := LinkPattern.Target(text);
      if extractedText.Some? && extractedText.value != "" {
        var fpmLink := ProbeAddress(extractedText.value);
        var verdict := CheckUrlExists(net(fpmLink));
        if verdict.ok {
          out := out + [text];
        }
      }
      i := i + 1;
    }
  }
}
