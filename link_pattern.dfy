/**
 * `re.search(r"\[.*?\]\((.*?)\)", text)` and its group 1, with the
 * semantics of Python's backtracking matcher: the leftmost start, then the
 * shortest first `.*?`, then the shortest second `.*?` that lets the whole
 * pattern match. `.` matches any character except a line feed.
 */
module LinkPattern {
  import opened Optional

  /** No line feed in s[lo..hi], so `.*` may span it. */
  predicate NoLineFeed(s: string, lo: int, hi: int)
    requires 0 <= lo <= hi <= |s|
  {
    forall m :: lo <= m < hi ==> s[m] != '\n'
  }

  /**
   * The pattern matches s[start..close + 1]: `[` at start, `](` at bracket
   * and bracket + 1, the `)` at close, and group 1 is s[bracket + 2..close].
   */
  predicate Matches(s: string, start: int, bracket: int, close: int) {
    0 <= start < bracket && bracket + 2 <= close < |s|
    && s[start] == '[' && s[bracket] == ']' && s[bracket + 1] == '(' && s[close] == ')'
    && NoLineFeed(s, start + 1, bracket) && NoLineFeed(s, bracket + 2, close)
  }

  /** The match the backtracking search reports: lexicographically least (start, bracket, close). */
  ghost predicate LeastMatch(s: string, start: int, bracket: int, close: int) {
    Matches(s, start, bracket, close)
    && (forall i, j, k :: Matches(s, i, j, k) ==> start <= i)
    && (forall j, k :: Matches(s, start, j, k) ==> bracket <= j)
    && (forall k :: Matches(s, start, bracket, k) ==> close <= k)
  }

  lemma LeastMatchUnique(s: string, i: int, j: int, k: int, i': int, j': int, k': int)
    requires LeastMatch(s, i, j, k) && LeastMatch(s, i', j', k')
    ensures i == i' && j == j' && k == k'
  {
  }

  /** Positions of a match. */
  datatype Span = Span(start: nat, bracket: nat, close: nat)

  /** The lazy `(.*?)\)`: the first `)` at or after `from` with no line feed before it. */
  function FirstClose(s: string, from: nat): Option<nat>
    requires from <= |s|
    decreases |s| - from
  {
    if from == |s| then None
    else if s[from] == ')' then Some(from)
    else if s[from] == '\n' then None
    else FirstClose(s, from + 1)
  }

  lemma {:induction false} FirstCloseIsLeast(s: string, from: nat)
    requires from <= |s|
    ensures var r := FirstClose(s, from);
      && (r.Some? ==> from <= r.value < |s| && s[r.value] == ')' && NoLineFeed(s, from, r.value))
      && (r.Some? ==> forall m :: from <= m < r.value ==> s[m] != ')')
      && (r.None? ==> forall k :: from <= k < |s| && s[k] == ')' ==> !NoLineFeed(s, from, k))
    decreases |s| - from
  {
    if from < |s| && s[from] != ')' && s[from] != '\n' {
      FirstCloseIsLeast(s, from + 1);
    }
  }

  /** The lazy `.*?\]\(`, trying each `](` at or after `bracket` for the `[` at start. */
  function FindBracket(s: string, start: nat, bracket: nat): Option<(nat, nat)>
    requires start < bracket <= |s|
    decreases |s| - bracket
  {
    if bracket + 2 >= |s| then None
    else if s[bracket] == ']' && s[bracket + 1] == '(' && FirstClose(s, bracket + 2).Some? then
      Some((bracket, FirstClose(s, bracket + 2).value))
    else if s[bracket] == '\n' then None
    else FindBracket(s, start, bracket + 1)
  }

  lemma {:induction false} FindBracketIsLeast(s: string, start: nat, bracket: nat)
    requires start < bracket <= |s| && s[start] == '['
    requires NoLineFeed(s, start + 1, bracket)
    ensures var r := FindBracket(s, start, bracket);
      && (r.Some? ==> bracket <= r.value.0 && Matches(s, start, r.value.0, r.value.1))
      && (r.Some? ==> forall j, k :: bracket <= j < r.value.0 ==> !Matches(s, start, j, k))
      && (r.Some? ==> forall k :: Matches(s, start, r.value.0, k) ==> r.value.1 <= k)
      && (r.None? ==> forall j, k :: bracket <= j ==> !Matches(s, start, j, k))
    decreases |s| - bracket
  {
    if bracket + 2 < |s| {
      FirstCloseIsLeast(s, bracket + 2);
      if !(s[bracket] == ']' && s[bracket + 1] == '(' && FirstClose(s, bracket + 2).Some?) && s[bracket] != '\n' {
        FindBracketIsLeast(s, start, bracket + 1);
      }
    }
  }

  /** The search proper: try each start position from `from` on. */
  function SearchFrom(s: string, from: nat): Option<Span>
    requires from <= |s|
    decreases |s| - from
  {
    if from == |s| then None
    else if s[from] == '[' && FindBracket(s, from, from + 1).Some? then
      var p := FindBracket(s, from, from + 1).value;
      Some(Span(from, p.0, p.1))
    else
      SearchFrom(s, from + 1)
  }

  lemma {:induction false} SearchFromIsLeast(s: string, from: nat)
    requires from <= |s|
    ensures var r := SearchFrom(s, from);
      && (r.Some? ==> from <= r.value.start && Matches(s, r.value.start, r.value.bracket, r.value.close))
      && (r.Some? ==> forall i, j, k :: from <= i < r.value.start ==> !Matches(s, i, j, k))
      && (r.Some? ==> forall j, k :: Matches(s, r.value.start, j, k) ==> r.value.bracket <= j)
      && (r.Some? ==> forall k :: Matches(s, r.value.start, r.value.bracket, k) ==> r.value.close <= k)
      && (r.None? ==> forall i, j, k :: from <= i ==> !Matches(s, i, j, k))
    decreases |s| - from
  {
    if from < |s| {
      if s[from] == '[' {
        FindBracketIsLeast(s, from, from + 1);
      }
      if !(s[from] == '[' && FindBracket(s, from, from + 1).Some?) {
        SearchFromIsLeast(s, from + 1);
      }
    }
  }

  /** `re.search(pattern, s)`: the reported match, if any. */
  function Search(s: string): Option<Span> {
    SearchFrom(s, 0)
  }

  /** The search reports the leftmost-lazy match, and reports none exactly when nothing matches. */
  lemma SearchIsLeastMatch(s: string)
    ensures Search(s).Some? ==> LeastMatch(s, Search(s).value.start, Search(s).value.bracket, Search(s).value.close)
    ensures Search(s).None? <==> forall i, j, k :: !Matches(s, i, j, k)
  {
    SearchFromIsLeast(s, 0);
  }

  /** `match.group(1) if match else None`: the link target of a catalog line. */
  function Target(s: string): Option<string> {
    match Search(s)
    case None => None
    case Some(m) =>
      SearchIsLeastMatch(s);
      Some(s[m.bracket + 2..m.close])
  }

  /** The target is group 1 of the leftmost-lazy match; there is none exactly when nothing matches. */
  lemma TargetIsGroup(s: string)
    ensures Target(s).None? <==> forall i, j, k :: !Matches(s, i, j, k)
    ensures Target(s).Some? ==> exists i, j, k :: LeastMatch(s, i, j, k) && Target(s).value == s[j + 2..k]
  {
    SearchIsLeastMatch(s);
    if Search(s).Some? {
      var m := Search(s).value;
      assert LeastMatch(s, m.start, m.bracket, m.close);
    }
  }

  /**
   * A catalog project line `[name](url)` followed by anything: when the name
   * holds no `]` and the url no `)` (and neither a line feed), the target is
   * exactly the url, whatever the rest of the line says.
   */
  lemma ProjectLineTarget(name: string, url: string, rest: string)
    requires forall m :: 0 <= m < |name| ==> name[m] != ']' && name[m] != '\n'
    requires forall m :: 0 <= m < |url| ==> url[m] != ')' && url[m] != '\n'
    ensures Target("[" + name + "](" + url + ")" + rest) == Some(url)
  {
    var s := "[" + name + "](" + url + ")" + rest;
    var j := |name| + 1;
    var k := j + 2 + |url|;
    assert s[0] == '[' && s[j] == ']' && s[j + 1] == '(' && s[k] == ')';
    assert forall m :: 1 <= m < j ==> s[m] == name[m - 1];
    assert forall m :: j + 2 <= m < k ==> s[m] == url[m - j - 2];
    assert s[j + 2..k] == url;
    assert Matches(s, 0, j, k);
    assert LeastMatch(s, 0, j, k);
    TargetIsGroup(s);
    var i', j', k' :| LeastMatch(s, i', j', k') && Target(s).value == s[j' + 2..k'];
    LeastMatchUnique(s, 0, j, k, i', j', k');
  }

  /** A line with no `[` has no target. */
  lemma NoBracketNoTarget(s: string)
    requires forall m :: 0 <= m < |s| ==> s[m] != '['
    ensures Target(s) == None
  {
    TargetIsGroup(s);
  }
}
