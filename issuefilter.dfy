/** The last step of the linter: keep the issues that lie in a changed
    range. For every issue, in order, the issue is printed once for every
    range of its file that contains its line, and never when its file is not
    in the change set. */
module IssueFilter {
  import opened Text
  import opened Results
  import opened Hunks
  import opened ChangeSet

  /** A linter issue: the file it is reported in and its line. */
  datatype Issue = Issue(path: string, line: int)

  /** `change.Start <= issue.Pos.Line && issue.Pos.Line <= change.End`. */
  predicate Covers(c: Change, line: int) { c.start <= line <= c.end }

  /** How many of the ranges contain the line. */
  function MatchCount(changes: seq<Change>, line: int): nat
    decreases |changes|
  {
    if changes == [] then 0
    else MatchCount(changes[..|changes| - 1], line) + (if Covers(changes[|changes| - 1], line) then 1 else 0)
  }

  /** How many times the filter prints the issue. */
  function Multiplicity(issue: Issue, index: map<string, FileChange>): nat
  {
    if issue.path in index then MatchCount(index[issue.path].changes, issue.line) else 0
  }

  function Repeat(issue: Issue, n: nat): seq<Issue>
    decreases n
  {
    if n == 0 then [] else Repeat(issue, n - 1) + [issue]
  }

  /** The issues the filter loop prints, in print order. */
  function Selected(issues: seq<Issue>, index: map<string, FileChange>): seq<Issue>
    decreases |issues|
  {
    if issues == [] then []
    else
      var last := issues[|issues| - 1];
      Selected(issues[..|issues| - 1], index) + Repeat(last, Multiplicity(last, index))
  }

  /** The filter loop of `main`; the printed issues are returned in print
      order instead of being printed. */
  method SelectIssues(issues: seq<Issue>, index: map<string, FileChange>) returns (printed: seq<Issue>)
    ensures printed == Selected(issues, index)
  {
    printed := [];
    for i := 0 to |issues|
      invariant printed == Selected(issues[..i], index)
    {
      var issue := issues[i];
      assert issues[..i + 1][..i] == issues[..i];
      if issue.path !in index {
        assert printed + [] == printed;
        continue;
      }
      var changes := index[issue.path].changes;
      ghost var before := printed;
      for j := 0 to |changes|
        invariant printed == before + Repeat(issue, MatchCount(changes[..j], issue.line))
      {
        assert changes[..j + 1][..j] == changes[..j];
        if Covers(changes[j], issue.line) {
          printed := printed + [issue];
        }
      }
      assert changes[..|changes|] == changes;
    }
    assert issues[..|issues|] == issues;
  }

  /** A line is counted exactly when some range contains it. */
  lemma {:induction false} MatchCountPositive(changes: seq<Change>, line: int)
    ensures MatchCount(changes, line) > 0 <==> exists k :: 0 <= k < |changes| && Covers(changes[k], line)
    ensures MatchCount(changes, line) <= |changes|
    decreases |changes|
  {
    if changes != [] {
      var n := |changes| - 1;
      MatchCountPositive(changes[..n], line);
      assert forall k :: 0 <= k < n ==> changes[..n][k] == changes[k];
    }
  }

  lemma {:induction false} RepeatCount(issue: Issue, n: nat, x: Issue)
    ensures |Repeat(issue, n)| == n
    ensures multiset(Repeat(issue, n))[x] == if x == issue then n else 0
    decreases n
  {
    if n > 0 {
      RepeatCount(issue, n - 1, x);
    }
  }

  /** Every issue is printed as many times as there are ranges of its file
      containing its line, times the number of times it was reported; nothing
      else is printed. */
  lemma {:induction false} SelectedCount(issues: seq<Issue>, index: map<string, FileChange>, x: Issue)
    ensures multiset(Selected(issues, index))[x] == multiset(issues)[x] * Multiplicity(x, index)
    decreases |issues|
  {
    if issues != [] {
      var n := |issues| - 1;
      var pre, last := issues[..n], issues[n];
      var m := Multiplicity(x, index);
      SelectedCount(pre, index, x);
      RepeatCount(last, Multiplicity(last, index), x);
      assert issues == pre + [last];
      var c := multiset(pre)[x];
      if x == last {
        assert multiset(issues)[x] == c + 1;
        assert multiset(Selected(issues, index))[x] == c * m + m;
        MulSucc(c, m);
      } else {
        assert multiset(issues)[x] == c;
        assert multiset(Selected(issues, index))[x] == c * m;
      }
    }
  }

  lemma MulSucc(c: nat, m: nat)
    ensures c * m + m == (c + 1) * m
  {
  }

  /** An issue is printed exactly when it was reported, its file is in the
      change set and one of the file's ranges contains its line. */
  lemma SelectedMember(issues: seq<Issue>, index: map<string, FileChange>, x: Issue)
    ensures x in Selected(issues, index) <==>
      x in issues && x.path in index &&
      exists k :: 0 <= k < |index[x.path].changes| && Covers(index[x.path].changes[k], x.line)
  {
    SelectedCount(issues, index, x);
    if x.path in index {
      MatchCountPositive(index[x.path].changes, x.line);
    }
    MulPositive(multiset(issues)[x], Multiplicity(x, index));
  }

  lemma MulPositive(c: nat, m: nat)
    ensures c * m > 0 <==> c > 0 && m > 0
  {
  }

  /** The filter works issue by issue: it keeps the order of the issues. */
  lemma {:induction false} SelectedAppend(a: seq<Issue>, b: seq<Issue>, index: map<string, FileChange>)
    ensures Selected(a + b, index) == Selected(a, index) + Selected(b, index)
    decreases |b|
  {
    if b == [] {
      assert a + b == a;
    } else {
      var n := |b| - 1;
      assert (a + b)[..|a + b| - 1] == a + b[..n];
      assert (a + b)[|a + b| - 1] == b[n];
      SelectedAppend(a, b[..n], index);
    }
  }

  /** The filter described for the tool: every issue that lies in some
      changed range, once, in order. */
  function KeepIfCovered(issues: seq<Issue>, index: map<string, FileChange>): seq<Issue>
    decreases |issues|
  {
    if issues == [] then []
    else
      var last := issues[|issues| - 1];
      KeepIfCovered(issues[..|issues| - 1], index) + (if Multiplicity(last, index) > 0 then [last] else [])
  }

  /** When no line of an issue lies in two ranges of its file, the loop
      prints exactly the issues of that filter. */
  lemma {:induction false} SelectedWithoutOverlap(issues: seq<Issue>, index: map<string, FileChange>)
    requires forall k :: 0 <= k < |issues| ==> Multiplicity(issues[k], index) <= 1
    ensures Selected(issues, index) == KeepIfCovered(issues, index)
    decreases |issues|
  {
    if issues != [] {
      var n := |issues| - 1;
      assert forall k :: 0 <= k < n ==> issues[..n][k] == issues[k];
      SelectedWithoutOverlap(issues[..n], index);
      var m := Multiplicity(issues[n], index);
      if m == 1 {
        assert Repeat(issues[n], m) == Repeat(issues[n], 0) + [issues[n]];
      }
    }
  }

  /** Under the same condition, filtering the printed issues again prints
      them unchanged. */
  lemma SelectedIdempotent(issues: seq<Issue>, index: map<string, FileChange>)
    requires forall k :: 0 <= k < |issues| ==> Multiplicity(issues[k], index) <= 1
    ensures Selected(Selected(issues, index), index) == Selected(issues, index)
  {
    var out := Selected(issues, index);
    forall k | 0 <= k < |out| ensures Multiplicity(out[k], index) == 1 {
      SelectedMember(issues, index, out[k]);
      MatchCountPositive(index[out[k].path].changes, out[k].line);
      var j :| 0 <= j < |issues| && issues[j] == out[k];
    }
    SelectedWithoutOverlap(out, index);
    KeepAll(out, index);
  }

  lemma {:induction false} KeepAll(issues: seq<Issue>, index: map<string, FileChange>)
    requires forall k :: 0 <= k < |issues| ==> Multiplicity(issues[k], index) == 1
    ensures KeepIfCovered(issues, index) == issues
    decreases |issues|
  {
    if issues != [] {
      var n := |issues| - 1;
      var pre := issues[..n];
      assert forall k :: 0 <= k < n ==> pre[k] == issues[k];
      KeepAll(pre, index);
      assert KeepIfCovered(issues, index) == pre + [issues[n]];
      assert issues == pre + [issues[n]];
    }
  }

  /** Two ranges of one file that both contain a line make the loop print
      the issue twice. */
  lemma OverlappingRangesPrintTwice()
    ensures var issue := Issue("a.go", 3);
      Selected([issue], map["a.go" := FileChange([Change(1, 5), Change(3, 4)], "a.go")]) == [issue, issue]
  {
    var issue := Issue("a.go", 3);
    var changes := [Change(1, 5), Change(3, 4)];
    assert changes[..1] == [Change(1, 5)];
    assert [issue][..0] == [];
    assert MatchCount(changes, 3) == 2;
  }

  /** The range of `@@ -1,1 +1,1 @@` covers lines 1 and 2 and not line 3. */
  lemma SingleLineHunkFilter()
    ensures var index := map["a.go" := FileChange([Change(1, 2)], "a.go")];
      Selected([Issue("a.go", 1), Issue("a.go", 2), Issue("a.go", 3)], index) == [Issue("a.go", 1), Issue("a.go", 2)]
  {
    var index := map["a.go" := FileChange([Change(1, 2)], "a.go")];
    var issues := [Issue("a.go", 1), Issue("a.go", 2), Issue("a.go", 3)];
    assert [Change(1, 2)][..0] == [];
    assert Multiplicity(issues[0], index) == 1;
    assert Multiplicity(issues[1], index) == 1;
    assert Multiplicity(issues[2], index) == 0;
    assert Repeat(issues[0], 1) == [issues[0]];
    assert issues == [issues[0]] + [issues[1]] + [issues[2]];
    SelectedAppend([issues[0]] + [issues[1]], [issues[2]], index);
    SelectedAppend([issues[0]], [issues[1]], index);
    assert [issues[0]][..0] == [];
    assert [issues[1]][..0] == [];
    assert [issues[2]][..0] == [];
  }

  /** Three issues against the one range `[10, 15]` of `a.go`: only the one
      inside that range is printed. */
  lemma ScenarioFilter()
    ensures var index := map["a.go" := FileChange([Change(10, 15)], "a.go")];
      Selected([Issue("a.go", 12), Issue("a.go", 99), Issue("b.go", 5)], index) == [Issue("a.go", 12)]
  {
    var index := map["a.go" := FileChange([Change(10, 15)], "a.go")];
    var issues := [Issue("a.go", 12), Issue("a.go", 99), Issue("b.go", 5)];
    assert [Change(10, 15)][..0] == [];
    assert Multiplicity(issues[0], index) == 1;
    assert Multiplicity(issues[1], index) == 0;
    assert Multiplicity(issues[2], index) == 0;
    assert Repeat(issues[0], 1) == [issues[0]];
    assert issues == [issues[0]] + [issues[1]] + [issues[2]];
    SelectedAppend([issues[0]] + [issues[1]], [issues[2]], index);
    SelectedAppend([issues[0]], [issues[1]], index);
    assert [issues[0]][..0] == [];
    assert [issues[1]][..0] == [];
    assert [issues[2]][..0] == [];
  }

  /** What `main` ends with: the issues it prints, or the error it panics
      with (the issues' error first, then the change set's). */
  function Outcome(issues: Result<seq<Issue>>, listing: Result<string>, diffOf: string -> Result<string>)
    : Result<seq<Issue>>
  {
    match issues
    case Err(e) => Err(e)
    case Ok(found) =>
      match ChangeSetOf(listing, diffOf)
      case Err(e) => Err(e)
      case Ok(changes) => Ok(Selected(found, IndexOf(changes)))
  }

  /** `main` after the linter has run: read its issues, find the changes,
      index them by path and print the issues that lie in a changed range. */
  method Run(issues: Result<seq<Issue>>, listing: Result<string>, diffOf: string -> Result<string>)
    returns (r: Result<seq<Issue>>)
    ensures r == Outcome(issues, listing, diffOf)
  {
    if issues.Err? {
      return Err(issues.error);
    }
    var changes := FindChanges(listing, diffOf);
    if changes.Err? {
      return Err(changes.error);
    }
    var changesByFileName := GetChangesByFileName(changes.value);
    var printed := SelectIssues(issues.value, changesByFileName);
    return Ok(printed);
  }

  /** Every printed issue was reported and lies in a range of an entry of
      the change set for its file. */
  lemma FilterSound(issues: seq<Issue>, changes: seq<FileChange>, x: Issue)
    requires x in Selected(issues, IndexOf(changes))
    ensures x in issues
    ensures exists j :: 0 <= j < |changes| && changes[j].path == x.path &&
              exists k :: 0 <= k < |changes[j].changes| && Covers(changes[j].changes[k], x.line)
  {
    SelectedMember(issues, IndexOf(changes), x);
    IndexOfValues(changes, x.path);
  }

  /** Every reported issue that lies in a range of the last change-set entry
      for its file is printed (the index keeps the last entry of a path). */
  lemma FilterComplete(issues: seq<Issue>, changes: seq<FileChange>, x: Issue, j: nat, k: nat)
    requires x in issues
    requires j < |changes| && changes[j].path == x.path
    requires forall b :: j < b < |changes| ==> changes[b].path != x.path
    requires k < |changes[j].changes| && Covers(changes[j].changes[k], x.line)
    ensures x in Selected(issues, IndexOf(changes))
  {
    IndexOfLastWins(changes, j);
    SelectedMember(issues, IndexOf(changes), x);
  }
}
