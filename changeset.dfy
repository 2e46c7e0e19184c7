/** Building the change set: the changed files a diff command lists
    (`listChangedFiles`), the ranges of every file (`findChanges`) and the
    index by path (`getChangesByFileName`). The two external commands are
    given by their output: `listing` is what `<cmd> --no-commit-id
    --name-only` printed, `diffOf(file)` what `<cmd> -- <file>` printed, each
    or the error of running it. */
module ChangeSet {
  import opened Text
  import opened Results
  import opened Hunks

  /** A changed file and its ranges (the `FileChange` struct). */
  datatype FileChange = FileChange(changes: seq<Change>, path: string)

  /** The lines before the first line that starts with `commit `. */
  function UntilCommit(lines: seq<string>): seq<string>
    decreases |lines|
  {
    if lines == [] || IsCommitLine(lines[0]) then []
    else [lines[0]] + UntilCommit(lines[1..])
  }

  /** The candidate paths `listChangedFiles` returns for the command's output. */
  function ChangedFiles(output: string): seq<string>
  {
    UntilCommit(Split(output))
  }

  /** The post-processing half of `listChangedFiles`: split the output on
      newlines and keep lines up to the first `commit ` line. */
  method ListChangedFiles(output: string) returns (files: seq<string>)
    ensures files == ChangedFiles(output)
  {
    var lines := Split(output);
    files := [];
    assert lines[0..] == lines && lines[|lines|..] == [];
    for i := 0 to |lines|
      invariant UntilCommit(lines) == files + UntilCommit(lines[i..])
    {
      UntilCommitAt(lines, i);
      if IsCommitLine(lines[i]) {
        assert files + [] == files;
        break;
      }
      assert files + ([lines[i]] + UntilCommit(lines[i + 1..])) ==
             (files + [lines[i]]) + UntilCommit(lines[i + 1..]);
      files := files + [lines[i]];
    }
  }

  /** One step of `UntilCommit` on the suffix of `lines` from `i`. */
  lemma UntilCommitAt(lines: seq<string>, i: nat)
    requires i < |lines|
    ensures UntilCommit(lines[i..]) ==
            if IsCommitLine(lines[i]) then [] else [lines[i]] + UntilCommit(lines[i + 1..])
  {
    assert lines[i..][0] == lines[i];
    assert lines[i..][1..] == lines[i + 1..];
  }

  lemma {:induction false} UntilCommitSpec(lines: seq<string>)
    ensures var kept := UntilCommit(lines);
      |kept| <= |lines| && kept == lines[..|kept|] &&
      (forall k :: 0 <= k < |kept| ==> !IsCommitLine(kept[k])) &&
      (|kept| < |lines| ==> IsCommitLine(lines[|kept|]))
    decreases |lines|
  {
    if lines != [] && !IsCommitLine(lines[0]) {
      UntilCommitSpec(lines[1..]);
      var rest := UntilCommit(lines[1..]);
      assert lines[..1 + |rest|] == [lines[0]] + lines[1..][..|rest|];
      assert forall k :: 0 < k < 1 + |rest| ==> ([lines[0]] + rest)[k] == rest[k - 1];
    }
  }

  /** The paths are exactly the lines of the output, verbatim and in order,
      that come before the first `commit ` line, or all of them when there is
      none. */
  lemma ChangedFilesSpec(output: string)
    ensures var lines, files := Split(output), ChangedFiles(output);
      |files| <= |lines| && files == lines[..|files|] &&
      (forall k :: 0 <= k < |files| ==> !IsCommitLine(files[k])) &&
      (|files| < |lines| ==> IsCommitLine(lines[|files|]))
  {
    UntilCommitSpec(Split(output));
  }

  /** An output that ends in a newline and has no `commit ` line yields its
      lines plus one empty path. */
  lemma TrailingNewlineGivesEmptyPath(body: string)
    requires forall k :: 0 <= k < |Split(body)| ==> !IsCommitLine(Split(body)[k])
    ensures ChangedFiles(body + "\n") == Split(body) + [""]
  {
    SplitTrailingNewline(body);
    var lines := Split(body + "\n");
    UntilCommitSpec(lines);
    assert forall k :: 0 <= k < |lines| ==> !IsCommitLine(lines[k]) by {
      forall k | 0 <= k < |lines| ensures !IsCommitLine(lines[k]) {
        if k < |Split(body)| { assert lines[k] == Split(body)[k]; }
      }
    }
    assert lines[..|lines|] == lines;
  }

  /** The ranges of one file's diff: every hunk header's ranges, in header
      order, or the first parse error. */
  function FileRanges(diff: string): Result<seq<Change>>
  {
    Collect(HunkHeaders(diff), HeaderChanges)
  }

  /** What one file contributes to the change set: nothing when its diff has
      no ranges, one entry otherwise, or the error met on the way. */
  function FileEntry(diffOf: string -> Result<string>, file: string): Result<seq<FileChange>>
  {
    match diffOf(file)
    case Err(e) => Err(e)
    case Ok(diff) =>
      match FileRanges(diff)
      case Err(e) => Err(e)
      case Ok(changes) => if changes == [] then Ok([]) else Ok([FileChange(changes, file)])
  }

  function EntryOf(diffOf: string -> Result<string>): string -> Result<seq<FileChange>>
  {
    file => FileEntry(diffOf, file)
  }

  /** What `findChanges` returns. */
  function ChangeSetOf(listing: Result<string>, diffOf: string -> Result<string>): Result<seq<FileChange>>
  {
    match listing
    case Err(e) => Err(e)
    case Ok(output) => Collect(ChangedFiles(output), EntryOf(diffOf))
  }

  lemma EntryOfApply(diffOf: string -> Result<string>, file: string)
    ensures EntryOf(diffOf)(file) == FileEntry(diffOf, file)
  {
  }

  /** The inner loop of `findChanges`: the ranges of every hunk header of
      one file's diff, in header order, or the first parse error. */
  method FindFileRanges(diff: string) returns (r: Result<seq<Change>>)
    ensures r == FileRanges(diff)
  {
    var hunkHeaders := HunkHeaders(diff);
    var changes: seq<Change> := [];
    for j := 0 to |hunkHeaders|
      invariant Collect(hunkHeaders[..j], HeaderChanges) == Ok(changes)
    {
      CollectStep(hunkHeaders, j, HeaderChanges);
      var positions := FindChangesByHunkHeader(hunkHeaders[j]);
      if positions.Err? {
        CollectSticky(hunkHeaders, j + 1, HeaderChanges);
        return Err(positions.error);
      }
      changes := changes + positions.value;
    }
    assert hunkHeaders[..|hunkHeaders|] == hunkHeaders;
    return Ok(changes);
  }

  /** `findChanges`: for every listed file, in order, parse the ranges of
      every hunk header of its diff; keep the files that have ranges; give up
      on the first error. */
  method FindChanges(listing: Result<string>, diffOf: string -> Result<string>)
    returns (r: Result<seq<FileChange>>)
    ensures r == ChangeSetOf(listing, diffOf)
  {
    if listing.Err? {
      return Err(listing.error);
    }
    var files := ListChangedFiles(listing.value);
    var fileChanges: seq<FileChange> := [];
    for i := 0 to |files|
      invariant Collect(files[..i], EntryOf(diffOf)) == Ok(fileChanges)
    {
      CollectStep(files, i, EntryOf(diffOf));
      EntryOfApply(diffOf, files[i]);
      var diff := diffOf(files[i]);
      if diff.Err? {
        CollectSticky(files, i + 1, EntryOf(diffOf));
        return Err(diff.error);
      }
      var changes := FindFileRanges(diff.value);
      if changes.Err? {
        CollectSticky(files, i + 1, EntryOf(diffOf));
        return Err(changes.error);
      }
      if |changes.value| == 0 {
        assert FileEntry(diffOf, files[i]) == Ok([]);
        assert fileChanges + [] == fileChanges;
        continue;
      }
      assert FileEntry(diffOf, files[i]) == Ok([FileChange(changes.value, files[i])]);
      fileChanges := fileChanges + [FileChange(changes.value, files[i])];
    }
    assert files[..|files|] == files;
    return Ok(fileChanges);
  }

  /** A file whose diff was obtained and whose headers all parse. */
  predicate FileSucceeds(diffOf: string -> Result<string>, file: string)
  {
    diffOf(file).Ok? && FileRanges(diffOf(file).value).Ok?
  }

  function RangesOf(diffOf: string -> Result<string>, file: string): seq<Change>
    requires FileSucceeds(diffOf, file)
  {
    FileRanges(diffOf(file).value).value
  }

  /** `findChanges` fails when the listing fails or when some file's diff or
      header parse fails, and then with the error of the first such file in
      list order; it never returns part of a change set. */
  lemma ChangeSetErrors(listing: Result<string>, diffOf: string -> Result<string>)
    ensures listing.Err? ==> ChangeSetOf(listing, diffOf) == Err(listing.error)
    ensures listing.Ok? ==>
      var files := ChangedFiles(listing.value);
      (ChangeSetOf(listing, diffOf).Ok? <==> forall k :: 0 <= k < |files| ==> FileSucceeds(diffOf, files[k]))
    ensures listing.Ok? && ChangeSetOf(listing, diffOf).Err? ==>
      var files := ChangedFiles(listing.value);
      exists k :: 0 <= k < |files| && FileEntry(diffOf, files[k]) == Err(ChangeSetOf(listing, diffOf).error) &&
                  forall j :: 0 <= j < k ==> FileSucceeds(diffOf, files[j])
  {
    if listing.Ok? {
      var files := ChangedFiles(listing.value);
      var f := EntryOf(diffOf);
      forall k | 0 <= k < |files| ensures f(files[k]) == FileEntry(diffOf, files[k]) {
        EntryOfApply(diffOf, files[k]);
      }
      CollectOkIff(files, f);
      if ChangeSetOf(listing, diffOf).Err? {
        CollectFirstError(files, f);
      }
    }
  }

  /** The witness of how a successful change set sits in the file list: the
      entries are the files, in list order, whose ranges are not empty, each
      with exactly its ranges; every file left out has no range. */
  lemma ChangeSetShape(files: seq<string>, diffOf: string -> Result<string>)
    returns (idx: seq<nat>)
    requires Collect(files, EntryOf(diffOf)).Ok?
    ensures forall k :: 0 <= k < |files| ==> FileSucceeds(diffOf, files[k])
    ensures var v := Collect(files, EntryOf(diffOf)).value;
      |idx| == |v| &&
      (forall j :: 0 <= j < |idx| ==>
         idx[j] < |files| && v[j] == FileChange(RangesOf(diffOf, files[idx[j]]), files[idx[j]]) &&
         v[j].changes != []) &&
      (forall i, j :: 0 <= i < j < |idx| ==> idx[i] < idx[j]) &&
      (forall k :: 0 <= k < |files| && k !in idx ==> RangesOf(diffOf, files[k]) == [])
  {
    var f := EntryOf(diffOf);
    forall k | 0 <= k < |files|
      ensures f(files[k]) == FileEntry(diffOf, files[k])
      ensures f(files[k]).Ok? ==> FileSucceeds(diffOf, files[k]) && |f(files[k]).value| <= 1
      ensures f(files[k]).Ok? && f(files[k]).value == [] ==> RangesOf(diffOf, files[k]) == []
      ensures f(files[k]).Ok? && f(files[k]).value != [] ==>
                f(files[k]).value == [FileChange(RangesOf(diffOf, files[k]), files[k])] &&
                RangesOf(diffOf, files[k]) != []
    {
      EntryOfApply(diffOf, files[k]);
    }
    idx := CollectSelect(files, f);
  }

  /** `getChangesByFileName`'s map, built entry by entry, later entries
      overwriting earlier ones with the same path. */
  function IndexOf(changes: seq<FileChange>): map<string, FileChange>
    decreases |changes|
  {
    if changes == [] then map[]
    else
      var last := changes[|changes| - 1];
      IndexOf(changes[..|changes| - 1])[last.path := last]
  }

  /** `getChangesByFileName`. */
  method GetChangesByFileName(changes: seq<FileChange>) returns (index: map<string, FileChange>)
    ensures index == IndexOf(changes)
  {
    index := map[];
    for i := 0 to |changes|
      invariant index == IndexOf(changes[..i])
    {
      assert changes[..i + 1][..i] == changes[..i];
      index := index[changes[i].path := changes[i]];
    }
    assert changes[..|changes|] == changes;
  }

  /** The index has one key per distinct path of the change set. */
  lemma {:induction false} IndexOfKeys(changes: seq<FileChange>)
    ensures IndexOf(changes).Keys == set k | 0 <= k < |changes| :: changes[k].path
    decreases |changes|
  {
    if changes != [] {
      var n := |changes| - 1;
      var prefix := changes[..n];
      IndexOfKeys(prefix);
      var keys := set k | 0 <= k < |changes| :: changes[k].path;
      var keys0 := set k | 0 <= k < n :: prefix[k].path;
      assert IndexOf(changes).Keys == keys0 + {changes[n].path};
      forall p | p in keys ensures p in keys0 + {changes[n].path} {
        var k :| 0 <= k < |changes| && changes[k].path == p;
        if k < n { assert prefix[k].path == p; }
      }
      forall p | p in keys0 ensures p in keys {
        var k :| 0 <= k < n && prefix[k].path == p;
        assert changes[k].path == p;
      }
    }
  }

  /** The entry of a path is the last entry of the change set with that
      path. */
  lemma {:induction false} IndexOfLastWins(changes: seq<FileChange>, k: nat)
    requires k < |changes|
    requires forall j :: k < j < |changes| ==> changes[j].path != changes[k].path
    ensures changes[k].path in IndexOf(changes) && IndexOf(changes)[changes[k].path] == changes[k]
    decreases |changes|
  {
    var n := |changes| - 1;
    if k < n {
      var prefix := changes[..n];
      assert prefix[k] == changes[k];
      assert forall j :: k < j < n ==> prefix[j] == changes[j];
      IndexOfLastWins(prefix, k);
    }
  }

  /** Every entry of the index is an entry of the change set, under its own
      path. */
  lemma {:induction false} IndexOfValues(changes: seq<FileChange>, path: string)
    requires path in IndexOf(changes)
    ensures exists j :: 0 <= j < |changes| && changes[j] == IndexOf(changes)[path] && changes[j].path == path
    decreases |changes|
  {
    var n := |changes| - 1;
    var prefix := changes[..n];
    if changes[n].path != path {
      IndexOfValues(prefix, path);
      var j :| 0 <= j < n && prefix[j] == IndexOf(prefix)[path] && prefix[j].path == path;
      assert changes[j] == prefix[j];
    }
  }
}
