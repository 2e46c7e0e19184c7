/** The text primitives the pipeline borrows from Go's standard library:
    ASCII digits (the `\d` of Go's regexp package), decimal values,
    `strings.Split(s, "\n")` and `strings.HasPrefix(line, "commit ")`. */
module Text {

  predicate IsDigit(c: char) { '0' <= c <= '9' }

  /** The character class `[ \-+\d,]` of the hunk-header pattern. */
  predicate IsHunkChar(c: char) { c == ' ' || c == '-' || c == '+' || IsDigit(c) || c == ',' }

  predicate AllDigits(s: string) { forall j :: 0 <= j < |s| ==> IsDigit(s[j]) }

  /** A non-empty run of digits, as a `(\d+)` group captures it. */
  type Decimal = s: string | |s| > 0 && AllDigits(s) witness "0"

  /** The value of a digit string, most significant digit first. */
  function DecimalValue(s: string): nat
    requires AllDigits(s)
    decreases |s|
  {
    if s == [] then 0
    else 10 * DecimalValue(s[..|s| - 1]) + (s[|s| - 1] as int - '0' as int)
  }

  /** `strings.Split(s, "\n")`: the pieces between newlines, always at least
      one (the empty string gives `[""]`, a trailing newline an empty last
      piece). */
  function Split(s: string): (lines: seq<string>)
    ensures |lines| >= 1
    decreases |s|
  {
    if s == [] then [""]
    else
      var rest := Split(s[1..]);
      if s[0] == '\n' then [""] + rest
      else [[s[0]] + rest[0]] + rest[1..]
  }

  /** `strings.Join(lines, "\n")`, the inverse of `Split`. */
  function Join(lines: seq<string>): string
    requires |lines| >= 1
    decreases |lines|
  {
    if |lines| == 1 then lines[0] else lines[0] + "\n" + Join(lines[1..])
  }

  predicate NoNewline(line: string) { forall j :: 0 <= j < |line| ==> line[j] != '\n' }

  /** Joining the pieces gives the text back. */
  lemma {:induction false} JoinSplit(s: string)
    ensures Join(Split(s)) == s
    decreases |s|
  {
    if s != [] {
      JoinSplit(s[1..]);
      var rest := Split(s[1..]);
      if s[0] == '\n' {
        assert ([""] + rest)[1..] == rest;
        assert s == [s[0]] + s[1..];
      } else {
        var lines := [[s[0]] + rest[0]] + rest[1..];
        if |rest| == 1 {
          assert s == [s[0]] + rest[0];
        } else {
          assert lines[1..] == rest[1..];
          assert s == [s[0]] + (rest[0] + "\n" + Join(rest[1..]));
        }
      }
    }
  }

  /** No piece holds a newline. */
  lemma {:induction false} SplitNoNewline(s: string)
    ensures forall k :: 0 <= k < |Split(s)| ==> NoNewline(Split(s)[k])
    decreases |s|
  {
    if s != [] {
      SplitNoNewline(s[1..]);
      var rest := Split(s[1..]);
      if s[0] != '\n' {
        assert NoNewline(rest[0]);
        assert NoNewline([s[0]] + rest[0]);
        var lines := [[s[0]] + rest[0]] + rest[1..];
        assert forall k :: 1 <= k < |lines| ==> lines[k] == rest[k];
      } else {
        assert forall k :: 1 <= k < |[""] + rest| ==> ([""] + rest)[k] == rest[k - 1];
      }
    }
  }

  /** Splitting a text whose first piece is `a` puts `a` in front of the
      first piece of the rest. */
  lemma {:induction false} SplitPrefix(a: string, b: string)
    requires NoNewline(a)
    ensures Split(a + b) == [a + Split(b)[0]] + Split(b)[1..]
    decreases |a|
  {
    if a != [] {
      assert (a + b)[0] == a[0];
      assert (a + b)[1..] == a[1..] + b;
      assert NoNewline(a[1..]);
      assert a[0] != '\n';
      SplitPrefix(a[1..], b);
      var rest := Split(a[1..] + b);
      assert rest[0] == a[1..] + Split(b)[0];
      assert rest[1..] == Split(b)[1..];
      assert [a[0]] + (a[1..] + Split(b)[0]) == a + Split(b)[0];
      assert Split(a + b) == [[a[0]] + rest[0]] + rest[1..];
    } else {
      assert a + b == b;
      assert a + Split(b)[0] == Split(b)[0];
      assert Split(b) == [Split(b)[0]] + Split(b)[1..];
    }
  }

  /** Splitting recovers any list of newline-free pieces that was joined. */
  lemma {:induction false} SplitJoin(lines: seq<string>)
    requires |lines| >= 1
    requires forall k :: 0 <= k < |lines| ==> NoNewline(lines[k])
    ensures Split(Join(lines)) == lines
    decreases |lines|
  {
    if |lines| == 1 {
      SplitPrefix(lines[0], "");
      assert lines[0] + "" == lines[0];
    } else {
      var rest := lines[1..];
      var t := Join(rest);
      assert forall k :: 0 <= k < |rest| ==> rest[k] == lines[k + 1];
      SplitJoin(rest);
      assert Join(lines) == lines[0] + ("\n" + t);
      SplitPrefix(lines[0], "\n" + t);
      SplitNewline(t);
      assert lines[0] + "" == lines[0];
      assert lines == [lines[0]] + rest;
    }
  }

  /** A leading newline starts with an empty piece. */
  lemma SplitNewline(t: string)
    ensures Split("\n" + t) == [""] + Split(t)
  {
    assert ("\n" + t)[1..] == t;
  }

  lemma {:induction false} JoinAppend(lines: seq<string>, last: string)
    requires |lines| >= 1
    ensures Join(lines + [last]) == Join(lines) + "\n" + last
    decreases |lines|
  {
    if |lines| == 1 {
      assert (lines + [last])[1..] == [last];
    } else {
      assert (lines + [last])[1..] == lines[1..] + [last];
      JoinAppend(lines[1..], last);
    }
  }

  /** A trailing newline adds one empty last piece. */
  lemma SplitTrailingNewline(s: string)
    ensures Split(s + "\n") == Split(s) + [""]
  {
    var lines := Split(s);
    SplitNoNewline(s);
    JoinSplit(s);
    JoinAppend(lines, "");
    assert s + "\n" == Join(lines) + "\n" + "";
    var more := lines + [""];
    assert forall k :: 0 <= k < |more| ==> NoNewline(more[k]) by {
      forall k | 0 <= k < |more| ensures NoNewline(more[k]) {
        if k < |lines| { assert more[k] == lines[k]; }
      }
    }
    SplitJoin(more);
  }

  /** `strings.HasPrefix(line, "commit ")`. */
  predicate IsCommitLine(line: string) { |line| >= 7 && line[..7] == "commit " }

  /** A line is a commit line exactly when it is `commit ` followed by
      anything. */
  lemma CommitLinePrefix(line: string)
    ensures IsCommitLine(line) <==> exists rest :: line == "commit " + rest
  {
    if IsCommitLine(line) {
      assert line == "commit " + line[7..];
    }
  }
}
