/** The two fixed regular expressions of the pipeline, specified directly over
    strings instead of through a regex engine, and Go's `FindAll...(s, -1)`:
    the leftmost, non-overlapping matches from left to right.

    - `PlusPair` is `[+](\d+),(\d+)`: the new-file side `+start,length` of a
      hunk header.
    - `HunkMarker` is `@@[ \-+\d,]+@@`: a whole hunk-header marker.

    Neither pattern can match the empty string, and at a given position each
    has at most one match (its runs are greedy and the character that ends a
    run is outside the run's class), so a pattern is fully described by the
    end of its match at each position. */
module Scan {
  import opened Text

  datatype Option<T> = None | Some(value: T)

  datatype CharClass = Digits | HunkChars

  predicate InClass(cls: CharClass, c: char)
  {
    match cls
    case Digits => IsDigit(c)
    case HunkChars => IsHunkChar(c)
  }

  /** The length of the maximal run of `cls` characters starting at `i`: what
      a greedy `[...]+` or `\d+` consumes. */
  function Run(cls: CharClass, s: string, i: nat): (n: nat)
    requires i <= |s|
    ensures i + n <= |s|
    ensures forall j :: i <= j < i + n ==> InClass(cls, s[j])
    ensures i + n == |s| || !InClass(cls, s[i + n])
    decreases |s| - i
  {
    if i < |s| && InClass(cls, s[i]) then 1 + Run(cls, s, i + 1) else 0
  }

  /** A run is determined by where it stops. */
  lemma RunUnique(cls: CharClass, s: string, i: nat, n: nat)
    requires i + n <= |s|
    requires forall j :: i <= j < i + n ==> InClass(cls, s[j])
    requires i + n == |s| || !InClass(cls, s[i + n])
    ensures Run(cls, s, i) == n
  {
  }

  datatype Pattern =
    | PlusPair    // [+](\d+),(\d+)
    | HunkMarker  // @@[ \-+\d,]+@@

  /** Where the comma of a `PlusPair` candidate at `i` would stand. */
  function CommaAt(s: string, i: nat): nat
    requires i < |s|
  {
    i + 1 + Run(Digits, s, i + 1)
  }

  /** The end of the `[+](\d+),(\d+)` match that starts at `i`, if any. */
  function PlusPairEnd(s: string, i: nat): (r: Option<nat>)
    requires i < |s|
    ensures r.Some? ==> i < r.value <= |s|
    ensures r.Some? ==> PlusPairShape(s, i, CommaAt(s, i), r.value)
  {
    var c := CommaAt(s, i);
    if s[i] != '+' || c == i + 1 || c == |s| || s[c] != ',' then None
    else
      var e := c + 1 + Run(Digits, s, c + 1);
      if e == c + 1 then None else Some(e)
  }

  /** The end of the `@@[ \-+\d,]+@@` match that starts at `i`, if any. */
  function HunkMarkerEnd(s: string, i: nat): (r: Option<nat>)
    requires i < |s|
    ensures r.Some? ==> i < r.value <= |s|
    ensures r.Some? ==> HunkMarkerShape(s, i, r.value)
  {
    if i + 1 == |s| || s[i] != '@' || s[i + 1] != '@' then None
    else
      var j := i + 2 + Run(HunkChars, s, i + 2);
      if j == i + 2 || j + 1 >= |s| || s[j] != '@' || s[j + 1] != '@' then None
      else Some(j + 2)
  }

  /** The end of the match of `p` that starts at `i`, if there is one. */
  function MatchEnd(p: Pattern, s: string, i: nat): (r: Option<nat>)
    requires i < |s|
    ensures r.Some? ==> i < r.value <= |s|
  {
    match p
    case PlusPair => PlusPairEnd(s, i)
    case HunkMarker => HunkMarkerEnd(s, i)
  }

  /** `+`, digits, a comma, digits, and no further digit: the text the
      greedy `[+](\d+),(\d+)` consumes from `i` to `e`, with its comma at `c`. */
  predicate PlusPairShape(s: string, i: nat, c: nat, e: nat)
  {
    i + 1 < c && c + 1 < e <= |s| &&
    s[i] == '+' && s[c] == ',' &&
    (forall j :: i < j < c ==> IsDigit(s[j])) &&
    (forall j :: c < j < e ==> IsDigit(s[j])) &&
    (e == |s| || !IsDigit(s[e]))
  }

  /** `@@`, a non-empty interior drawn from `[ \-+\d,]`, `@@`. */
  predicate HunkMarkerShape(s: string, i: nat, e: nat)
  {
    i + 5 <= e <= |s| &&
    s[i] == '@' && s[i + 1] == '@' && s[e - 2] == '@' && s[e - 1] == '@' &&
    forall j :: i + 2 <= j < e - 2 ==> IsHunkChar(s[j])
  }

  /** The `PlusPair` match at `i` is exactly the greedy `+digits,digits`. */
  lemma PlusPairMatch(s: string, i: nat, c: nat, e: nat)
    requires i < |s|
    ensures MatchEnd(PlusPair, s, i) == Some(e) ==> c != CommaAt(s, i) || PlusPairShape(s, i, c, e)
    ensures PlusPairShape(s, i, c, e) ==> c == CommaAt(s, i) && MatchEnd(PlusPair, s, i) == Some(e)
  {
    if PlusPairShape(s, i, c, e) {
      RunUnique(Digits, s, i + 1, c - (i + 1));
      RunUnique(Digits, s, c + 1, e - (c + 1));
    }
  }

  /** The `HunkMarker` match at `i` ends at `e` exactly when `s[i..e]` is
      `@@`, a non-empty run of `[ \-+\d,]`, `@@`. */
  lemma HunkMarkerMatch(s: string, i: nat, e: nat)
    requires i < |s|
    ensures MatchEnd(HunkMarker, s, i) == Some(e) <==> HunkMarkerShape(s, i, e)
  {
    if HunkMarkerShape(s, i, e) {
      assert !IsHunkChar(s[e - 2]);
      RunUnique(HunkChars, s, i + 2, e - 2 - (i + 2));
    }
  }

  /** A match: the span `[lo, hi)` of the text. */
  datatype Span = Span(lo: nat, hi: nat)

  /** A table of where the match starting at each position ends. The scan
      below reads only this table, so the scanning facts hold for any
      pattern that cannot match the empty string. */
  type Ends = seq<Option<nat>>

  predicate ValidEnds(t: Ends)
  {
    forall q :: 0 <= q < |t| && t[q].Some? ==> q < t[q].value <= |t|
  }

  /** The table of `p` over `s`. */
  function EndsOf(p: Pattern, s: string): (t: Ends)
    ensures |t| == |s| && ValidEnds(t)
    ensures forall q :: 0 <= q < |s| ==> t[q] == MatchEnd(p, s, q)
  {
    seq(|s|, q requires 0 <= q < |s| => MatchEnd(p, s, q))
  }

  /** A match starts at `q`. */
  predicate Starts(t: Ends, q: nat)
  {
    q < |t| && t[q].Some?
  }

  predicate IsMatch(t: Ends, m: Span)
  {
    m.lo < |t| && t[m.lo] == Some(m.hi)
  }

  /** Go's `FindAll...(s, -1)` from position `from`: take the match at the
      first position that has one, continue after it. */
  function Scan(t: Ends, from: nat): (ms: seq<Span>)
    requires ValidEnds(t) && from <= |t|
    ensures forall k :: 0 <= k < |ms| ==> from <= ms[k].lo && IsMatch(t, ms[k])
    decreases |t| - from
  {
    if from == |t| then []
    else
      match t[from]
      case Some(e) => [Span(from, e)] + Scan(t, e)
      case None => Scan(t, from + 1)
  }

  /** The matches of `p` in `s`, leftmost first, without overlap. */
  function FindAll(p: Pattern, s: string): (ms: seq<Span>)
    ensures forall k :: 0 <= k < |ms| ==> ms[k].lo < |s| && MatchEnd(p, s, ms[k].lo) == Some(ms[k].hi)
  {
    Scan(EndsOf(p, s), 0)
  }

  /** The matches are in text order and do not overlap. */
  lemma {:induction false} ScanOrdered(t: Ends, from: nat)
    requires ValidEnds(t) && from <= |t|
    ensures forall j, k :: 0 <= j < k < |Scan(t, from)| ==> Scan(t, from)[j].hi <= Scan(t, from)[k].lo
    decreases |t| - from
  {
    if from < |t| {
      if t[from].Some? {
        var e := t[from].value;
        var rest := Scan(t, e);
        ScanOrdered(t, e);
        var ms := [Span(from, e)] + rest;
        assert Scan(t, from) == ms;
        forall j, k | 0 <= j < k < |ms| ensures ms[j].hi <= ms[k].lo {
          assert ms[k] == rest[k - 1];
          if j > 0 {
            assert ms[j] == rest[j - 1];
          }
        }
      } else {
        assert Scan(t, from) == Scan(t, from + 1);
        ScanOrdered(t, from + 1);
      }
    }
  }

  /** The leftmost-first, non-overlapping reading of the text from `from`:
      every span is a match, the spans are in text order without overlap,
      and every position from `from` on where a match starts lies inside
      one of the spans (a match left out overlaps one taken). */
  predicate LeftmostScan(t: Ends, from: nat, ms: seq<Span>)
  {
    (forall k :: 0 <= k < |ms| ==> from <= ms[k].lo && IsMatch(t, ms[k])) &&
    (forall j, k :: 0 <= j < k < |ms| ==> ms[j].hi <= ms[k].lo) &&
    (forall q :: from <= q < |t| && Starts(t, q) ==> exists k :: 0 <= k < |ms| && ms[k].lo <= q < ms[k].hi)
  }

  lemma {:induction false} ScanCovers(t: Ends, from: nat, q: nat)
    requires ValidEnds(t) && from <= q < |t| && Starts(t, q)
    ensures exists k :: 0 <= k < |Scan(t, from)| && Scan(t, from)[k].lo <= q < Scan(t, from)[k].hi
    decreases |t| - from
  {
    var ms := Scan(t, from);
    if t[from].Some? {
      var e := t[from].value;
      var rest := Scan(t, e);
      assert ms == [Span(from, e)] + rest;
      if q < e {
        assert ms[0].lo <= q < ms[0].hi;
      } else {
        ScanCovers(t, e, q);
        var k :| 0 <= k < |rest| && rest[k].lo <= q < rest[k].hi;
        assert ms[k + 1] == rest[k];
      }
    } else {
      assert q != from;
      assert ms == Scan(t, from + 1);
      ScanCovers(t, from + 1, q);
    }
  }

  /** Positions where no match starts are passed over. */
  lemma {:induction false} ScanSkip(t: Ends, from: nat, to: nat)
    requires ValidEnds(t) && from <= to <= |t|
    requires forall q :: from <= q < to ==> !Starts(t, q)
    ensures Scan(t, from) == Scan(t, to)
    decreases |t| - from
  {
    if from < to {
      assert !Starts(t, from);
      assert Scan(t, from) == Scan(t, from + 1);
      ScanSkip(t, from + 1, to);
    }
  }

  /** `Scan` is a leftmost scan. */
  lemma ScanIsLeftmost(t: Ends, from: nat)
    requires ValidEnds(t) && from <= |t|
    ensures LeftmostScan(t, from, Scan(t, from))
  {
    ScanOrdered(t, from);
    forall q | from <= q < |t| && Starts(t, q)
      ensures exists k :: 0 <= k < |Scan(t, from)| && Scan(t, from)[k].lo <= q < Scan(t, from)[k].hi
    {
      ScanCovers(t, from, q);
    }
  }

  /** In a leftmost scan no match starts before the first span, and the
      spans after the first are a leftmost scan from its end. */
  lemma LeftmostScanTail(t: Ends, from: nat, ms: seq<Span>)
    requires ValidEnds(t) && LeftmostScan(t, from, ms) && ms != []
    ensures forall q :: from <= q < ms[0].lo ==> !Starts(t, q)
    ensures LeftmostScan(t, ms[0].hi, ms[1..])
  {
    var first, rest := ms[0], ms[1..];
    assert forall k :: 0 <= k < |rest| ==> rest[k] == ms[k + 1];
    forall q | first.hi <= q < |t| && Starts(t, q)
      ensures exists k :: 0 <= k < |rest| && rest[k].lo <= q < rest[k].hi
    {
      assert first.lo < first.hi;
      var k :| 0 <= k < |ms| && ms[k].lo <= q < ms[k].hi;
      assert rest[k - 1] == ms[k];
    }
  }

  /** The leftmost scan is unique: any ordered, non-overlapping list of
      matches that covers every match start is the list `Scan` returns. */
  lemma {:induction false} LeftmostScanUnique(t: Ends, from: nat, ms: seq<Span>)
    requires ValidEnds(t) && from <= |t|
    requires LeftmostScan(t, from, ms)
    ensures ms == Scan(t, from)
    decreases |t| - from
  {
    if ms == [] {
      ScanSkip(t, from, |t|);
    } else {
      var first := ms[0];
      LeftmostScanTail(t, from, ms);
      ScanSkip(t, from, first.lo);
      assert Scan(t, first.lo) == [first] + Scan(t, first.hi);
      LeftmostScanUnique(t, first.hi, ms[1..]);
      assert ms == [first] + ms[1..];
    }
  }

  /** `FindAll(p, s)` is the one leftmost, non-overlapping list of the
      matches of `p` in `s`. */
  lemma FindAllLeftmost(p: Pattern, s: string, ms: seq<Span>)
    ensures LeftmostScan(EndsOf(p, s), 0, FindAll(p, s))
    ensures LeftmostScan(EndsOf(p, s), 0, ms) <==> ms == FindAll(p, s)
  {
    ScanIsLeftmost(EndsOf(p, s), 0);
    if LeftmostScan(EndsOf(p, s), 0, ms) {
      LeftmostScanUnique(EndsOf(p, s), 0, ms);
    }
  }
}
