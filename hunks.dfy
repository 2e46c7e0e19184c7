/** Hunk headers of a unified diff: extracting the `@@ ... @@` markers from a
    diff (`findHunkHeadersOfFile`) and reading the new-file ranges
    `+start,length` out of one marker (`findChangesByHunkHeader`). */
module Hunks {
  import opened Text
  import opened Scan
  import opened Results

  const MaxInt64: int := 0x7FFF_FFFF_FFFF_FFFF
  const MinInt64: int := -0x8000_0000_0000_0000
  const TwoTo64: int := 0x1_0000_0000_0000_0000

  predicate IsInt64(x: int) { MinInt64 <= x <= MaxInt64 }

  /** `strconv.ParseInt(digits, 10, 64)` on a run of digits: its value, or a
      range error when the value does not fit in a signed 64-bit integer. */
  function ParseInt64(digits: Decimal): (r: Result<int>)
    ensures r.Ok? <==> DecimalValue(digits) <= MaxInt64
    ensures r.Ok? ==> IsInt64(r.value) && r.value == DecimalValue(digits)
    ensures r.Err? ==> r.error == OutOfRange(digits)
  {
    var v := DecimalValue(digits);
    if v <= MaxInt64 then Ok(v) else Err(OutOfRange(digits))
  }

  /** Go's `+` on two `int64` values: the sum wrapped into the signed 64-bit
      range, i.e. the one 64-bit value congruent to the sum modulo 2^64. */
  function WrapAdd64(a: int, b: int): (r: int)
    requires IsInt64(a) && IsInt64(b)
    ensures IsInt64(r) && (r - (a + b)) % TwoTo64 == 0
  {
    var sum := a + b;
    if sum > MaxInt64 then sum - TwoTo64
    else if sum < MinInt64 then sum + TwoTo64
    else sum
  }

  /** One block of new-file lines, `[start, end]` (the `Changes` struct). */
  datatype Change = Change(start: int, end: int)

  /** The two groups `(\d+)` captured by one `[+](\d+),(\d+)` match. */
  datatype PlusMatch = PlusMatch(start: Decimal, amount: Decimal)

  /** The groups of the match `m`: the digits before and after its comma. */
  function Capture(s: string, m: Span): (c: PlusMatch)
    requires IsMatch(EndsOf(PlusPair, s), m)
    ensures m.lo < m.hi <= |s| && s[m.lo..m.hi] == "+" + c.start + "," + c.amount
  {
    var comma := CommaAt(s, m.lo);
    var c := PlusMatch(s[m.lo + 1..comma], s[comma + 1..m.hi]);
    assert s[m.lo..m.hi] == [s[m.lo]] + s[m.lo + 1..comma] + [s[comma]] + s[comma + 1..m.hi];
    c
  }

  /** `FindAllStringSubmatch(hunkHeader, -1)` for `[+](\d+),(\d+)`: the
      groups of every match, leftmost first. */
  function PlusMatches(hunkHeader: string): (r: seq<PlusMatch>)
    ensures var spans := FindAll(PlusPair, hunkHeader);
      |r| == |spans| &&
      forall k :: 0 <= k < |r| ==>
        hunkHeader[spans[k].lo..spans[k].hi] == "+" + r[k].start + "," + r[k].amount
  {
    var spans := FindAll(PlusPair, hunkHeader);
    seq(|spans|, k requires 0 <= k < |spans| => Capture(hunkHeader, spans[k]))
  }

  /** The range of one match, `[start, start+amount]`, or the error of the
      first group that does not parse. */
  function RangeOf(m: PlusMatch): Result<seq<Change>>
  {
    match ParseInt64(m.start)
    case Err(e) => Err(e)
    case Ok(start) =>
      match ParseInt64(m.amount)
      case Err(e) => Err(e)
      case Ok(amount) => Ok([Change(start, WrapAdd64(start, amount))])
  }

  /** What `findChangesByHunkHeader` returns for a header. */
  function HeaderChanges(hunkHeader: string): Result<seq<Change>>
  {
    Collect(PlusMatches(hunkHeader), RangeOf)
  }

  /** `findChangesByHunkHeader`: parse every `+start,amount` of the header,
      left to right, into `[start, start+amount]`; stop at the first group
      that does not fit in 64 bits. */
  method FindChangesByHunkHeader(hunkHeader: string) returns (r: Result<seq<Change>>)
    ensures r == HeaderChanges(hunkHeader)
  {
    var matches := PlusMatches(hunkHeader);
    var ranges: seq<Change> := [];
    for k := 0 to |matches|
      invariant Collect(matches[..k], RangeOf) == Ok(ranges)
    {
      CollectStep(matches, k, RangeOf);
      var start := ParseInt64(matches[k].start);
      if start.Err? {
        CollectSticky(matches, k + 1, RangeOf);
        return Err(start.error);
      }
      var amount := ParseInt64(matches[k].amount);
      if amount.Err? {
        CollectSticky(matches, k + 1, RangeOf);
        return Err(amount.error);
      }
      ranges := ranges + [Change(start.value, WrapAdd64(start.value, amount.value))];
    }
    assert matches[..|matches|] == matches;
    return Ok(ranges);
  }

  predicate Fits(d: Decimal) { DecimalValue(d) <= MaxInt64 }

  /** The ranges of a list of matches: Ok exactly when every number fits,
      and then one range per match, in order. */
  lemma RangesOfMatches(ms: seq<PlusMatch>)
    ensures Collect(ms, RangeOf).Ok? <==> forall k :: 0 <= k < |ms| ==> Fits(ms[k].start) && Fits(ms[k].amount)
    ensures var r := Collect(ms, RangeOf);
      r.Ok? ==> (|r.value| == |ms| &&
        forall k :: 0 <= k < |ms| ==>
          r.value[k] == Change(DecimalValue(ms[k].start), WrapAdd64(DecimalValue(ms[k].start), DecimalValue(ms[k].amount))))
  {
    CollectOkIff(ms, RangeOf);
    if Collect(ms, RangeOf).Ok? {
      CollectSingletons(ms, RangeOf);
    }
  }

  /** For two non-negative 64-bit values the wrapped sum is below the start
      exactly when the true sum overflows, and is the true sum otherwise. */
  lemma WrapAddOverflow(start: int, amount: int)
    requires 0 <= start <= MaxInt64 && 0 <= amount <= MaxInt64
    ensures start <= WrapAdd64(start, amount) <==> start + amount <= MaxInt64
    ensures start + amount <= MaxInt64 ==> WrapAdd64(start, amount) == start + amount
  {
  }

  /** A header parses exactly when every captured number fits in 64 bits;
      then it yields one range per match, in match order, running from the
      match's start to start plus amount (wrapped to 64 bits), and a range
      ends before it starts exactly when that sum overflows. */
  lemma HeaderChangesSpec(hunkHeader: string)
    ensures var ms := PlusMatches(hunkHeader);
      HeaderChanges(hunkHeader).Ok? <==>
        forall k :: 0 <= k < |ms| ==> Fits(ms[k].start) && Fits(ms[k].amount)
    ensures var ms, r := PlusMatches(hunkHeader), HeaderChanges(hunkHeader);
      r.Ok? ==> (|r.value| == |ms| &&
        forall k :: 0 <= k < |ms| ==>
          var start, amount := DecimalValue(ms[k].start), DecimalValue(ms[k].amount);
          r.value[k] == Change(start, WrapAdd64(start, amount)) &&
          (r.value[k].start <= r.value[k].end <==> start + amount <= MaxInt64) &&
          (start + amount <= MaxInt64 ==> r.value[k].end == start + amount))
  {
    var ms := PlusMatches(hunkHeader);
    RangesOfMatches(ms);
    if HeaderChanges(hunkHeader).Ok? {
      forall k | 0 <= k < |ms|
        ensures var start, amount := DecimalValue(ms[k].start), DecimalValue(ms[k].amount);
          (start <= WrapAdd64(start, amount) <==> start + amount <= MaxInt64) &&
          (start + amount <= MaxInt64 ==> WrapAdd64(start, amount) == start + amount)
      {
        WrapAddOverflow(DecimalValue(ms[k].start), DecimalValue(ms[k].amount));
      }
    }
  }

  /** A header with no `+` has no ranges. */
  lemma NoPlusNoChanges(hunkHeader: string)
    requires forall j :: 0 <= j < |hunkHeader| ==> hunkHeader[j] != '+'
    ensures HeaderChanges(hunkHeader) == Ok([])
  {
    NoMatchNoChanges(hunkHeader);
  }

  /** A text where no position starts a match has no ranges. */
  lemma NoMatchNoChanges(h: string)
    requires forall q :: 0 <= q < |h| ==> MatchEnd(PlusPair, h, q) == None
    ensures HeaderChanges(h) == Ok([])
  {
    var t := EndsOf(PlusPair, h);
    LeftmostScanUnique(t, 0, []);
  }

  predicate NoPlus(s: string) { forall j :: 0 <= j < |s| ==> s[j] != '+' }

  lemma NoPlusConcat(x: string, y: string)
    requires NoPlus(x) && NoPlus(y)
    ensures NoPlus(x + y)
  {
    forall j | 0 <= j < |x + y| ensures (x + y)[j] != '+' {
      if j >= |x| { assert (x + y)[j] == y[j - |x|]; }
    }
  }

  /** The characters of `before + "+" + c + rest`, position by position. */
  lemma PlusLayoutAt(before: string, c: string, rest: string, q: nat)
    requires q < |before| + 1 + |c| + |rest|
    ensures var h, p := before + "+" + c + rest, |before|;
      h[q] == if q < p then before[q]
              else if q == p then '+'
              else if q <= p + |c| then c[q - p - 1]
              else rest[q - p - 1 - |c|]
  {
  }

  /** The characters of `"," + d + after`, position by position. */
  lemma CommaLayoutAt(d: string, after: string, r: nat)
    requires r < 1 + |d| + |after|
    ensures var rest := "," + d + after;
      rest[r] == if r == 0 then ',' else if r <= |d| then d[r - 1] else after[r - 1 - |d|]
  {
  }

  /** Where the pieces of `h == before + "+" + c + "," + d + after` stand. */
  lemma SinglePlusLayout(h: string, before: string, c: Decimal, d: Decimal, after: string,
                         p: nat, comma: nat, e: nat)
    requires h == before + "+" + c + ("," + d + after)
    requires NoPlus(before) && NoPlus(after)
    requires after == [] || !IsDigit(after[0])
    requires p == |before| && comma == p + 1 + |c| && e == comma + 1 + |d|
    ensures PlusPairShape(h, p, comma, e)
    ensures h[p + 1..comma] == c && h[comma + 1..e] == d
    ensures forall q :: 0 <= q < |h| && q != p ==> h[q] != '+'
  {
    var rest := "," + d + after;
    forall q | 0 <= q < |h|
      ensures q < p ==> h[q] == before[q]
      ensures q == p ==> h[q] == '+'
      ensures p < q < comma ==> h[q] == c[q - p - 1]
      ensures q == comma ==> h[q] == ','
      ensures comma < q < e ==> h[q] == d[q - comma - 1]
      ensures e <= q ==> h[q] == after[q - e]
    {
      PlusLayoutAt(before, c, rest, q);
      if q >= comma {
        CommaLayoutAt(d, after, q - comma);
      }
    }
    assert h[p + 1..comma] == c;
    assert h[comma + 1..e] == d;
  }

  /** A text whose only `+` starts a match has that match alone. */
  lemma OnlyPlusPair(h: string, p: nat, e: nat)
    requires p < |h| && MatchEnd(PlusPair, h, p) == Some(e)
    requires forall q :: 0 <= q < |h| && q != p ==> h[q] != '+'
    ensures FindAll(PlusPair, h) == [Span(p, e)]
  {
    var t := EndsOf(PlusPair, h);
    var spans := [Span(p, e)];
    forall q | 0 <= q < |t| && Starts(t, q)
      ensures exists k :: 0 <= k < |spans| && spans[k].lo <= q < spans[k].hi
    {
      assert t[q] == MatchEnd(PlusPair, h, q);
      assert h[q] == '+';
      assert spans[0].lo <= q < spans[0].hi;
    }
    assert LeftmostScan(t, 0, spans);
    LeftmostScanUnique(t, 0, spans);
  }

  /** The only `+` of a header is followed by `c,d`: the one match captures
      `c` and `d`. */
  lemma SinglePlusPair(h: string, before: string, c: Decimal, d: Decimal, after: string)
    requires h == before + "+" + c + ("," + d + after)
    requires NoPlus(before) && NoPlus(after)
    requires after == [] || !IsDigit(after[0])
    ensures PlusMatches(h) == [PlusMatch(c, d)]
  {
    var p := |before|;
    var comma := p + 1 + |c|;
    var e := comma + 1 + |d|;
    SinglePlusFacts(h, before, c, d, after, p, comma, e);
    OnlyPlusPairMatches(h, p, comma, e, c, d);
  }

  lemma SinglePlusFacts(h: string, before: string, c: Decimal, d: Decimal, after: string,
                        p: nat, comma: nat, e: nat)
    requires h == before + "+" + c + ("," + d + after)
    requires NoPlus(before) && NoPlus(after)
    requires after == [] || !IsDigit(after[0])
    requires p == |before| && comma == p + 1 + |c| && e == comma + 1 + |d|
    ensures p < |h| && MatchEnd(PlusPair, h, p) == Some(e) && comma == CommaAt(h, p)
    ensures h[p + 1..comma] == c && h[comma + 1..e] == d
    ensures forall q :: 0 <= q < |h| && q != p ==> h[q] != '+'
  {
    SinglePlusLayout(h, before, c, d, after, p, comma, e);
    PlusPairMatch(h, p, comma, e);
  }

  /** The match of `+c,d` at the only `+` of a text captures `c` and `d`. */
  lemma OnlyPlusPairMatches(h: string, p: nat, comma: nat, e: nat, c: Decimal, d: Decimal)
    requires p < |h| && MatchEnd(PlusPair, h, p) == Some(e) && comma == CommaAt(h, p)
    requires h[p + 1..comma] == c && h[comma + 1..e] == d
    requires forall q :: 0 <= q < |h| && q != p ==> h[q] != '+'
    ensures PlusMatches(h) == [PlusMatch(c, d)]
  {
    OnlyPlusPair(h, p, e);
    assert Capture(h, Span(p, e)) == PlusMatch(c, d);
  }

  /** A header with a single match `+c,d` that fits yields `[c, c+d]`. */
  lemma SingleMatchHeader(h: string, m: PlusMatch)
    requires PlusMatches(h) == [m]
    requires Fits(m.start) && Fits(m.amount)
    ensures HeaderChanges(h) ==
            Ok([Change(DecimalValue(m.start), WrapAdd64(DecimalValue(m.start), DecimalValue(m.amount)))])
  {
    SingleCollect(m);
  }

  /** The usual header `@@ -a,b +c,d @@` yields the one range `[c, c+d]`. */
  lemma UsualHeader(h: string, a: Decimal, b: Decimal, c: Decimal, d: Decimal)
    requires h == "@@ -" + a + "," + b + " +" + c + "," + d + " @@"
    requires Fits(c) && Fits(d)
    ensures HeaderChanges(h) == Ok([Change(DecimalValue(c), WrapAdd64(DecimalValue(c), DecimalValue(d)))])
  {
    var before := "@@ -" + a + "," + b + " ";
    var after := " @@";
    UsualHeaderText(h, before, a, b, c, d, after);
    SinglePlusPair(h, before, c, d, after);
    SingleMatchHeader(h, PlusMatch(c, d));
  }

  lemma OneOneText(one: Decimal)
    requires one == "1"
    ensures "@@ -" + one + "," + one + " +" + one + "," + one + " @@" == "@@ -1,1 +1,1 @@"
  {
  }

  /** A header that adds one line at line 1 gives the range from 1 to 2:
      the end is start plus count, one past the last added line. */
  lemma SingleLineHunk(h: string)
    requires h == "@@ -1,1 +1,1 @@"
    ensures HeaderChanges(h) == Ok([Change(1, 2)])
  {
    var one: Decimal := "1";
    assert DecimalValue(one) == 1 by {
      assert one[..0] == [];
    }
    OneOneText(one);
    UsualHeader(h, one, one, one, one);
  }

  lemma UsualHeaderText(h: string, before: string, a: Decimal, b: Decimal, c: Decimal, d: Decimal,
                        after: string)
    requires h == "@@ -" + a + "," + b + " +" + c + "," + d + " @@"
    requires before == "@@ -" + a + "," + b + " " && after == " @@"
    ensures h == before + "+" + c + ("," + d + after)
    ensures NoPlus(before) && NoPlus(after)
    ensures after == [] || !IsDigit(after[0])
  {
    NoPlusConcat("@@ -", a);
    NoPlusConcat("@@ -" + a, ",");
    NoPlusConcat("@@ -" + a + ",", b);
    NoPlusConcat("@@ -" + a + "," + b, " ");
  }

  lemma SingleCollect(m: PlusMatch)
    requires Fits(m.start) && Fits(m.amount)
    ensures Collect([m], RangeOf) ==
            Ok([Change(DecimalValue(m.start), WrapAdd64(DecimalValue(m.start), DecimalValue(m.amount)))])
  {
    assert [m][..0] == [];
    assert Collect([m], RangeOf) == Extend(Collect([], RangeOf), RangeOf(m));
    var start, amount := DecimalValue(m.start), DecimalValue(m.amount);
    var c := Change(start, WrapAdd64(start, amount));
    assert RangeOf(m) == Ok([c]);
    assert [] + [c] == [c];
  }

  /** The one-line form `@@ -a +c @@` (length 1 left out) yields no range:
      the pattern needs a comma after the start. */
  lemma OneLineHeader(h: string, a: Decimal, c: Decimal)
    requires h == "@@ -" + a + " +" + c + " @@"
    ensures HeaderChanges(h) == Ok([])
  {
    var before := "@@ -" + a + " ";
    NoPlusConcat("@@ -", a);
    NoPlusConcat("@@ -" + a, " ");
    PlusWithoutComma(h, before, c, " @@");
    NoMatchNoChanges(h);
  }

  /** In `before + "+" + c + after` with a single `+`, digits `c` and no
      comma after them (or nothing at all), no position starts a match. */
  lemma PlusWithoutComma(h: string, before: string, c: Decimal, after: string)
    requires h == before + "+" + c + after
    requires NoPlus(before) && NoPlus(after)
    requires after == [] || (after[0] != ',' && !IsDigit(after[0]))
    ensures forall q :: 0 <= q < |h| ==> MatchEnd(PlusPair, h, q) == None
  {
    var p := |before|;
    var stop := p + 1 + |c|;
    forall q | 0 <= q < |h|
      ensures q < p ==> h[q] == before[q]
      ensures q == p ==> h[q] == '+'
      ensures p < q < stop ==> h[q] == c[q - p - 1]
      ensures stop <= q ==> h[q] == after[q - stop]
    {
      PlusLayoutAt(before, c, after, q);
    }
    RunUnique(Digits, h, p + 1, |c|);
  }

  /** `findHunkHeadersOfFile`'s `FindAllString(diff, -1)` for
      `@@[ \-+\d,]+@@`: the text of every marker, leftmost first. */
  function HunkHeaders(diff: string): (hs: seq<string>)
    ensures var spans := FindAll(HunkMarker, diff);
      |hs| == |spans| &&
      forall k :: 0 <= k < |hs| ==> spans[k].hi <= |diff| && hs[k] == diff[spans[k].lo..spans[k].hi]
  {
    var spans := FindAll(HunkMarker, diff);
    seq(|spans|, k requires 0 <= k < |spans| => diff[spans[k].lo..spans[k].hi])
  }

  predicate IsHunkHeader(h: string)
  {
    |h| >= 5 && h[..2] == "@@" && h[|h| - 2..] == "@@" &&
    forall j :: 2 <= j < |h| - 2 ==> IsHunkChar(h[j])
  }

  /** Every extracted header starts and ends with `@@` around a non-empty
      interior drawn from `[ \-+\d,]`; the headers are taken from the diff in
      text order, do not overlap, and are the leftmost ones: every position
      where a marker starts lies inside one of them. */
  lemma HunkHeadersSpec(diff: string)
    ensures forall k :: 0 <= k < |HunkHeaders(diff)| ==> IsHunkHeader(HunkHeaders(diff)[k])
    ensures var spans := FindAll(HunkMarker, diff);
      forall j, k :: 0 <= j < k < |spans| ==> spans[j].hi <= spans[k].lo
    ensures LeftmostScan(EndsOf(HunkMarker, diff), 0, FindAll(HunkMarker, diff))
  {
    var spans := FindAll(HunkMarker, diff);
    var t := EndsOf(HunkMarker, diff);
    ScanOrdered(t, 0);
    ScanIsLeftmost(t, 0);
    forall k | 0 <= k < |spans| ensures IsHunkHeader(HunkHeaders(diff)[k]) {
      var sp := spans[k];
      HunkMarkerMatch(diff, sp.lo, sp.hi);
      var h := diff[sp.lo..sp.hi];
      assert h[..2] == diff[sp.lo..sp.lo + 2];
      assert h[|h| - 2..] == diff[sp.hi - 2..sp.hi];
    }
  }
}
