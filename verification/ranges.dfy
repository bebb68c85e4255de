/** Camp cleanup: pairs of inclusive section ranges, counting the pairs
    where one range contains the other and the pairs that overlap. */
module Ranges {
  import opened Wrappers
  import Text

  /** Rust's `RangeInclusive<i32>`, `start..=end`; empty when
      `start > end`. */
  datatype Range = Range(start: int, end: int)

  predicate Contains(r: Range, v: int) {
    r.start <= v <= r.end
  }

  predicate IsEmpty(r: Range) {
    r.start > r.end
  }

  /** `a` holds both end points of `b`. */
  function ContainsRange(a: Range, b: Range): (r: bool)
    ensures r ==> !IsEmpty(a) && a.start <= b.start && b.end <= a.end
  {
    Contains(a, b.start) && Contains(a, b.end)
  }

  /** One of the four end points lies in the other range. */
  function OverlapsRange(a: Range, b: Range): (r: bool)
    ensures r ==> !IsEmpty(a) || !IsEmpty(b)
  {
    Contains(a, b.start) || Contains(a, b.end) || Contains(b, a.start) || Contains(b, a.end)
  }

  // ---------------------------------------------------------------------
  // What the two tests mean
  // ---------------------------------------------------------------------

  /** For a non-empty `b`, holding both end points means holding every
      value of `b`. */
  lemma ContainsRangeIsSubset(a: Range, b: Range)
    requires !IsEmpty(b)
    ensures ContainsRange(a, b) <==> forall v :: Contains(b, v) ==> Contains(a, v)
  {
    if !ContainsRange(a, b) {
      if !Contains(a, b.start) {
        assert Contains(b, b.start);
      } else {
        assert Contains(b, b.end);
      }
    }
  }

  lemma OverlapsRangeSymmetric(a: Range, b: Range)
    ensures OverlapsRange(a, b) == OverlapsRange(b, a)
  {
  }

  /** Two non-empty ranges overlap exactly when the later start is not
      past the earlier end, that is when they share a value. */
  lemma OverlapsRangeMeans(a: Range, b: Range)
    requires !IsEmpty(a) && !IsEmpty(b)
    ensures OverlapsRange(a, b) <==> Max(a.start, b.start) <= Min(a.end, b.end)
    ensures OverlapsRange(a, b) <==> exists v :: Contains(a, v) && Contains(b, v)
  {
    if OverlapsRange(a, b) {
      var v := Max(a.start, b.start);
      assert Contains(a, v) && Contains(b, v);
    }
  }

  function Max(x: int, y: int): int {
    if x < y then y else x
  }

  function Min(x: int, y: int): int {
    if x < y then x else y
  }

  /** A range holding the other's end points shares a value with it. */
  lemma ContainsImpliesOverlaps(a: Range, b: Range)
    requires ContainsRange(a, b) || ContainsRange(b, a)
    ensures OverlapsRange(a, b)
  {
  }

  // ---------------------------------------------------------------------
  // Parsing
  // ---------------------------------------------------------------------

  datatype RangeError =
    | BadRangeFormat   // not exactly two end points around '-'
    | BadEndPoint      // an end point that is not an `i32`
    | BadLineFormat    // not exactly two ranges around ','

  /** "a-b" as `a..=b`. The text is cut at every '-', so a negative end
      point makes more than two pieces. */
  function ParseRange(s: string): (r: Result<Range, RangeError>)
    ensures r.Ok? <==>
      var parts := Text.Split(s, "-");
      |parts| == 2 && Text.ParseI32(parts[0]).Some? && Text.ParseI32(parts[1]).Some?
    ensures r.Ok? ==>
      var parts := Text.Split(s, "-");
      r.value == Range(Text.ParseI32(parts[0]).value, Text.ParseI32(parts[1]).value)
    ensures r.Err? && |Text.Split(s, "-")| == 2 ==> r.error == BadEndPoint
  {
    var parts := Text.Split(s, "-");
    if |parts| != 2 then Err(BadRangeFormat)
    else
      var start :- OkOr(Text.ParseI32(parts[0]), BadEndPoint);
      var end :- OkOr(Text.ParseI32(parts[1]), BadEndPoint);
      Ok(Range(start, end))
  }

  /** "a-b,c-d" as the pair of its two ranges. */
  function ParseLine(line: string): (r: Result<(Range, Range), RangeError>)
    ensures r.Ok? <==>
      var parts := Text.Split(line, ",");
      |parts| == 2 && ParseRange(parts[0]).Ok? && ParseRange(parts[1]).Ok?
    ensures r.Ok? ==>
      var parts := Text.Split(line, ",");
      r.value == (ParseRange(parts[0]).value, ParseRange(parts[1]).value)
  {
    var parts := Text.Split(line, ",");
    if |parts| != 2 then Err(BadLineFormat)
    else
      var first :- ParseRange(parts[0]);
      var second :- ParseRange(parts[1]);
      Ok((first, second))
  }

  function FormatRange(r: Range): string
    requires r.start >= 0 && r.end >= 0
  {
    Text.NatToString(r.start) + "-" + Text.NatToString(r.end)
  }

  function FormatLine(pair: (Range, Range)): string
    requires pair.0.start >= 0 && pair.0.end >= 0 && pair.1.start >= 0 && pair.1.end >= 0
  {
    FormatRange(pair.0) + "," + FormatRange(pair.1)
  }

  lemma DigitsFree(s: string, c: char)
    requires Text.AllDigits(s) && !Text.IsDigit(c)
    ensures c !in s
  {
  }

  /** A range with non-negative `i32` end points is read back from its
      rendering. */
  lemma ParseFormatRange(r: Range)
    requires 0 <= r.start <= Text.I32_MAX && 0 <= r.end <= Text.I32_MAX
    ensures ParseRange(FormatRange(r)) == Ok(r)
    ensures ',' !in FormatRange(r)
  {
    var a := Text.NatToString(r.start);
    var b := Text.NatToString(r.end);
    DigitsFree(a, '-');
    DigitsFree(b, '-');
    DigitsFree(a, ',');
    DigitsFree(b, ',');
    Text.SplitTwo(a, '-', b);
    Text.ParseIntToString(r.start, true, Text.I32_MIN, Text.I32_MAX);
    Text.ParseIntToString(r.end, true, Text.I32_MIN, Text.I32_MAX);
  }

  /** A line of two such ranges is read back from its rendering. */
  lemma ParseFormatLine(pair: (Range, Range))
    requires 0 <= pair.0.start <= Text.I32_MAX && 0 <= pair.0.end <= Text.I32_MAX
    requires 0 <= pair.1.start <= Text.I32_MAX && 0 <= pair.1.end <= Text.I32_MAX
    ensures ParseLine(FormatLine(pair)) == Ok(pair)
  {
    var a := FormatRange(pair.0);
    var b := FormatRange(pair.1);
    ParseFormatRange(pair.0);
    ParseFormatRange(pair.1);
    Text.SplitTwo(a, ',', b);
    ParseLineOf(FormatLine(pair), a, b, pair);
  }

  lemma ParseLineOf(line: string, a: string, b: string, pair: (Range, Range))
    requires Text.Split(line, ",") == [a, b]
    requires ParseRange(a) == Ok(pair.0) && ParseRange(b) == Ok(pair.1)
    ensures ParseLine(line) == Ok(pair)
  {
  }

  /** A negative start is cut off by the '-' split: "-1-2" is three
      pieces. */
  lemma NegativeStartRejected()
    ensures ParseRange("-1-2") == Err(BadRangeFormat)
  {
    NegativeStartPieces();
  }

  lemma NegativeStartPieces()
    ensures |Text.Split("-1-2", "-")| == 3
  {
    Text.SplitFirstChar("", '-', "1-2");
    Text.SplitTwo("1", '-', "2");
    assert "" + ['-'] + "1-2" == "-1-2";
    assert "1" + ['-'] + "2" == "1-2";
  }

  // ---------------------------------------------------------------------
  // Answers
  // ---------------------------------------------------------------------

  predicate OneContainsOther(pair: (Range, Range)) {
    ContainsRange(pair.0, pair.1) || ContainsRange(pair.1, pair.0)
  }

  predicate Overlap(pair: (Range, Range)) {
    OverlapsRange(pair.0, pair.1)
  }

  /** How many pairs pass `test`. */
  function CountWhere(pairs: seq<(Range, Range)>, test: ((Range, Range)) -> bool): (n: nat)
    ensures n <= |pairs|
    ensures n == 0 <==> forall i :: 0 <= i < |pairs| ==> !test(pairs[i])
    ensures n == |pairs| <==> forall i :: 0 <= i < |pairs| ==> test(pairs[i])
    decreases |pairs|
  {
    if pairs == [] then 0
    else
      var rest := CountWhere(pairs[1..], test);
      assert forall i :: 1 <= i < |pairs| ==> pairs[i] == pairs[1..][i - 1];
      (if test(pairs[0]) then 1 else 0) + rest
  }

  /** Parses every line, stopping at the first bad one, and counts the
      pairs that pass `test`. */
  function CountParsed(lines: seq<string>, test: ((Range, Range)) -> bool): (r: Result<nat, RangeError>)
    ensures r.Ok? <==> forall i :: 0 <= i < |lines| ==> ParseLine(lines[i]).Ok?
    ensures r.Ok? ==> r.value <= |lines|
    ensures r.Ok? ==> (r.value == 0 <==> forall i :: 0 <= i < |lines| ==> !test(ParseLine(lines[i]).value))
    ensures r.Ok? ==> (r.value == |lines| <==> forall i :: 0 <= i < |lines| ==> test(ParseLine(lines[i]).value))
  {
    match TryMap(lines, ParseLine)
    case Err(e) => Err(e)
    case Ok(pairs) =>
      ParsedPairsTest(lines, pairs, test);
      Ok(CountWhere(pairs, test))
  }

  /** A test holds of every parsed pair exactly when it holds of every line's parse. */
  lemma ParsedPairsTest(lines: seq<string>, pairs: seq<(Range, Range)>, test: ((Range, Range)) -> bool)
    requires |pairs| == |lines|
    requires forall i :: 0 <= i < |lines| ==> ParseLine(lines[i]) == Ok(pairs[i])
    ensures (forall i :: 0 <= i < |pairs| ==> !test(pairs[i])) <==> (forall i :: 0 <= i < |lines| ==> !test(ParseLine(lines[i]).value))
    ensures (forall i :: 0 <= i < |pairs| ==> test(pairs[i])) <==> (forall i :: 0 <= i < |lines| ==> test(ParseLine(lines[i]).value))
  {
    forall i | 0 <= i < |lines|
      ensures ParseLine(lines[i]).value == pairs[i]
    {
      assert ParseLine(lines[i]) == Ok(pairs[i]);
    }
  }

  /** Pairs where one range holds the other's end points. */
  function GetAnswerA(input: string): (r: Result<nat, RangeError>)
    ensures var lines := Text.Lines(input);
      && (r.Ok? <==> forall i :: 0 <= i < |lines| ==> ParseLine(lines[i]).Ok?)
      && (r.Ok? ==> r.value <= |lines|)
      && (r.Ok? ==> (r.value == 0 <==> forall i :: 0 <= i < |lines| ==> !OneContainsOther(ParseLine(lines[i]).value)))
      && (r.Ok? ==> (r.value == |lines| <==> forall i :: 0 <= i < |lines| ==> OneContainsOther(ParseLine(lines[i]).value)))
  {
    var lines := Text.Lines(input);
    var r := CountParsed(lines, OneContainsOther);
    r
  }

  /** Pairs that overlap. */
  function GetAnswerB(input: string): (r: Result<nat, RangeError>)
    ensures var lines := Text.Lines(input);
      && (r.Ok? <==> forall i :: 0 <= i < |lines| ==> ParseLine(lines[i]).Ok?)
      && (r.Ok? ==> r.value <= |lines|)
      && (r.Ok? ==> (r.value == 0 <==> forall i :: 0 <= i < |lines| ==> !Overlap(ParseLine(lines[i]).value)))
      && (r.Ok? ==> (r.value == |lines| <==> forall i :: 0 <= i < |lines| ==> Overlap(ParseLine(lines[i]).value)))
  {
    var lines := Text.Lines(input);
    var r := CountParsed(lines, Overlap);
    r
  }

  /** Every pair counted by the first answer is counted by the second. */
  lemma {:induction false} AnswerAAtMostB(pairs: seq<(Range, Range)>)
    ensures CountWhere(pairs, OneContainsOther) <= CountWhere(pairs, Overlap)
    decreases |pairs|
  {
    if pairs != [] {
      AnswerAAtMostB(pairs[1..]);
      if OneContainsOther(pairs[0]) {
        ContainsImpliesOverlaps(pairs[0].0, pairs[0].1);
      }
    }
  }
}
