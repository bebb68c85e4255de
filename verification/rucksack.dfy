/** Rucksack reorganization: item priorities, the item shared by a
    rucksack's two compartments, and the badge shared by each group of
    three rucksacks.

    Text is treated as one byte per character: `split_at(len / 2)` cuts
    at a character boundary exactly when the line is ASCII.
 */
module Rucksack {
  import opened Wrappers
  import Text

  datatype RucksackError =
    | BelowUppercase   // `item as u8 - 'A'` underflows
    | NoCommonItem     // `find(..).unwrap()` on no shared item
    | IncompleteGroup  // the last chunk of lines has fewer than three

  /** `item as u8`: the low byte of the code point. */
  function ByteOf(c: char): nat {
    (c as int) % 256
  }

  /** `get_item_value`: from 'a' upwards the byte minus 'a' plus 1,
      below it the byte minus 'A' plus 27. */
  function ItemValue(c: char): (r: Result<int, RucksackError>)
    ensures r.Ok? <==> ByteOf(c) >= 'A' as int
    ensures r.Ok? ==> 1 <= r.value <= 159
    ensures 'a' <= c <= 'z' ==> r == Ok(c as int - 'a' as int + 1)
    ensures 'A' <= c <= 'Z' ==> r == Ok(c as int - 'A' as int + 27)
  {
    var b := ByteOf(c);
    if b >= 'a' as int then Ok(b - 'a' as int + 1)
    else if b < 'A' as int then Err(BelowUppercase)
    else Ok(b - 'A' as int + 27)
  }

  predicate IsLetter(c: char) {
    'a' <= c <= 'z' || 'A' <= c <= 'Z'
  }

  /** The letter of priority `v`. */
  function LetterOf(v: int): (c: char)
    requires 1 <= v <= 52
    ensures IsLetter(c)
  {
    if v <= 26 then ('a' as int + v - 1) as char else ('A' as int + v - 27) as char
  }

  /** Letters have priorities 1 to 52, and each priority belongs to one
      letter. */
  lemma LetterValues(c: char)
    requires IsLetter(c)
    ensures ItemValue(c).Ok? && 1 <= ItemValue(c).value <= 52
    ensures LetterOf(ItemValue(c).value) == c
  {
  }

  lemma ValueOfLetter(v: int)
    requires 1 <= v <= 52
    ensures ItemValue(LetterOf(v)) == Ok(v)
  {
  }

  lemma ItemValueInjective(c: char, d: char)
    requires IsLetter(c) && IsLetter(d) && ItemValue(c) == ItemValue(d)
    ensures c == d
  {
    LetterValues(c);
    LetterValues(d);
  }

  // ---------------------------------------------------------------------
  // Shared items
  // ---------------------------------------------------------------------

  /** The first character of `s` for which `wanted` holds. */
  function FindFirst(s: string, wanted: char -> bool): (r: Option<nat>)
    ensures r.Some? ==> r.value < |s| && wanted(s[r.value])
    ensures r.Some? ==> forall k :: 0 <= k < r.value ==> !wanted(s[k])
    ensures r.None? ==> forall k :: 0 <= k < |s| ==> !wanted(s[k])
    decreases |s|
  {
    if s == [] then None
    else if wanted(s[0]) then Some(0)
    else
      match FindFirst(s[1..], wanted)
      case None => None
      case Some(k) => Some(k + 1)
  }

  /** The first item of `first` that `second` also holds. */
  function CommonItem(first: string, second: string): (r: Result<char, RucksackError>)
    ensures r.Ok? <==> exists k :: 0 <= k < |first| && first[k] in second
    ensures r.Ok? ==> r.value in first && r.value in second
    ensures r.Ok? ==> exists k :: 0 <= k < |first| && first[k] == r.value && forall j :: 0 <= j < k ==> first[j] !in second
    ensures r.Err? ==> r.error == NoCommonItem
  {
    match FindFirst(first, c => c in second)
    case None => Err(NoCommonItem)
    case Some(k) => Ok(first[k])
  }

  /** The first item of `first` that both others hold. */
  function BadgeItem(first: string, second: string, third: string): (r: Result<char, RucksackError>)
    ensures r.Ok? <==> exists k :: 0 <= k < |first| && first[k] in second && first[k] in third
    ensures r.Ok? ==> r.value in first && r.value in second && r.value in third
    ensures r.Ok? ==> exists k :: 0 <= k < |first| && first[k] == r.value && forall j :: 0 <= j < k ==> !(first[j] in second && first[j] in third)
    ensures r.Err? ==> r.error == NoCommonItem
  {
    match FindFirst(first, c => c in second && c in third)
    case None => Err(NoCommonItem)
    case Some(k) => Ok(first[k])
  }

  /** The two compartments: the line cut at half its length. */
  function Compartments(line: string): (r: (string, string))
    ensures r.0 + r.1 == line
    ensures |r.0| == |line| / 2 && |r.1| - |r.0| <= 1
  {
    (line[..|line| / 2], line[|line| / 2..])
  }

  /** The item a rucksack carries in both compartments. */
  function Duplicate(line: string): (r: Result<char, RucksackError>)
    ensures r.Ok? ==> var (a, b) := Compartments(line); r.value in a && r.value in b
  {
    var (a, b) := Compartments(line);
    CommonItem(a, b)
  }

  // ---------------------------------------------------------------------
  // Answers
  // ---------------------------------------------------------------------

  function Sum(xs: seq<int>): int
    decreases |xs|
  {
    if xs == [] then 0 else xs[0] + Sum(xs[1..])
  }

  /** A sum of priorities of letters lies between one and 52 per item. */
  lemma {:induction false} SumBounds(xs: seq<int>)
    requires forall i :: 0 <= i < |xs| ==> 1 <= xs[i] <= 52
    ensures |xs| <= Sum(xs) <= 52 * |xs|
    decreases |xs|
  {
    if xs != [] {
      SumBounds(xs[1..]);
    }
  }

  /** Sum of the priorities of every rucksack's duplicate item: all
      duplicates are found first, then valued. */
  function GetAnswerA(input: string): (r: Result<int, RucksackError>)
    ensures r.Ok? ==> forall i :: 0 <= i < |Text.Lines(input)| ==> Duplicate(Text.Lines(input)[i]).Ok?
  {
    var items :- TryMap(Text.Lines(input), Duplicate);
    var values :- TryMap(items, ItemValue);
    Ok(Sum(values))
  }

  /** `chunks(3)`: runs of three lines, the last run possibly shorter. */
  function Chunks(lines: seq<string>): (r: seq<seq<string>>)
    ensures |r| == (|lines| + 2) / 3
    ensures forall i :: 0 <= i < |r| ==> 1 <= |r[i]| <= 3
    ensures forall i :: 0 <= i < |r| - 1 ==> |r[i]| == 3
    ensures |lines| % 3 == 0 ==> forall i :: 0 <= i < |r| ==> |r[i]| == 3
    ensures |lines| % 3 != 0 ==> |r[|r| - 1]| == |lines| % 3
    decreases |lines|
  {
    if lines == [] then []
    else if |lines| <= 3 then [lines]
    else [lines[..3]] + Chunks(lines[3..])
  }

  /** Chunking loses and reorders nothing. */
  lemma {:induction false} ChunksConcat(lines: seq<string>)
    ensures Flatten(Chunks(lines)) == lines
    decreases |lines|
  {
    if |lines| > 3 {
      ChunksConcat(lines[3..]);
      assert lines == lines[..3] + lines[3..];
    }
  }

  function Flatten(xss: seq<seq<string>>): seq<string>
    decreases |xss|
  {
    if xss == [] then [] else xss[0] + Flatten(xss[1..])
  }

  /** The badge of one group, valued; a short group is an error. */
  function GroupValue(chunk: seq<string>): (r: Result<int, RucksackError>)
    ensures |chunk| != 3 ==> r == Err(IncompleteGroup)
    ensures r.Ok? ==> exists c :: BadgeItem(chunk[0], chunk[1], chunk[2]) == Ok(c) && ItemValue(c) == r
  {
    if |chunk| != 3 then Err(IncompleteGroup)
    else
      var badge :- BadgeItem(chunk[0], chunk[1], chunk[2]);
      ItemValue(badge)
  }

  /** Sum of the badge priorities, group by group. */
  function GetAnswerB(input: string): (r: Result<int, RucksackError>)
    ensures r.Ok? ==> forall i :: 0 <= i < |Chunks(Text.Lines(input))| ==> GroupValue(Chunks(Text.Lines(input))[i]).Ok?
  {
    var values :- TryMap(Chunks(Text.Lines(input)), GroupValue);
    Ok(Sum(values))
  }

  /** A line count that is not a multiple of three leaves a short last
      group, which fails. */
  lemma AnswerBNeedsWholeGroups(input: string)
    requires |Text.Lines(input)| % 3 != 0
    ensures GetAnswerB(input).Err?
  {
    var chunks := Chunks(Text.Lines(input));
    assert GroupValue(chunks[|chunks| - 1]).Err?;
  }

  /** On rucksacks whose shared items are letters, the first answer lies
      between one and 52 per rucksack. */
  lemma AnswerABounds(input: string)
    requires GetAnswerA(input).Ok?
    requires forall i :: 0 <= i < |Text.Lines(input)| ==> Duplicate(Text.Lines(input)[i]).Ok? && IsLetter(Duplicate(Text.Lines(input)[i]).value)
    ensures |Text.Lines(input)| <= GetAnswerA(input).value <= 52 * |Text.Lines(input)|
  {
    var lines := Text.Lines(input);
    var items := TryMap(lines, Duplicate).value;
    var values := TryMap(items, ItemValue).value;
    forall i | 0 <= i < |values|
      ensures 1 <= values[i] <= 52
    {
      assert Duplicate(lines[i]) == Ok(items[i]);
      LetterValues(items[i]);
    }
    SumBounds(values);
  }

  /** On groups whose badges are letters, the second answer lies between
      one and 52 per group. */
  lemma AnswerBBounds(input: string)
    requires GetAnswerB(input).Ok?
    requires forall i :: 0 <= i < |Chunks(Text.Lines(input))| ==>
      var chunk := Chunks(Text.Lines(input))[i];
      |chunk| == 3 && BadgeItem(chunk[0], chunk[1], chunk[2]).Ok? && IsLetter(BadgeItem(chunk[0], chunk[1], chunk[2]).value)
    ensures |Chunks(Text.Lines(input))| <= GetAnswerB(input).value <= 52 * |Chunks(Text.Lines(input))|
  {
    var chunks := Chunks(Text.Lines(input));
    var values := TryMap(chunks, GroupValue).value;
    forall i | 0 <= i < |values|
      ensures 1 <= values[i] <= 52
    {
      var chunk := chunks[i];
      assert GroupValue(chunk) == Ok(values[i]);
      LetterValues(BadgeItem(chunk[0], chunk[1], chunk[2]).value);
    }
    SumBounds(values);
  }
}
