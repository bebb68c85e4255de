/** Supply stacks: piles of crates drawn as text, moved by a crane either
    one crate at a time (the block lands reversed) or a whole block at
    once (the block keeps its order).

    A pile is a sequence of crate letters, bottom first. Panics of the
    solver become `Err` values of `CrateError`.
 */
module Crates {
  import opened Wrappers
  import Text

  type Pile = seq<char>

  /** "move `count` from `from + 1` to `to + 1`": pile numbers are
      zero-based here, as in the solver. */
  datatype Action = Action(count: nat, from: nat, to: nat)

  datatype CrateError =
    | NoConfiguration     // the drawing has no line at all
    | BadLabelLine        // the label line's length is not 4k - 1
    | ShortConfigLine     // a drawing row is too short for the piles
    | BadMoveLine         // fewer than six fields, or a non-numeric count
    | PileZero            // "from 0" or "to 0": an unsigned underflow
    | NoSuchPile          // a pile index outside the drawing
    | EmptyPile           // popping from, or reading the top of, an empty pile
    | NoBlankLine         // the drawing and the moves are not separated

  // ---------------------------------------------------------------------
  // The drawing
  // ---------------------------------------------------------------------

  /** One drawing row: pile `i`'s cell is the character at `4 i + 1`. The
      source indexes the row's characters directly, so a short row
      panics. */
  function ParseConfigLine(line: string, numPiles: nat): (r: Result<seq<char>, CrateError>)
    ensures r.Ok? <==> forall i :: 0 <= i < numPiles ==> i * 4 + 1 < |line|
    ensures r.Ok? ==> |r.value| == numPiles && forall i :: 0 <= i < numPiles ==> r.value[i] == line[i * 4 + 1]
    ensures r.Err? ==> r.error == ShortConfigLine
  {
    if numPiles > 0 && (numPiles - 1) * 4 + 1 >= |line| then
      assert !((numPiles - 1) * 4 + 1 < |line|);
      Err(ShortConfigLine)
    else
      Ok(seq(numPiles, i requires 0 <= i < numPiles => line[i * 4 + 1]))
  }

  /** The longest prefix of `column` holding no blank: a pile is read
      upwards until the first empty cell. */
  function UpToBlank(column: seq<char>): (r: Pile)
    ensures r <= column
    ensures ' ' !in r
    ensures |r| < |column| ==> column[|r|] == ' '
  {
    if column == [] || column[0] == ' ' then []
    else [column[0]] + UpToBlank(column[1..])
  }

  /** Cell `i` of every row, bottom row first. */
  function Column(rows: seq<seq<char>>, i: nat): (c: seq<char>)
    requires forall j :: 0 <= j < |rows| ==> i < |rows[j]|
    ensures |c| == |rows| && forall j :: 0 <= j < |rows| ==> c[j] == rows[j][i]
  {
    seq(|rows|, j requires 0 <= j < |rows| => rows[j][i])
  }

  /** The drawing above the blank line: crate rows top to bottom, then a
      label line whose length fixes the number of piles, `(len + 1) / 4`,
      and must be one short of a multiple of 4. Rows are read bottom-up
      and each pile stops at its first blank cell. */
  function ParseInitPiles(drawing: string): (r: Result<seq<Pile>, CrateError>)
    ensures var lines := Text.Lines(drawing);
      && (r == Err(NoConfiguration) <==> lines == [])
      && (r == Err(BadLabelLine) <==> lines != [] && (|lines[|lines| - 1]| + 1) % 4 != 0)
      && (r.Ok? <==> lines != [] && (|lines[|lines| - 1]| + 1) % 4 == 0 &&
                     RowsReachLastPile(lines[..|lines| - 1], (|lines[|lines| - 1]| + 1) / 4))
      && (r.Ok? ==> |r.value| == (|lines[|lines| - 1]| + 1) / 4 &&
                    (forall i :: 0 <= i < |r.value| ==> ' ' !in r.value[i]) &&
                    PilesReadUpwards(lines[..|lines| - 1], r.value))
  {
    var lines := Text.Lines(drawing);
    var r := PilesOfLines(lines);
    r
  }

  function PilesOfLines(lines: seq<string>): (r: Result<seq<Pile>, CrateError>)
    ensures r.Ok? ==>
      |lines| >= 1 && (|lines[|lines| - 1]| + 1) % 4 == 0 &&
      |r.value| == (|lines[|lines| - 1]| + 1) / 4
    ensures r.Ok? ==> forall i :: 0 <= i < |r.value| ==> ' ' !in r.value[i]
    ensures r == Err(NoConfiguration) <==> lines == []
    ensures r == Err(BadLabelLine) <==> lines != [] && (|lines[|lines| - 1]| + 1) % 4 != 0
    ensures r.Ok? <==> lines != [] && (|lines[|lines| - 1]| + 1) % 4 == 0 &&
                       RowsReachLastPile(lines[..|lines| - 1], (|lines[|lines| - 1]| + 1) / 4)
    ensures r.Ok? ==> PilesReadUpwards(lines[..|lines| - 1], r.value)
  {
    if lines == [] then Err(NoConfiguration)
    else
      var labels := lines[|lines| - 1];
      var numPiles := (|labels| + 1) / 4;
      if (|labels| + 1) % 4 != 0 then Err(BadLabelLine)
      else
        var crateRows := lines[..|lines| - 1];
        ParseRowsWhenLongEnough(crateRows, numPiles);
        var rows :- ParseRows(crateRows, numPiles);
        ParsedPilesReadUpwards(crateRows, numPiles, rows);
        Ok(BuildPiles(rows, numPiles))
  }

  /** Every crate row is long enough to hold the last pile's cell, at
      `4 (numPiles - 1) + 1`. */
  predicate RowsReachLastPile(rows: seq<string>, numPiles: nat) {
    forall j :: 0 <= j < |rows| ==> 4 * numPiles - 3 < |rows[j]|
  }

  lemma ParseRowsWhenLongEnough(rows: seq<string>, numPiles: nat)
    ensures ParseRows(rows, numPiles).Ok? <==> RowsReachLastPile(rows, numPiles)
  {
    forall j | 0 <= j < |rows|
      ensures ParseConfigLine(rows[j], numPiles).Ok? <==> 4 * numPiles - 3 < |rows[j]|
    {
      if numPiles > 0 {
        assert ParseConfigLine(rows[j], numPiles).Ok? ==> (numPiles - 1) * 4 + 1 < |rows[j]|;
      }
    }
  }

  lemma ParsedPilesReadUpwards(rows: seq<string>, numPiles: nat, parsed: seq<seq<char>>)
    requires ParseRows(rows, numPiles) == Ok(parsed)
    ensures forall j :: 0 <= j < |parsed| ==> |parsed[j]| == numPiles
    ensures PilesReadUpwards(rows, BuildPiles(parsed, numPiles))
  {
    ParsedRowsCells(rows, numPiles, parsed);
    var piles := BuildPiles(parsed, numPiles);
    forall i | 0 <= i < numPiles
      ensures PileReadUpwards(rows, i, piles[i])
    {
      ColumnReadUpwards(rows, parsed, i);
    }
  }

  lemma ColumnReadUpwards(rows: seq<string>, parsed: seq<seq<char>>, i: nat)
    requires |parsed| == |rows|
    requires forall k :: 0 <= k < |parsed| ==> i < |parsed[k]| && CellFromBottom(rows, i, k) == Some(parsed[k][i])
    ensures PileReadUpwards(rows, i, UpToBlank(Column(parsed, i)))
  {
    var column := Column(parsed, i);
    var pile := UpToBlank(column);
    assert |pile| < |rows| ==> column[|pile|] == ' ' && column[|pile|] == parsed[|pile|][i];
    forall k | 0 <= k < |pile|
      ensures CellFromBottom(rows, i, k) == Some(pile[k])
    {
      assert pile[k] == column[k] == parsed[k][i];
    }
  }

  /** The cell of pile `i`, at `4 i + 1`, in the `k`-th crate row counted
      from the bottom, if that row reaches it. */
  function CellFromBottom(rows: seq<string>, i: nat, k: nat): Option<char>
    requires k < |rows|
  {
    var row := rows[|rows| - 1 - k];
    if i * 4 + 1 < |row| then Some(row[i * 4 + 1]) else None
  }

  /** Pile `i` holds the characters at `4 i + 1` of the crate rows read
      from the bottom row up, as far as the first blank one. */
  predicate PilesReadUpwards(rows: seq<string>, piles: seq<Pile>) {
    forall i :: 0 <= i < |piles| ==> PileReadUpwards(rows, i, piles[i])
  }

  /** The pile at `i` is column `i` of `rows` read upwards to the first blank. */
  predicate PileReadUpwards(rows: seq<string>, i: nat, pile: Pile) {
    |pile| <= |rows| &&
    (forall k :: 0 <= k < |pile| ==> CellFromBottom(rows, i, k) == Some(pile[k])) &&
    (|pile| < |rows| ==> CellFromBottom(rows, i, |pile|) == Some(' '))
  }

  /** The parsed rows, bottom first, hold the cells of the crate rows. */
  lemma ParsedRowsCells(rows: seq<string>, numPiles: nat, parsed: seq<seq<char>>)
    requires ParseRows(rows, numPiles) == Ok(parsed)
    ensures |parsed| == |rows|
    ensures forall k :: 0 <= k < |parsed| ==> |parsed[k]| == numPiles
    ensures forall k, i :: 0 <= k < |parsed| && 0 <= i < numPiles ==> CellFromBottom(rows, i, k) == Some(parsed[k][i])
  {
    forall k | 0 <= k < |parsed|
      ensures |parsed[k]| == numPiles
      ensures forall i :: 0 <= i < numPiles ==> CellFromBottom(rows, i, k) == Some(parsed[k][i])
    {
      assert ParseConfigLine(rows[|rows| - 1 - k], numPiles) == Ok(parsed[k]);
    }
  }

  /** Crate rows, given top to bottom, parsed bottom to top. */
  function ParseRows(rows: seq<string>, numPiles: nat): (r: Result<seq<seq<char>>, CrateError>)
    ensures r.Ok? <==> forall j :: 0 <= j < |rows| ==> ParseConfigLine(rows[j], numPiles).Ok?
    ensures r.Ok? ==> |r.value| == |rows| && forall j :: 0 <= j < |rows| ==>
      ParseConfigLine(rows[|rows| - 1 - j], numPiles) == Ok(r.value[j])
    ensures r.Err? ==> r.error == ShortConfigLine
  {
    var bottomUp := seq(|rows|, j requires 0 <= j < |rows| => rows[|rows| - 1 - j]);
    assert forall j :: 0 <= j < |rows| ==> rows[j] == bottomUp[|rows| - 1 - j];
    TryMap(bottomUp, line => ParseConfigLine(line, numPiles))
  }

  /** Transposes the parsed rows into piles, dropping the air above each. */
  function BuildPiles(rows: seq<seq<char>>, numPiles: nat): (piles: seq<Pile>)
    requires forall j :: 0 <= j < |rows| ==> |rows[j]| == numPiles
    ensures |piles| == numPiles
    ensures forall i :: 0 <= i < numPiles ==> piles[i] == UpToBlank(Column(rows, i))
  {
    seq(numPiles, i requires 0 <= i < numPiles => UpToBlank(Column(rows, i)))
  }

  // ---------------------------------------------------------------------
  // Move lines
  // ---------------------------------------------------------------------

  /** "move a from b to c", split on single spaces: the second, fourth
      and sixth space-separated fields give the count and the one-based
      pile numbers. */
  function ParseAction(line: string): (r: Result<Action, CrateError>)
    ensures var fields := Text.Split(line, " ");
      r.Ok? <==> |fields| >= 6 && Text.ParseUsize(fields[1]).Some? &&
                 Text.ParseUsize(fields[3]).Some? && Text.ParseUsize(fields[5]).Some? &&
                 Text.ParseUsize(fields[3]).value >= 1 && Text.ParseUsize(fields[5]).value >= 1
    ensures var fields := Text.Split(line, " ");
      r.Ok? ==> Text.ParseUsize(fields[1]) == Some(r.value.count) &&
                Text.ParseUsize(fields[3]) == Some(r.value.from + 1) &&
                Text.ParseUsize(fields[5]) == Some(r.value.to + 1)
  {
    ParseActionFields(Text.Split(line, " "))
  }

  /** Fields 1, 3 and 5 are `usize` numbers; the two pile numbers are
      made zero-based by a subtraction that underflows on 0. The other
      fields are not looked at. */
  function ParseActionFields(fields: seq<string>): (r: Result<Action, CrateError>)
    ensures r.Ok? <==>
      |fields| >= 6 &&
      Text.ParseUsize(fields[1]).Some? && Text.ParseUsize(fields[3]).Some? && Text.ParseUsize(fields[5]).Some? &&
      Text.ParseUsize(fields[3]).value >= 1 && Text.ParseUsize(fields[5]).value >= 1
    ensures r.Ok? ==>
      Text.ParseUsize(fields[1]) == Some(r.value.count) &&
      Text.ParseUsize(fields[3]) == Some(r.value.from + 1) &&
      Text.ParseUsize(fields[5]) == Some(r.value.to + 1)
  {
    if |fields| < 6 then Err(BadMoveLine)
    else
      var count :- OkOr(Text.ParseUsize(fields[1]), BadMoveLine);
      var from :- OkOr(Text.ParseUsize(fields[3]), BadMoveLine);
      var to :- OkOr(Text.ParseUsize(fields[5]), BadMoveLine);
      if from == 0 || to == 0 then Err(PileZero)
      else Ok(Action(count, from - 1, to - 1))
  }

  /** The move line for an action, with one-based pile numbers. */
  function FormatAction(a: Action): string {
    Text.Join(ActionFields(a), " ")
  }

  function ActionFields(a: Action): (fields: seq<string>)
    ensures |fields| == 6 && forall i :: 0 <= i < 6 ==> ' ' !in fields[i]
  {
    ["move", Text.NatToString(a.count), "from", Text.NatToString(a.from + 1), "to", Text.NatToString(a.to + 1)]
  }

  /** Reading a move line back gives the action that was written. */
  lemma ParseFormatAction(a: Action)
    requires a.count <= Text.USIZE_MAX && a.from + 1 <= Text.USIZE_MAX && a.to + 1 <= Text.USIZE_MAX
    ensures ParseAction(FormatAction(a)) == Ok(a)
  {
    Text.SplitJoinChar(ActionFields(a), ' ');
    ParseActionFieldsOf(a);
  }

  lemma ParseActionFieldsOf(a: Action)
    requires a.count <= Text.USIZE_MAX && a.from + 1 <= Text.USIZE_MAX && a.to + 1 <= Text.USIZE_MAX
    ensures ParseActionFields(ActionFields(a)) == Ok(a)
  {
    Text.ParseIntToString(a.count, false, 0, Text.USIZE_MAX);
    Text.ParseIntToString(a.from + 1, false, 0, Text.USIZE_MAX);
    Text.ParseIntToString(a.to + 1, false, 0, Text.USIZE_MAX);
  }

  // ---------------------------------------------------------------------
  // Moving crates
  // ---------------------------------------------------------------------

  function TotalCrates(piles: seq<Pile>): nat {
    if piles == [] then 0 else |piles[0]| + TotalCrates(piles[1..])
  }

  lemma {:induction false} TotalCratesUpdate(piles: seq<Pile>, t: nat, p: Pile)
    requires t < |piles|
    ensures TotalCrates(piles[t := p]) == TotalCrates(piles) - |piles[t]| + |p|
    decreases |piles|
  {
    if t > 0 {
      TotalCratesUpdate(piles[1..], t - 1, p);
      assert piles[t := p][1..] == piles[1..][t - 1 := p];
    }
  }

  function Reverse(s: seq<char>): (r: seq<char>)
    ensures |r| == |s| && forall k :: 0 <= k < |s| ==> r[k] == s[|s| - 1 - k]
  {
    if s == [] then [] else Reverse(s[1..]) + [s[0]]
  }

  /** One step of the first crane: pop the top of `from`, then push it on
      `to`. */
  function MoveOne(piles: seq<Pile>, from: nat, to: nat): (r: Result<seq<Pile>, CrateError>)
    ensures r.Ok? <==> from < |piles| && to < |piles| && piles[from] != []
    ensures r.Err? ==> r.error == (if from < |piles| && piles[from] == [] then EmptyPile else NoSuchPile)
    ensures r.Ok? && from == to ==> r.value == piles
    ensures r.Ok? && from != to ==> var src := piles[from];
      |r.value| == |piles| && r.value[from] == src[..|src| - 1] && r.value[to] == piles[to] + [src[|src| - 1]] &&
      forall j :: 0 <= j < |piles| && j != from && j != to ==> r.value[j] == piles[j]
  {
    if from >= |piles| then Err(NoSuchPile)
    else if piles[from] == [] then Err(EmptyPile)
    else
      var pile := piles[from];
      var popped := piles[from := pile[..|pile| - 1]];
      assert pile[..|pile| - 1] + [pile[|pile| - 1]] == pile;
      if to >= |piles| then Err(NoSuchPile)
      else Ok(popped[to := popped[to] + [pile[|pile| - 1]]])
  }

  /** The first crane: `count` single moves. The source's pops and
      pushes interleave, so nothing is touched when `count` is 0. */
  function ExecuteA(piles: seq<Pile>, a: Action): (r: Result<seq<Pile>, CrateError>)
    ensures a.count == 0 ==> r == Ok(piles)
    ensures r.Ok? ==> |r.value| == |piles|
    ensures r.Err? ==> r.error == NoSuchPile || r.error == EmptyPile
    decreases a.count
  {
    if a.count == 0 then Ok(piles)
    else
      var next :- MoveOne(piles, a.from, a.to);
      ExecuteA(next, a.(count := a.count - 1))
  }

  /** `count` crates taken off the top of `from` and `block` put on top
      of `to`; every other pile as it was. */
  function MovedBlock(piles: seq<Pile>, a: Action, block: seq<char>): (r: seq<Pile>)
    requires a.from < |piles| && a.to < |piles| && a.from != a.to && a.count <= |piles[a.from]|
    ensures |r| == |piles|
    ensures r[a.from] == piles[a.from][..|piles[a.from]| - a.count]
    ensures r[a.to] == piles[a.to] + block
    ensures forall j :: 0 <= j < |piles| && j != a.from && j != a.to ==> r[j] == piles[j]
  {
    var src := piles[a.from];
    piles[a.from := src[..|src| - a.count]][a.to := piles[a.to] + block]
  }

  /** What the first crane does, stated all at once: it fails exactly
      when the source runs out, and otherwise the top `count` crates of
      `from` land on `to` in reverse order. */
  lemma {:induction false} ExecuteAMoves(piles: seq<Pile>, a: Action)
    requires a.from < |piles| && a.to < |piles| && a.from != a.to
    ensures var src := piles[a.from];
      ExecuteA(piles, a) ==
        if a.count <= |src| then Ok(MovedBlock(piles, a, Reverse(src[|src| - a.count..]))) else Err(EmptyPile)
    decreases a.count
  {
    var src := piles[a.from];
    if a.count == 0 {
      MovedNothing(piles, a);
    } else if src != [] {
      var next := MoveOneApart(piles, a.from, a.to);
      var rest := a.(count := a.count - 1);
      ExecuteAMoves(next, rest);
      ExecuteAStep(piles, a, next, rest);
      if a.count <= |src| {
        BlockStep(piles, a, next, rest);
      }
    }
  }

  /** A first crane action that has moved its first crate. */
  lemma ExecuteAStep(piles: seq<Pile>, a: Action, next: seq<Pile>, rest: Action)
    requires a.count > 0 && MoveOne(piles, a.from, a.to) == Ok(next) && rest == a.(count := a.count - 1)
    ensures ExecuteA(piles, a) == ExecuteA(next, rest)
  {
  }

  /** The block still to move after the first crate, put back together
      with that crate. */
  lemma BlockStep(piles: seq<Pile>, a: Action, next: seq<Pile>, rest: Action)
    requires a.from < |piles| && a.to < |piles| && a.from != a.to && 0 < a.count <= |piles[a.from]|
    requires var src := piles[a.from];
      next == piles[a.from := src[..|src| - 1]][a.to := piles[a.to] + [src[|src| - 1]]]
    requires rest == a.(count := a.count - 1)
    ensures var src := piles[a.from];
      var below := next[rest.from];
      rest.count <= |below| &&
      MovedBlock(next, rest, Reverse(below[|below| - rest.count..])) ==
        MovedBlock(piles, a, Reverse(src[|src| - a.count..]))
  {
    TopBlockStep(piles[a.from], a.count);
    MovedBlockStep(piles, a);
  }

  lemma MovedNothing(piles: seq<Pile>, a: Action)
    requires a.from < |piles| && a.to < |piles| && a.from != a.to && a.count == 0
    ensures MovedBlock(piles, a, []) == piles
  {
    var r := MovedBlock(piles, a, []);
    assert piles[a.from][..|piles[a.from]|] == piles[a.from];
    assert forall j :: 0 <= j < |piles| ==> r[j] == piles[j];
  }

  /** Moving one crate and then a block of `count - 1` is moving the
      block of `count` with the single crate at its bottom. */
  lemma MovedBlockStep(piles: seq<Pile>, a: Action)
    requires a.from < |piles| && a.to < |piles| && a.from != a.to && 0 < a.count <= |piles[a.from]|
    ensures var src := piles[a.from];
      var next := piles[a.from := src[..|src| - 1]][a.to := piles[a.to] + [src[|src| - 1]]];
      var below := src[..|src| - 1];
      MovedBlock(next, a.(count := a.count - 1), Reverse(below[|below| - (a.count - 1)..])) ==
        MovedBlock(piles, a, [src[|src| - 1]] + Reverse(below[|below| - (a.count - 1)..]))
  {
    var src := piles[a.from];
    var next := piles[a.from := src[..|src| - 1]][a.to := piles[a.to] + [src[|src| - 1]]];
    var below := src[..|src| - 1];
    var rest := Reverse(below[|below| - (a.count - 1)..]);
    var left := MovedBlock(next, a.(count := a.count - 1), rest);
    var right := MovedBlock(piles, a, [src[|src| - 1]] + rest);
    assert below[..|below| - (a.count - 1)] == src[..|src| - a.count];
    assert left[a.to] == right[a.to];
    assert forall j :: 0 <= j < |piles| ==> left[j] == right[j];
  }

  /** One single move between two different piles. */
  lemma MoveOneApart(piles: seq<Pile>, from: nat, to: nat) returns (next: seq<Pile>)
    requires from < |piles| && to < |piles| && from != to && piles[from] != []
    ensures var src := piles[from];
      next == piles[from := src[..|src| - 1]][to := piles[to] + [src[|src| - 1]]] &&
      MoveOne(piles, from, to) == Ok(next)
  {
    next := MoveOne(piles, from, to).value;
  }

  /** Taking the top `count` crates one at a time: the first one taken is
      the top, the rest come from the pile without it. */
  lemma TopBlockStep(src: Pile, count: nat)
    requires 0 < count <= |src|
    ensures var below := src[..|src| - 1];
      below[..|below| - (count - 1)] == src[..|src| - count] &&
      [src[|src| - 1]] + Reverse(below[|below| - (count - 1)..]) == Reverse(src[|src| - count..])
  {
    var block := src[|src| - count..];
    var below := src[..|src| - 1];
    assert below[|below| - (count - 1)..] == block[..|block| - 1];
  }

  /** With the same pile as source and target each crate goes straight
      back: the piles are unchanged, but only if the pile is not empty. */
  lemma {:induction false} ExecuteASamePile(piles: seq<Pile>, a: Action)
    requires a.from < |piles| && a.from == a.to
    ensures ExecuteA(piles, a).Ok? <==> a.count == 0 || piles[a.from] != []
    ensures ExecuteA(piles, a).Ok? ==> ExecuteA(piles, a).value == piles
    decreases a.count
  {
    if a.count > 0 && piles[a.from] != [] {
      ExecuteASamePile(piles, a.(count := a.count - 1));
    }
  }

  /** Pops `n` crates off `pile`, collecting them top first, as the
      second crane's iterator does before it is reversed. */
  function PopMany(pile: Pile, n: nat): (r: Result<(Pile, seq<char>), CrateError>)
    ensures r.Ok? <==> n <= |pile|
    ensures r.Err? ==> r.error == EmptyPile
    ensures r.Ok? ==> r.value.0 + Reverse(r.value.1) == pile && |r.value.1| == n
    decreases n
  {
    if n == 0 then Ok((pile, []))
    else if pile == [] then Err(EmptyPile)
    else
      var top := pile[|pile| - 1];
      var rest :- PopMany(pile[..|pile| - 1], n - 1);
      assert Reverse([top] + rest.1) == Reverse(rest.1) + [top];
      Ok((rest.0, [top] + rest.1))
  }

  /** The second crane: pop all `count` crates, reverse them, push them in
      that order. Nothing is touched when `count` is 0. */
  function ExecuteB(piles: seq<Pile>, a: Action): (r: Result<seq<Pile>, CrateError>)
    ensures a.count == 0 ==> r == Ok(piles)
    ensures r.Ok? ==> |r.value| == |piles|
    ensures r.Err? ==> r.error == NoSuchPile || r.error == EmptyPile
  {
    if a.count == 0 then Ok(piles)
    else if a.from >= |piles| then Err(NoSuchPile)
    else
      var (kept, taken) :- PopMany(piles[a.from], a.count);
      var popped := piles[a.from := kept];
      if a.to >= |piles| then Err(NoSuchPile)
      else Ok(popped[a.to := popped[a.to] + Reverse(taken)])
  }

  /** The second crane moves the top `count` crates as one block that
      keeps its order; with source and target the same pile nothing
      changes. Running out of crates is an error either way. */
  lemma ExecuteBMoves(piles: seq<Pile>, a: Action)
    requires a.from < |piles| && a.to < |piles| && a.from != a.to
    ensures var src := piles[a.from];
      ExecuteB(piles, a) ==
        if a.count <= |src| then Ok(MovedBlock(piles, a, src[|src| - a.count..])) else Err(EmptyPile)
  {
    var src := piles[a.from];
    if a.count == 0 {
      MovedNothing(piles, a);
    } else if a.count <= |src| {
      var (kept, taken) := PopMany(src, a.count).value;
      assert kept + Reverse(taken) == src;
      assert kept == src[..|src| - a.count];
      assert Reverse(taken) == src[|src| - a.count..];
    }
  }

  /** With the same pile as source and target the block goes straight
      back; running out of crates is still an error. */
  lemma ExecuteBSamePile(piles: seq<Pile>, a: Action)
    requires a.from < |piles| && a.from == a.to
    ensures ExecuteB(piles, a).Ok? <==> a.count <= |piles[a.from]|
    ensures ExecuteB(piles, a).Ok? ==> ExecuteB(piles, a).value == piles
  {
    var src := piles[a.from];
    if a.count > 0 && a.count <= |src| {
      var (kept, taken) := PopMany(src, a.count).value;
      assert kept + Reverse(taken) == src;
      assert piles[a.from := kept][a.to := src] == piles;
    }
  }

  /** A move naming a pile that does not exist fails, unless it moves
      nothing: then nothing is indexed and nothing changes. */
  lemma ExecuteOutOfRange(piles: seq<Pile>, a: Action)
    requires a.from >= |piles| || a.to >= |piles|
    ensures ExecuteA(piles, a).Ok? <==> a.count == 0
    ensures ExecuteB(piles, a).Ok? <==> a.count == 0
    ensures a.count == 0 ==> ExecuteA(piles, a) == Ok(piles) && ExecuteB(piles, a) == Ok(piles)
  {
  }

  /** Both cranes keep every crate: the piles hold as many crates after a
      move as before it. */
  lemma ExecuteConserves(piles: seq<Pile>, a: Action)
    ensures ExecuteA(piles, a).Ok? ==> TotalCrates(ExecuteA(piles, a).value) == TotalCrates(piles)
    ensures ExecuteB(piles, a).Ok? ==> TotalCrates(ExecuteB(piles, a).value) == TotalCrates(piles)
  {
    if a.from >= |piles| || a.to >= |piles| {
      ExecuteOutOfRange(piles, a);
    } else if a.from == a.to {
      ExecuteASamePile(piles, a);
      ExecuteBSamePile(piles, a);
    } else {
      var src := piles[a.from];
      ExecuteAMoves(piles, a);
      ExecuteBMoves(piles, a);
      if a.count <= |src| {
        MovedBlockConserves(piles, a, Reverse(src[|src| - a.count..]));
        MovedBlockConserves(piles, a, src[|src| - a.count..]);
      }
    }
  }

  /** Moving a block of `count` crates from one pile to another keeps the
      total. */
  lemma MovedBlockConserves(piles: seq<Pile>, a: Action, block: seq<char>)
    requires a.from < |piles| && a.to < |piles| && a.from != a.to && a.count <= |piles[a.from]|
    requires |block| == a.count
    ensures TotalCrates(MovedBlock(piles, a, block)) == TotalCrates(piles)
  {
    var src := piles[a.from];
    var mid := piles[a.from := src[..|src| - a.count]];
    TotalCratesUpdate(piles, a.from, mid[a.from]);
    TotalCratesUpdate(mid, a.to, piles[a.to] + block);
  }

  // ---------------------------------------------------------------------
  // The answer
  // ---------------------------------------------------------------------

  /** The top crate of every pile, in pile order; an empty pile panics. */
  function GetTopCrates(piles: seq<Pile>): (r: Result<string, CrateError>)
    ensures r.Ok? <==> forall i :: 0 <= i < |piles| ==> piles[i] != []
    ensures r.Ok? ==> (|r.value| == |piles| &&
      forall i :: 0 <= i < |piles| ==> r.value[i] == piles[i][|piles[i]| - 1])
    ensures r.Err? ==> r.error == EmptyPile
    decreases |piles|
  {
    if piles == [] then Ok([])
    else if piles[0] == [] then Err(EmptyPile)
    else
      var rest :- GetTopCrates(piles[1..]);
      assert forall i :: 1 <= i < |piles| ==> piles[i] == piles[1..][i - 1];
      Ok([piles[0][|piles[0]| - 1]] + rest)
  }

  /** Parses and executes the move lines in order with the chosen crane;
      the first bad line or impossible move stops everything. */
  function RunMoves(piles: seq<Pile>, lines: seq<string>, reversing: bool): (r: Result<seq<Pile>, CrateError>)
    ensures r.Ok? ==> |r.value| == |piles|
    decreases |lines|
  {
    if lines == [] then Ok(piles)
    else
      var a :- ParseAction(lines[0]);
      var next :- if reversing then ExecuteA(piles, a) else ExecuteB(piles, a);
      RunMoves(next, lines[1..], reversing)
  }

  /** Every crate of the drawing is still somewhere at the end. */
  lemma {:induction false} RunMovesConserves(piles: seq<Pile>, lines: seq<string>, reversing: bool)
    ensures RunMoves(piles, lines, reversing).Ok? ==> TotalCrates(RunMoves(piles, lines, reversing).value) == TotalCrates(piles)
    decreases |lines|
  {
    if lines != [] && ParseAction(lines[0]).Ok? {
      var a := ParseAction(lines[0]).value;
      var next := if reversing then ExecuteA(piles, a) else ExecuteB(piles, a);
      ExecuteConserves(piles, a);
      if next.Ok? {
        RunMovesConserves(next.value, lines[1..], reversing);
      }
    }
  }

  /** A run that gets to the end has read every move line as a move. */
  lemma {:induction false} RunMovesParsesAll(piles: seq<Pile>, lines: seq<string>, reversing: bool)
    ensures RunMoves(piles, lines, reversing).Ok? ==> forall i :: 0 <= i < |lines| ==> ParseAction(lines[i]).Ok?
    decreases |lines|
  {
    if lines != [] && ParseAction(lines[0]).Ok? {
      var a := ParseAction(lines[0]).value;
      var next := if reversing then ExecuteA(piles, a) else ExecuteB(piles, a);
      if next.Ok? {
        RunMovesParsesAll(next.value, lines[1..], reversing);
        assert forall i :: 1 <= i < |lines| ==> lines[i] == lines[1..][i - 1];
      }
    }
  }

  /** A whole puzzle: the drawing and the moves are separated by the
      first blank line; the answer reads the top crates at the end. Part
      one uses the reversing crane, part two the order-keeping one. */
  function Solve(input: string, reversing: bool): (r: Result<string, CrateError>)
    ensures AnswersDrawing(input, r)
  {
    var (drawing, moves) :- OkOr(Text.SplitOnce(input, "\n\n"), NoBlankLine);
    var piles :- ParseInitPiles(drawing);
    var final :- RunMoves(piles, Text.Lines(moves), reversing);
    GetTopCrates(final)
  }

  /** What both answers promise about the drawing: no blank line is an
      error, a bad drawing is that drawing's error, and an answer has one
      letter per pile of the drawing. */
  predicate AnswersDrawing(input: string, r: Result<string, CrateError>) {
    match Text.SplitOnce(input, "\n\n")
    case None => r == Err(NoBlankLine)
    case Some((drawing, _)) =>
      (ParseInitPiles(drawing).Err? ==> r == Err(ParseInitPiles(drawing).error)) &&
      (r.Ok? ==> ParseInitPiles(drawing).Ok? && |r.value| == |ParseInitPiles(drawing).value|)
  }

  /** Part one: the tops after the reversing crane. */
  function GetAnswerA(input: string): (r: Result<string, CrateError>)
    ensures AnswersDrawing(input, r)
  {
    Solve(input, true)
  }

  /** Part two: the tops after the order-keeping crane. */
  function GetAnswerB(input: string): (r: Result<string, CrateError>)
    ensures AnswersDrawing(input, r)
  {
    Solve(input, false)
  }
}

/** The worked example of the puzzle statement: three piles and four
    moves, giving "CMZ" with the first crane and "MCD" with the second. */
module CratesExample {
  import opened Wrappers
  import opened Crates

  /** The worked example's drawing, as crate rows then the label line. */
  const DrawingLines: seq<string> := ["    [D]    ", "[N] [C]    ", "[Z] [M] [P]", " 1   2   3 "]

  lemma DrawingExampleLines()
    ensures Text.Lines(Text.Join(DrawingLines, "\n")) == DrawingLines
  {
    assert forall i :: 0 <= i < |DrawingLines| ==> Text.PlainLine(DrawingLines[i]);
    Text.LinesJoin(DrawingLines);
  }

  /** Reading the worked example's drawing gives the piles Z N, M C D and
      P, bottom first. */
  lemma DrawingExample()
    ensures ParseInitPiles(Text.Join(DrawingLines, "\n")) == Ok(["ZN", "MCD", "P"])
  {
    DrawingExampleLines();
    DrawingExampleRows();
    DrawingExamplePiles();
  }

  lemma DrawingExampleRows()
    ensures ParseRows(DrawingLines[..3], 3) == Ok(["ZMP", "NC ", " D "])
  {
    var rows := DrawingLines[..3];
    ConfigLineCells("[Z] [M] [P]", "ZMP");
    ConfigLineCells("[N] [C]    ", "NC ");
    ConfigLineCells("    [D]    ", " D ");
    assert rows[0] == "    [D]    " && rows[1] == "[N] [C]    " && rows[2] == "[Z] [M] [P]";
    var r := ParseRows(rows, 3);
    assert r.Ok?;
    assert r.value[0] == "ZMP" && r.value[1] == "NC " && r.value[2] == " D ";
    assert r.value == ["ZMP", "NC ", " D "];
  }

  lemma ConfigLineCells(line: string, cells: seq<char>)
    requires |line| == 11 && |cells| == 3
    requires line[1] == cells[0] && line[5] == cells[1] && line[9] == cells[2]
    ensures ParseConfigLine(line, 3) == Ok(cells)
  {
    var r := ParseConfigLine(line, 3);
    assert r.Ok?;
    assert r.value[0] == cells[0] && r.value[1] == cells[1] && r.value[2] == cells[2];
    assert r.value == cells;
  }

  lemma DrawingExamplePiles()
    ensures BuildPiles(["ZMP", "NC ", " D "], 3) == ["ZN", "MCD", "P"]
  {
    var rows: seq<seq<char>> := ["ZMP", "NC ", " D "];
    assert Column(rows, 0) == "ZN " && UpToBlank("ZN ") == "ZN";
    assert Column(rows, 1) == "MCD" && UpToBlank("MCD") == "MCD";
    assert Column(rows, 2) == "P  " && UpToBlank("P  ") == "P";
  }

  lemma CraneAStep1()
    ensures ExecuteA(["ZN", "MCD", "P"], Action(1, 1, 0)) == Ok(["ZND", "MC", "P"])
  {
    var piles: seq<Pile> := ["ZN", "MCD", "P"];
    var r := MoveOne(piles, 1, 0).value;
    assert r[0] == "ZND" && r[1] == "MC" && r[2] == "P";
    assert r == ["ZND", "MC", "P"];
    ExecuteAStep(piles, Action(1, 1, 0), r, Action(0, 1, 0));
  }

  lemma CraneAStep2()
    ensures ExecuteA(["ZND", "MC", "P"], Action(3, 0, 2)) == Ok(["", "MC", "PDNZ"])
  {
    var piles: seq<Pile> := ["ZND", "MC", "P"];
    ExecuteAMoves(piles, Action(3, 0, 2));
    assert piles[0][0..] == "ZND" && Reverse("ZND") == "DNZ";
    var r := MovedBlock(piles, Action(3, 0, 2), "DNZ");
    assert r[0] == "" && r[1] == "MC" && r[2] == "PDNZ";
    assert r == ["", "MC", "PDNZ"];
  }

  lemma CraneAStep3()
    ensures ExecuteA(["", "MC", "PDNZ"], Action(2, 1, 0)) == Ok(["CM", "", "PDNZ"])
  {
    var piles: seq<Pile> := ["", "MC", "PDNZ"];
    ExecuteAMoves(piles, Action(2, 1, 0));
    assert piles[1][0..] == "MC" && Reverse("MC") == "CM";
    var r := MovedBlock(piles, Action(2, 1, 0), "CM");
    assert r[0] == "CM" && r[1] == "" && r[2] == "PDNZ";
    assert r == ["CM", "", "PDNZ"];
  }

  lemma CraneAStep4()
    ensures ExecuteA(["CM", "", "PDNZ"], Action(1, 0, 1)) == Ok(["C", "M", "PDNZ"])
  {
    var piles: seq<Pile> := ["CM", "", "PDNZ"];
    var r := MoveOne(piles, 0, 1).value;
    assert r[0] == "C" && r[1] == "M" && r[2] == "PDNZ";
    assert r == ["C", "M", "PDNZ"];
    ExecuteAStep(piles, Action(1, 0, 1), r, Action(0, 0, 1));
  }

  /** The first crane's answer for the worked example. */
  lemma CraneAExample()
    ensures ExecuteA(["ZN", "MCD", "P"], Action(1, 1, 0)) == Ok(["ZND", "MC", "P"])
    ensures ExecuteA(["ZND", "MC", "P"], Action(3, 0, 2)) == Ok(["", "MC", "PDNZ"])
    ensures ExecuteA(["", "MC", "PDNZ"], Action(2, 1, 0)) == Ok(["CM", "", "PDNZ"])
    ensures ExecuteA(["CM", "", "PDNZ"], Action(1, 0, 1)) == Ok(["C", "M", "PDNZ"])
    ensures GetTopCrates(["C", "M", "PDNZ"]) == Ok("CMZ")
  {
    CraneAStep1();
    CraneAStep2();
    CraneAStep3();
    CraneAStep4();
    TopCratesExample();
  }

  /** The tops of the two cranes' final piles. */
  lemma TopCratesExample()
    ensures GetTopCrates(["C", "M", "PDNZ"]) == Ok("CMZ")
    ensures GetTopCrates(["M", "C", "PZND"]) == Ok("MCD")
  {
    var a := GetTopCrates(["C", "M", "PDNZ"]);
    assert a.value[0] == 'C' && a.value[1] == 'M' && a.value[2] == 'Z';
    assert a.value == "CMZ";
    var b := GetTopCrates(["M", "C", "PZND"]);
    assert b.value[0] == 'M' && b.value[1] == 'C' && b.value[2] == 'D';
    assert b.value == "MCD";
  }

  lemma CraneBStep(piles: seq<Pile>, a: Action, block: seq<char>, r: seq<Pile>)
    requires a.from < |piles| && a.to < |piles| && a.from != a.to && a.count <= |piles[a.from]|
    requires block == piles[a.from][|piles[a.from]| - a.count..]
    requires MovedBlock(piles, a, block) == r
    ensures ExecuteB(piles, a) == Ok(r)
  {
    ExecuteBMoves(piles, a);
  }

  /** The second crane's answer for the worked example: blocks keep
      their order. */
  lemma CraneBExample()
    ensures ExecuteB(["ZN", "MCD", "P"], Action(1, 1, 0)) == Ok(["ZND", "MC", "P"])
    ensures ExecuteB(["ZND", "MC", "P"], Action(3, 0, 2)) == Ok(["", "MC", "PZND"])
    ensures ExecuteB(["", "MC", "PZND"], Action(2, 1, 0)) == Ok(["MC", "", "PZND"])
    ensures ExecuteB(["MC", "", "PZND"], Action(1, 0, 1)) == Ok(["M", "C", "PZND"])
    ensures GetTopCrates(["M", "C", "PZND"]) == Ok("MCD")
  {
    CraneBStep1();
    CraneBStep2();
    CraneBStep3();
    CraneBStep4();
    TopCratesExample();
  }

  lemma CraneBStep1()
    ensures ExecuteB(["ZN", "MCD", "P"], Action(1, 1, 0)) == Ok(["ZND", "MC", "P"])
  {
    var piles: seq<Pile> := ["ZN", "MCD", "P"];
    var r := MovedBlock(piles, Action(1, 1, 0), "D");
    assert r[0] == "ZND" && r[1] == "MC" && r[2] == "P";
    assert r == ["ZND", "MC", "P"];
    CraneBStep(piles, Action(1, 1, 0), "D", r);
  }

  lemma CraneBStep2()
    ensures ExecuteB(["ZND", "MC", "P"], Action(3, 0, 2)) == Ok(["", "MC", "PZND"])
  {
    var piles: seq<Pile> := ["ZND", "MC", "P"];
    var r := MovedBlock(piles, Action(3, 0, 2), "ZND");
    assert r[0] == "" && r[1] == "MC" && r[2] == "PZND";
    assert r == ["", "MC", "PZND"];
    CraneBStep(piles, Action(3, 0, 2), "ZND", r);
  }

  lemma CraneBStep3()
    ensures ExecuteB(["", "MC", "PZND"], Action(2, 1, 0)) == Ok(["MC", "", "PZND"])
  {
    var piles: seq<Pile> := ["", "MC", "PZND"];
    var r := MovedBlock(piles, Action(2, 1, 0), "MC");
    assert r[0] == "MC" && r[1] == "" && r[2] == "PZND";
    assert r == ["MC", "", "PZND"];
    CraneBStep(piles, Action(2, 1, 0), "MC", r);
  }

  lemma CraneBStep4()
    ensures ExecuteB(["MC", "", "PZND"], Action(1, 0, 1)) == Ok(["M", "C", "PZND"])
  {
    var piles: seq<Pile> := ["MC", "", "PZND"];
    var r := MovedBlock(piles, Action(1, 0, 1), "C");
    assert r[0] == "M" && r[1] == "C" && r[2] == "PZND";
    assert r == ["M", "C", "PZND"];
    CraneBStep(piles, Action(1, 0, 1), "C", r);
  }
}
