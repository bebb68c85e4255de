/** Treetop tree house: a grid of tree heights, which trees can be seen
    from outside the grid, and each tree's scenic score.

    The grid is whatever the input lines give, so rows may differ in
    length; the solver takes the width from the first row and indexes
    the others directly. Every lookup is therefore checked here, and an
    index the solver would take out of range is an `Err`.
 */
module Trees {
  import opened Wrappers
  import Text

  /** A tree knows its own column `x`, row `y` and height. */
  datatype Tree = Tree(x: nat, y: nat, height: nat)

  type Grid = seq<seq<Tree>>

  /** A grid cell as (column, row). */
  type Pos = (int, int)

  datatype TreeError =
    | NotADigit        // a character of the input is not a decimal digit
    | EmptyGrid        // the grid has no first row
    | WidthUnderflow   // the first row is empty, so `width - 1` underflows
    | OutOfGrid        // a row shorter than the first one is indexed past its end

  // ---------------------------------------------------------------------
  // Building the grid
  // ---------------------------------------------------------------------

  function DigitValue(c: char): (r: Option<nat>)
    ensures r.Some? <==> Text.IsDigit(c)
    ensures r.Some? ==> r.value < 10 && r.value == c as int - '0' as int
  {
    if Text.IsDigit(c) then Some(c as int - '0' as int) else None
  }

  /** Row `y`: the tree at column `x` has the height of the digit there. */
  function BuildRow(line: string, y: nat): (r: Result<seq<Tree>, TreeError>)
    ensures r.Ok? <==> forall x :: 0 <= x < |line| ==> Text.IsDigit(line[x])
    ensures r.Ok? ==> (|r.value| == |line| &&
      forall x :: 0 <= x < |line| ==> r.value[x] == Tree(x, y, line[x] as int - '0' as int))
  {
    var xs := seq(|line|, x requires 0 <= x < |line| => x);
    var f := x => BuildTree(line, x, y);
    var r := TryMap(xs, f);
    assert forall x :: 0 <= x < |line| ==> f(xs[x]) == BuildTree(line, x, y);
    forall x | 0 <= x < |line|
      ensures BuildTree(line, x, y).Ok? <==> Text.IsDigit(line[x])
    {
    }
    r
  }

  function BuildTree(line: string, x: int, y: nat): (r: Result<Tree, TreeError>)
    ensures r.Ok? <==> 0 <= x < |line| && Text.IsDigit(line[x])
    ensures r.Ok? ==> r.value == Tree(x, y, line[x] as int - '0' as int)
  {
    if 0 <= x < |line| then
      var h :- OkOr(DigitValue(line[x]), NotADigit);
      Ok(Tree(x, y, h))
    else Err(OutOfGrid)
  }

  /** One row per input line, one tree per character. */
  function BuildGrid(input: string): (r: Result<Grid, TreeError>)
    ensures var lines := Text.Lines(input);
      r.Ok? <==> forall y, x :: 0 <= y < |lines| && 0 <= x < |lines[y]| ==> Text.IsDigit(lines[y][x])
    ensures var lines := Text.Lines(input);
      r.Ok? ==> |r.value| == |lines| && forall y :: 0 <= y < |lines| ==> BuildRow(lines[y], y) == Ok(r.value[y])
  {
    BuildRows(Text.Lines(input))
  }

  function BuildRows(lines: seq<string>): (r: Result<Grid, TreeError>)
    ensures r.Ok? <==> forall y, x :: 0 <= y < |lines| && 0 <= x < |lines[y]| ==> Text.IsDigit(lines[y][x])
    ensures r.Ok? ==> |r.value| == |lines| && forall y :: 0 <= y < |lines| ==> BuildRow(lines[y], y) == Ok(r.value[y])
  {
    var ys := seq(|lines|, y requires 0 <= y < |lines| => y);
    var f := y => if 0 <= y < |lines| then BuildRow(lines[y], y) else Err(OutOfGrid);
    var r := TryMap(ys, f);
    assert forall y :: 0 <= y < |lines| ==> f(ys[y]) == BuildRow(lines[y], y);
    r
  }

  /** Every row has the first row's width. */
  predicate Rectangular(grid: Grid) {
    grid != [] && forall y :: 0 <= y < |grid| ==> |grid[y]| == |grid[0]|
  }

  /** Every tree sits at the cell its own coordinates name. */
  predicate WellPlaced(grid: Grid) {
    forall y, x :: 0 <= y < |grid| && 0 <= x < |grid[y]| ==> grid[y][x].x == x && grid[y][x].y == y
  }

  lemma BuildGridPlaces(input: string)
    requires BuildGrid(input).Ok?
    ensures WellPlaced(BuildGrid(input).value)
  {
    var lines := Text.Lines(input);
    var grid: Grid := BuildGrid(input).value;
    forall y: nat, x: nat | 0 <= y < |grid| && 0 <= x < |grid[y]|
      ensures grid[y][x].x == x && grid[y][x].y == y
    {
      assert BuildRow(lines[y], y) == Ok(grid[y]);
    }
  }

  // ---------------------------------------------------------------------
  // Looking out from a tree
  // ---------------------------------------------------------------------

  /** The cells from `t` to the edge in the four directions, nearest
      first: west (0), east (1), north (2), south (3). The east and south
      runs end at the first row's width and the number of rows. */
  function Line(t: Tree, cardinal: nat, rows: nat, columns: nat): (ps: seq<Pos>)
  {
    if cardinal == 0 then seq(t.x, k => (t.x - 1 - k, t.y))
    else if cardinal == 1 then (if t.x + 1 < columns then seq(columns - t.x - 1, k => (t.x + 1 + k, t.y)) else [])
    else if cardinal == 2 then seq(t.y, k => (t.x, t.y - 1 - k))
    else (if t.y + 1 < rows then seq(rows - t.y - 1, k => (t.x, t.y + 1 + k)) else [])
  }

  /** `p` is on the grid edge the run in direction `cardinal` ends at. */
  predicate AtEdge(cardinal: nat, p: Pos, rows: nat, columns: nat) {
    (cardinal == 0 && p.0 == 0) || (cardinal == 1 && p.0 == columns - 1) ||
    (cardinal == 2 && p.1 == 0) || (cardinal == 3 && p.1 == rows - 1)
  }

  predicate OnGrid(grid: Grid, p: Pos) {
    0 <= p.1 < |grid| && 0 <= p.0 < |grid[p.1]|
  }

  function HeightAt(grid: Grid, p: Pos): (r: Result<nat, TreeError>)
    ensures r.Ok? <==> OnGrid(grid, p)
    ensures r.Ok? ==> r.value == grid[p.1][p.0].height
    ensures r.Err? ==> r.error == OutOfGrid
  {
    if OnGrid(grid, p) then Ok(grid[p.1][p.0].height) else Err(OutOfGrid)
  }

  /** The inner loop of the visibility test along one run: stop (not
      visible this way) at the first tree at least as tall; report
      visible on reaching the edge with every tree so far lower. */
  function LookOut(grid: Grid, h: nat, ps: seq<Pos>, cardinal: nat, rows: nat, columns: nat): (r: Result<bool, TreeError>)
    ensures r.Err? ==> r.error == OutOfGrid
    decreases |ps|
  {
    if ps == [] then Ok(false)
    else
      var other :- HeightAt(grid, ps[0]);
      if h <= other then Ok(false)
      else if AtEdge(cardinal, ps[0], rows, columns) then Ok(true)
      else LookOut(grid, h, ps[1..], cardinal, rows, columns)
  }

  /** Directions `cardinal`, `cardinal + 1`, ..., 3 in order. */
  function LookAround(grid: Grid, t: Tree, cardinal: nat, rows: nat, columns: nat): (r: Result<bool, TreeError>)
    requires cardinal <= 4
    ensures r.Err? ==> r.error == OutOfGrid
    decreases 4 - cardinal
  {
    if cardinal == 4 then Ok(false)
    else
      var seen :- LookOut(grid, t.height, Line(t, cardinal, rows, columns), cardinal, rows, columns);
      if seen then Ok(true) else LookAround(grid, t, cardinal + 1, rows, columns)
  }

  /** Trees on the border are visible; any other tree is visible when
      some run to the edge holds only lower trees. The border test reads
      the first row's width minus one, which underflows when that row is
      empty and the tree is not in column 0. */
  function IsVisible(t: Tree, grid: Grid): (r: Result<bool, TreeError>)
    ensures grid == [] <==> r == Err(EmptyGrid)
    ensures grid != [] && (t.x == 0 || (|grid[0]| > 0 && (t.x + 1 == |grid[0]| || t.y == 0 || t.y + 1 == |grid|))) ==> r == Ok(true)
    ensures grid != [] && t.x != 0 && |grid[0]| == 0 ==> r == Err(WidthUnderflow)
  {
    if grid == [] then Err(EmptyGrid)
    else
      var rows := |grid|;
      var columns := |grid[0]|;
      if t.x == 0 then Ok(true)
      else if columns == 0 then Err(WidthUnderflow)
      else if t.x == columns - 1 || t.y == 0 || t.y == rows - 1 then Ok(true)
      else LookAround(grid, t, 0, rows, columns)
  }

  /** Trees counted looking along a run: up to and including the first
      one at least as tall as `h`. */
  function ViewingDistance(grid: Grid, h: nat, ps: seq<Pos>): (r: Result<nat, TreeError>)
    ensures r.Ok? ==> r.value <= |ps|
    ensures r.Err? ==> r.error == OutOfGrid
    decreases |ps|
  {
    if ps == [] then Ok(0)
    else
      var other :- HeightAt(grid, ps[0]);
      if h <= other then Ok(1)
      else
        var rest :- ViewingDistance(grid, h, ps[1..]);
        Ok(1 + rest)
  }

  function Mul(a: nat, b: nat): nat {
    a * b
  }

  /** The product of the four viewing distances. Only an empty grid or a
      run leaving a short row fails. */
  function VisibilityScore(t: Tree, grid: Grid): (r: Result<nat, TreeError>)
    ensures r.Err? ==> r.error == (if grid == [] then EmptyGrid else OutOfGrid)
    ensures grid == [] ==> r.Err?
  {
    if grid == [] then Err(EmptyGrid)
    else
      var rows := |grid|;
      var columns := |grid[0]|;
      var west :- ViewingDistance(grid, t.height, Line(t, 0, rows, columns));
      var east :- ViewingDistance(grid, t.height, Line(t, 1, rows, columns));
      var north :- ViewingDistance(grid, t.height, Line(t, 2, rows, columns));
      var south :- ViewingDistance(grid, t.height, Line(t, 3, rows, columns));
      Ok(Mul(Mul(Mul(west, east), north), south))
  }

  // ---------------------------------------------------------------------
  // What the searches mean on a rectangular grid
  // ---------------------------------------------------------------------

  /** `t` is the tree at column `x` of row `y` of a rectangular grid. */
  predicate InGrid(grid: Grid, t: Tree) {
    Rectangular(grid) && t.y < |grid| && t.x < |grid[0]| && grid[t.y][t.x] == t
  }

  /** Cell `p` is on the grid and holds a tree lower than `h`. */
  predicate Lower(grid: Grid, h: nat, p: Pos) {
    OnGrid(grid, p) && grid[p.1][p.0].height < h
  }

  /** Every cell of the run holds a tree lower than `h`. */
  predicate AllLower(grid: Grid, h: nat, ps: seq<Pos>) {
    forall k :: 0 <= k < |ps| ==> Lower(grid, h, ps[k])
  }

  /** Looking from `t` in direction `cardinal`, every tree up to the
      edge is lower. */
  predicate ClearView(grid: Grid, t: Tree, cardinal: nat)
    requires grid != []
  {
    AllLower(grid, t.height, Line(t, cardinal, |grid|, |grid[0]|))
  }

  /** The reference meaning of visibility: on the border, or some run to
      the edge holds only lower trees. */
  predicate VisibleFromOutside(grid: Grid, t: Tree)
    requires InGrid(grid, t)
  {
    t.x == 0 || t.y == 0 || t.x + 1 == |grid[0]| || t.y + 1 == |grid| ||
    ClearView(grid, t, 0) || ClearView(grid, t, 1) || ClearView(grid, t, 2) || ClearView(grid, t, 3)
  }

  /** The runs out of a tree of the grid stay on the grid, and only
      their last cell lies on the edge they run to. */
  lemma LineInGrid(grid: Grid, t: Tree, cardinal: nat)
    requires InGrid(grid, t) && cardinal < 4
    ensures var ps := Line(t, cardinal, |grid|, |grid[0]|);
      (forall k :: 0 <= k < |ps| ==> OnGrid(grid, ps[k])) &&
      (forall k :: 0 <= k < |ps| ==> (AtEdge(cardinal, ps[k], |grid|, |grid[0]|) <==> k == |ps| - 1))
  {
  }

  /** Along a run that stays on the grid and meets its edge only at its
      end, the loop reports visible exactly when the run is non-empty and
      every tree on it is lower. */
  lemma {:induction false} LookOutMeans(grid: Grid, h: nat, ps: seq<Pos>, cardinal: nat, rows: nat, columns: nat)
    requires forall k :: 0 <= k < |ps| ==> OnGrid(grid, ps[k])
    requires forall k :: 0 <= k < |ps| ==> (AtEdge(cardinal, ps[k], rows, columns) <==> k == |ps| - 1)
    ensures LookOut(grid, h, ps, cardinal, rows, columns) == Ok(ps != [] && AllLower(grid, h, ps))
    decreases |ps|
  {
    if ps != [] {
      var other := grid[ps[0].1][ps[0].0].height;
      if h > other && |ps| > 1 {
        LookOutMeans(grid, h, ps[1..], cardinal, rows, columns);
        assert forall k :: 1 <= k < |ps| ==> ps[k] == ps[1..][k - 1];
      }
    }
  }

  /** Some direction from `cardinal` on offers a clear view. */
  predicate ClearFrom(grid: Grid, t: Tree, cardinal: nat)
    requires grid != []
    decreases 4 - cardinal
  {
    cardinal < 4 && (ClearView(grid, t, cardinal) || ClearFrom(grid, t, cardinal + 1))
  }

  /** The directions of an interior tree are non-empty, so looking
      around reports exactly whether some direction is clear. */
  lemma {:induction false} LookAroundMeans(grid: Grid, t: Tree, cardinal: nat)
    requires InGrid(grid, t) && cardinal <= 4
    requires 0 < t.x && t.x + 1 < |grid[0]| && 0 < t.y && t.y + 1 < |grid|
    ensures LookAround(grid, t, cardinal, |grid|, |grid[0]|) == Ok(ClearFrom(grid, t, cardinal))
    decreases 4 - cardinal
  {
    if cardinal < 4 {
      LineInGrid(grid, t, cardinal);
      LookOutMeans(grid, t.height, Line(t, cardinal, |grid|, |grid[0]|), cardinal, |grid|, |grid[0]|);
      LookAroundMeans(grid, t, cardinal + 1);
    }
  }

  /** On a rectangular grid the visibility test never fails and agrees
      with the reference meaning. */
  lemma IsVisibleMeans(grid: Grid, t: Tree)
    requires InGrid(grid, t)
    ensures IsVisible(t, grid) == Ok(VisibleFromOutside(grid, t))
  {
    if 0 < t.x && t.x + 1 < |grid[0]| && 0 < t.y && t.y + 1 < |grid| {
      LookAroundMeans(grid, t, 0);
      assert ClearFrom(grid, t, 0) == (ClearView(grid, t, 0) || ClearView(grid, t, 1) || ClearView(grid, t, 2) || ClearView(grid, t, 3));
    }
  }

  /** Along a run that stays on the grid, the viewing distance `d` counts
      the lower trees in front and then the first tree at least as tall,
      if there is one; it is 0 only for an empty run. */
  lemma {:induction false} ViewingDistanceMeans(grid: Grid, h: nat, ps: seq<Pos>)
    requires forall k :: 0 <= k < |ps| ==> OnGrid(grid, ps[k])
    ensures ViewingDistance(grid, h, ps).Ok?
    ensures var d := ViewingDistance(grid, h, ps).value;
      d <= |ps| && (d == 0 <==> ps == []) &&
      (forall k :: 0 <= k < d - 1 ==> Lower(grid, h, ps[k])) &&
      (d < |ps| ==> !Lower(grid, h, ps[d - 1]))
    decreases |ps|
  {
    if ps != [] {
      ViewingDistanceMeans(grid, h, ps[1..]);
      assert forall k :: 1 <= k < |ps| ==> ps[k] == ps[1..][k - 1];
    }
  }

  /** A tree on the border looks out over nothing in at least one
      direction, so its score is 0. */
  lemma BorderScoresZero(grid: Grid, t: Tree)
    requires InGrid(grid, t)
    requires t.x == 0 || t.y == 0 || t.x + 1 == |grid[0]| || t.y + 1 == |grid|
    ensures VisibilityScore(t, grid) == Ok(0)
  {
    var rows, columns := |grid|, |grid[0]|;
    DistancesDefined(grid, t);
    var w := ViewingDistance(grid, t.height, Line(t, 0, rows, columns)).value;
    var e := ViewingDistance(grid, t.height, Line(t, 1, rows, columns)).value;
    var n := ViewingDistance(grid, t.height, Line(t, 2, rows, columns)).value;
    var s := ViewingDistance(grid, t.height, Line(t, 3, rows, columns)).value;
    ScoreOfDistances(grid, t, w, e, n, s);
    if t.x == 0 {
      assert Line(t, 0, rows, columns) == [];
    } else if t.x + 1 == columns {
      assert Line(t, 1, rows, columns) == [];
    } else if t.y == 0 {
      assert Line(t, 2, rows, columns) == [];
    } else {
      assert Line(t, 3, rows, columns) == [];
    }
    ProductZero(w, e, n, s);
  }

  lemma ProductZero(w: nat, e: nat, n: nat, s: nat)
    requires w == 0 || e == 0 || n == 0 || s == 0
    ensures Mul(Mul(Mul(w, e), n), s) == 0
  {
    if w == 0 || e == 0 {
      assert Mul(w, e) == 0;
    }
    if w == 0 || e == 0 || n == 0 {
      assert Mul(Mul(w, e), n) == 0;
    }
  }

  /** The score is the product of the four distances once they are known. */
  lemma ScoreOfDistances(grid: Grid, t: Tree, w: nat, e: nat, n: nat, s: nat)
    requires grid != []
    requires ViewingDistance(grid, t.height, Line(t, 0, |grid|, |grid[0]|)) == Ok(w)
    requires ViewingDistance(grid, t.height, Line(t, 1, |grid|, |grid[0]|)) == Ok(e)
    requires ViewingDistance(grid, t.height, Line(t, 2, |grid|, |grid[0]|)) == Ok(n)
    requires ViewingDistance(grid, t.height, Line(t, 3, |grid|, |grid[0]|)) == Ok(s)
    ensures VisibilityScore(t, grid) == Ok(Mul(Mul(Mul(w, e), n), s))
  {
  }

  /** From a tree of a rectangular grid all four viewing distances are
      defined. */
  lemma DistancesDefined(grid: Grid, t: Tree)
    requires InGrid(grid, t)
    ensures forall c :: 0 <= c < 4 ==> ViewingDistance(grid, t.height, Line(t, c, |grid|, |grid[0]|)).Ok?
  {
    forall c | 0 <= c < 4
      ensures ViewingDistance(grid, t.height, Line(t, c, |grid|, |grid[0]|)).Ok?
    {
      LineInGrid(grid, t, c);
      ViewingDistanceMeans(grid, t.height, Line(t, c, |grid|, |grid[0]|));
    }
  }

  // ---------------------------------------------------------------------
  // The answers
  // ---------------------------------------------------------------------

  /** The number of `true` entries of `bs`. */
  function CountTrue(bs: seq<bool>): nat {
    if bs == [] then 0 else (if bs[0] then 1 else 0) + CountTrue(bs[1..])
  }

  lemma {:induction false} CountTrueAppend(a: seq<bool>, b: seq<bool>)
    ensures CountTrue(a + b) == CountTrue(a) + CountTrue(b)
  {
    if a == [] {
      assert a + b == b;
    } else {
      assert (a + b)[0] == a[0];
      assert (a + b)[1..] == a[1..] + b;
      CountTrueAppend(a[1..], b);
    }
  }

  /** The trees of `rows`, row after row. */
  function AllTrees(rows: seq<seq<Tree>>): seq<Tree> {
    if rows == [] then [] else rows[0] + AllTrees(rows[1..])
  }

  /** For each tree of `ts`, whether the visibility test reports it visible. */
  function Seen(grid: Grid, ts: seq<Tree>): (bs: seq<bool>)
    ensures |bs| == |ts|
  {
    seq(|ts|, k requires 0 <= k < |ts| => IsVisible(ts[k], grid) == Ok(true))
  }

  /** Visible trees of `rows`, counted in row order, stopping at the
      first failure: the count succeeds exactly when every test does, and
      then it is the number of trees reported visible. */
  function CountVisible(grid: Grid, rows: seq<seq<Tree>>): (r: Result<nat, TreeError>)
    ensures r.Ok? <==> forall y, x :: 0 <= y < |rows| && 0 <= x < |rows[y]| ==> IsVisible(rows[y][x], grid).Ok?
    ensures r.Ok? ==> r.value == CountTrue(Seen(grid, AllTrees(rows)))
    decreases |rows|
  {
    if rows == [] then Ok(0)
    else
      var here :- CountVisibleInRow(grid, rows[0]);
      var rest :- CountVisible(grid, rows[1..]);
      assert forall y :: 1 <= y < |rows| ==> rows[y] == rows[1..][y - 1];
      CountSeenStep(grid, rows);
      Ok(here + rest)
  }

  /** The trees seen in `rows` are those seen in its first row and then
      those seen in the others. */
  lemma CountSeenStep(grid: Grid, rows: seq<seq<Tree>>)
    requires rows != []
    ensures CountTrue(Seen(grid, AllTrees(rows))) == CountTrue(Seen(grid, rows[0])) + CountTrue(Seen(grid, AllTrees(rows[1..])))
  {
    assert Seen(grid, AllTrees(rows)) == Seen(grid, rows[0]) + Seen(grid, AllTrees(rows[1..]));
    CountTrueAppend(Seen(grid, rows[0]), Seen(grid, AllTrees(rows[1..])));
  }

  /** The same count over one row; a failure is the first failing test's. */
  function CountVisibleInRow(grid: Grid, row: seq<Tree>): (r: Result<nat, TreeError>)
    ensures r.Ok? <==> forall x :: 0 <= x < |row| ==> IsVisible(row[x], grid).Ok?
    ensures r.Ok? ==> r.value == CountTrue(Seen(grid, row))
    ensures r.Err? ==> exists x :: 0 <= x < |row| && IsVisible(row[x], grid) == Err(r.error) &&
                         forall j :: 0 <= j < x ==> IsVisible(row[j], grid).Ok?
    decreases |row|
  {
    if row == [] then Ok(0)
    else
      var seen :- IsVisible(row[0], grid);
      var rest :- CountVisibleInRow(grid, row[1..]);
      assert forall x :: 1 <= x < |row| ==> row[x] == row[1..][x - 1];
      CountSeenRowStep(grid, row);
      Ok((if seen then 1 else 0) + rest)
  }

  /** The first tree of a row counts once if seen, then the rest. */
  lemma CountSeenRowStep(grid: Grid, row: seq<Tree>)
    requires row != []
    ensures CountTrue(Seen(grid, row)) == (if IsVisible(row[0], grid) == Ok(true) then 1 else 0) + CountTrue(Seen(grid, row[1..]))
  {
    assert Seen(grid, row)[1..] == Seen(grid, row[1..]);
  }

  /** Part one: how many trees are visible from outside the grid. */
  function GetAnswerA(input: string): (r: Result<nat, TreeError>)
    ensures BuildGrid(input).Err? ==> r == Err(BuildGrid(input).error)
    ensures r.Ok? ==> (BuildGrid(input).Ok? &&
                       r.value == CountTrue(Seen(BuildGrid(input).value, AllTrees(BuildGrid(input).value))))
  {
    var grid :- BuildGrid(input);
    CountVisible(grid, grid)
  }

  /** The largest score among the trees of `rows`, or `best` if that is
      larger: it bounds every score and is one of them or `best`. */
  function MaxScore(grid: Grid, rows: seq<seq<Tree>>, best: nat): (r: Result<nat, TreeError>)
    ensures r.Ok? ==> r.value >= best
    ensures r.Ok? ==> forall y, x :: 0 <= y < |rows| && 0 <= x < |rows[y]| ==>
      VisibilityScore(rows[y][x], grid).Ok? && VisibilityScore(rows[y][x], grid).value <= r.value
    ensures r.Ok? ==> (r.value == best ||
      exists y, x :: 0 <= y < |rows| && 0 <= x < |rows[y]| && VisibilityScore(rows[y][x], grid) == Ok(r.value))
    decreases |rows|
  {
    if rows == [] then Ok(best)
    else
      var next :- MaxScoreInRow(grid, rows[0], best);
      var r :- MaxScore(grid, rows[1..], next);
      assert forall y :: 1 <= y < |rows| ==> rows[y] == rows[1..][y - 1];
      Ok(r)
  }

  function MaxScoreInRow(grid: Grid, row: seq<Tree>, best: nat): (r: Result<nat, TreeError>)
    ensures r.Ok? ==> r.value >= best
    ensures r.Ok? ==> forall x :: 0 <= x < |row| ==>
      VisibilityScore(row[x], grid).Ok? && VisibilityScore(row[x], grid).value <= r.value
    ensures r.Ok? ==> r.value == best || exists x :: 0 <= x < |row| && VisibilityScore(row[x], grid) == Ok(r.value)
    decreases |row|
  {
    if row == [] then Ok(best)
    else
      var score :- VisibilityScore(row[0], grid);
      var r :- MaxScoreInRow(grid, row[1..], if score > best then score else best);
      assert forall x :: 1 <= x < |row| ==> row[x] == row[1..][x - 1];
      Ok(r)
  }

  /** Part two: the highest scenic score, starting from 0. */
  function GetAnswerB(input: string): (r: Result<nat, TreeError>)
    ensures BuildGrid(input).Err? ==> r == Err(BuildGrid(input).error)
    ensures r.Ok? ==> BuildGrid(input).Ok?
    ensures r.Ok? ==> var grid := BuildGrid(input).value;
      (forall y, x :: 0 <= y < |grid| && 0 <= x < |grid[y]| ==>
         VisibilityScore(grid[y][x], grid).Ok? && VisibilityScore(grid[y][x], grid).value <= r.value) &&
      (r.value == 0 || exists y, x :: 0 <= y < |grid| && 0 <= x < |grid[y]| && VisibilityScore(grid[y][x], grid) == Ok(r.value))
  {
    var grid :- BuildGrid(input);
    MaxScore(grid, grid, 0)
  }

  /** A tree of the grid that the reference meaning calls visible. */
  predicate VisibleTree(grid: Grid, t: Tree) {
    InGrid(grid, t) && VisibleFromOutside(grid, t)
  }

  /** Every tree of `AllTrees(rows)` is a tree of some row. */
  lemma {:induction false} AllTreesFrom(rows: seq<seq<Tree>>, k: nat)
    requires k < |AllTrees(rows)|
    ensures exists y, x :: 0 <= y < |rows| && 0 <= x < |rows[y]| && AllTrees(rows)[k] == rows[y][x]
    decreases |rows|
  {
    assert rows != [];
    if k < |rows[0]| {
      assert AllTrees(rows)[k] == rows[0][k];
    } else {
      AllTreesFrom(rows[1..], k - |rows[0]|);
      var y, x :| 0 <= y < |rows[1..]| && 0 <= x < |rows[1..][y]| && AllTrees(rows[1..])[k - |rows[0]|] == rows[1..][y][x];
      assert AllTrees(rows)[k] == rows[y + 1][x];
    }
  }

  /** On a rectangular grid, part one never fails and counts exactly the
      trees that are visible from outside the grid in the reference sense. */
  lemma AnswerACountsVisibleTrees(input: string)
    requires BuildGrid(input).Ok? && Rectangular(BuildGrid(input).value)
    ensures var grid := BuildGrid(input).value; var ts := AllTrees(grid);
      GetAnswerA(input) == Ok(CountTrue(seq(|ts|, k requires 0 <= k < |ts| => VisibleTree(grid, ts[k]))))
  {
    var grid := BuildGrid(input).value;
    var ts := AllTrees(grid);
    BuiltTreesTested(input);
    SeenAreVisibleTrees(grid);
    assert CountVisible(grid, grid).Ok?;
    assert GetAnswerA(input) == CountVisible(grid, grid);
  }

  /** Every tree of a built rectangular grid gets a verdict, and that
      verdict is the reference one. */
  lemma BuiltTreesTested(input: string)
    requires BuildGrid(input).Ok? && Rectangular(BuildGrid(input).value)
    ensures var grid := BuildGrid(input).value;
      forall y, x :: 0 <= y < |grid| && 0 <= x < |grid[y]| ==> IsVisible(grid[y][x], grid) == Ok(VisibleTree(grid, grid[y][x]))
  {
    var grid := BuildGrid(input).value;
    BuildGridPlaces(input);
    forall y, x | 0 <= y < |grid| && 0 <= x < |grid[y]|
      ensures IsVisible(grid[y][x], grid) == Ok(VisibleTree(grid, grid[y][x]))
    {
      IsVisibleMeans(grid, grid[y][x]);
    }
  }

  /** When every verdict is the reference one, the trees reported seen are
      the visible trees, in row order. */
  lemma SeenAreVisibleTrees(grid: Grid)
    requires forall y, x :: 0 <= y < |grid| && 0 <= x < |grid[y]| ==> IsVisible(grid[y][x], grid) == Ok(VisibleTree(grid, grid[y][x]))
    ensures var ts := AllTrees(grid);
      Seen(grid, ts) == seq(|ts|, k requires 0 <= k < |ts| => VisibleTree(grid, ts[k]))
  {
    var ts := AllTrees(grid);
    forall k | 0 <= k < |ts|
      ensures Seen(grid, ts)[k] == VisibleTree(grid, ts[k])
    {
      AllTreesFrom(grid, k);
    }
  }
}
