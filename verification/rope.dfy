/** Day 9: a rope of knots dragged around an unbounded integer grid.

    The head moves one cell at a time; every other knot follows the knot
    in front of it by the "Planck physics" rule, front to back within a
    single step. The answers are the numbers of distinct cells the last
    knot visits for a 2-knot rope and for a 10-knot rope.
 */
module Rope {
  import opened Wrappers
  import Text

  datatype Direction = U | D | L | R

  /** One line of the motion log: a direction and a number of unit steps. */
  datatype Action = Action(dir: Direction, units: int)

  datatype Position = Position(x: int, y: int)

  function Abs(v: int): nat {
    if v < 0 then -v else v
  }

  /** -1, 0 or 1 according to the sign of `v`. */
  function Sign(v: int): int {
    if v < 0 then -1 else if v > 0 then 1 else 0
  }

  /** Chebyshev (king-move) distance between two cells. */
  function Distance(p: Position, q: Position): nat {
    var dx := Abs(p.x - q.x);
    var dy := Abs(p.y - q.y);
    if dx < dy then dy else dx
  }

  // ---------------------------------------------------------------------
  // Positions
  // ---------------------------------------------------------------------

  /** Two knots touch when they overlap or are adjacent, diagonals included. */
  function AreTouching(p1: Position, p2: Position): (r: bool)
    ensures r <==> Distance(p1, p2) <= 1
  {
    Abs(p1.x - p2.x) <= 1 && Abs(p1.y - p2.y) <= 1
  }

  function Opposite(dir: Direction): Direction {
    match dir
    case U => D
    case D => U
    case L => R
    case R => L
  }

  /** One cell in direction `dir`: up and right are the positive axes. */
  function Translate(p: Position, dir: Direction): (q: Position)
    ensures Distance(p, q) == 1
    ensures dir in {U, D} ==> q.x == p.x && q.y - p.y == (if dir == U then 1 else -1)
    ensures dir in {L, R} ==> q.y == p.y && q.x - p.x == (if dir == R then 1 else -1)
  {
    match dir
    case U => p.(y := p.y + 1)
    case D => p.(y := p.y - 1)
    case R => p.(x := p.x + 1)
    case L => p.(x := p.x - 1)
  }

  lemma TranslateOpposite(p: Position, dir: Direction)
    ensures Translate(Translate(p, dir), Opposite(dir)) == p
  {
  }

  /** The follow rule: where `tail` ends up once `head` has moved.
      A touching tail stays; a tail in the head's row or column is put
      right behind the head on that line; otherwise the tail takes one
      diagonal step toward the head. */
  function RunPlanckPhysics(head: Position, tail: Position): (t: Position)
    ensures AreTouching(head, tail) ==> t == tail
    ensures !AreTouching(head, tail) && tail.x == head.x ==>
              t.x == tail.x && Abs(t.y - head.y) == 1 && Sign(head.y - t.y) == Sign(head.y - tail.y)
    ensures !AreTouching(head, tail) && tail.y == head.y ==>
              t.y == tail.y && Abs(t.x - head.x) == 1 && Sign(head.x - t.x) == Sign(head.x - tail.x)
    ensures !AreTouching(head, tail) && tail.x != head.x && tail.y != head.y ==>
              Abs(t.x - tail.x) == 1 && Abs(t.y - tail.y) == 1 &&
              Distance(head, t) == Distance(head, tail) - 1
  {
    if AreTouching(head, tail) then tail
    else if tail.x == head.x then
      if tail.y < head.y - 1 then tail.(y := head.y - 1)
      else if tail.y > head.y + 1 then tail.(y := head.y + 1)
      else tail
    else if tail.y == head.y then
      if tail.x < head.x - 1 then tail.(x := head.x - 1)
      else if tail.x > head.x + 1 then tail.(x := head.x + 1)
      else tail
    else
      var y := if tail.y < head.y then tail.y + 1 else if tail.y > head.y then tail.y - 1 else tail.y;
      var x := if tail.x < head.x then tail.x + 1 else if tail.x > head.x then tail.x - 1 else tail.x;
      Position(x, y)
  }

  /** The catch-up rule in its closed form: a tail that does not touch
      moves one cell toward the head along each axis where they differ. */
  function SignStep(head: Position, tail: Position): Position {
    if AreTouching(head, tail) then tail
    else Position(tail.x + Sign(head.x - tail.x), tail.y + Sign(head.y - tail.y))
  }

  /** Whenever the head is at most two cells away (every state a rope
      reaches), the follow rule is the one-step-per-axis catch-up. */
  lemma PhysicsIsSignStep(head: Position, tail: Position)
    requires Distance(head, tail) <= 2
    ensures RunPlanckPhysics(head, tail) == SignStep(head, tail)
  {
  }

  /** A tail that touched its leader still touches it after the leader
      moves by at most one cell per axis and the tail follows, and the
      tail itself moves by at most one cell per axis. */
  lemma FollowKeepsTouching(head: Position, head': Position, tail: Position)
    requires AreTouching(head, tail)
    requires Distance(head, head') <= 1
    ensures AreTouching(head', RunPlanckPhysics(head', tail))
    ensures Distance(tail, RunPlanckPhysics(head', tail)) <= 1
  {
    PhysicsIsSignStep(head', tail);
  }

  // ---------------------------------------------------------------------
  // Ropes
  // ---------------------------------------------------------------------

  /** The two-knot rope of part A. */
  datatype ShortRope = ShortRope(head: Position, tail: Position)

  function NewShortRope(pos: Position): (r: ShortRope)
    ensures AreTouching(r.head, r.tail)
  {
    ShortRope(pos, pos)
  }

  function MoveShortRope(rope: ShortRope, dir: Direction): (r: ShortRope)
    ensures r.head == Translate(rope.head, dir)
    ensures AreTouching(rope.head, rope.tail) ==> AreTouching(r.head, r.tail)
    ensures Distance(rope.tail, r.tail) <= 1 || !AreTouching(rope.head, rope.tail)
  {
    var head := Translate(rope.head, dir);
    var tail := RunPlanckPhysics(head, rope.tail);
    assert AreTouching(rope.head, rope.tail) ==> AreTouching(head, tail) && Distance(rope.tail, tail) <= 1 by {
      if AreTouching(rope.head, rope.tail) {
        FollowKeepsTouching(rope.head, head, rope.tail);
      }
    }
    ShortRope(head, tail)
  }

  /** The knot chain of part B: knot 0 is the head, the last knot the tail. */
  datatype LongRope = LongRope(knots: seq<Position>)

  /** Every knot touches the one in front of it. */
  predicate AllTouching(knots: seq<Position>) {
    forall i :: 0 <= i < |knots| - 1 ==> AreTouching(knots[i], knots[i + 1])
  }

  function NewLongRope(pos: Position, len: nat): (r: LongRope)
    ensures |r.knots| == len
    ensures forall i :: 0 <= i < len ==> r.knots[i] == pos
    ensures AllTouching(r.knots)
  {
    LongRope(seq(len, _ => pos))
  }

  /** Drags `followers` behind a leader that has just moved: each knot in
      turn obeys the follow rule behind the knot in front of it. */
  function Follow(leader: Position, followers: seq<Position>): (r: seq<Position>)
    ensures |r| == |followers|
    ensures r != [] ==> r[0] == RunPlanckPhysics(leader, followers[0])
    ensures forall k :: 0 < k < |r| ==> r[k] == RunPlanckPhysics(r[k - 1], followers[k])
    decreases |followers|
  {
    if followers == [] then []
    else
      var t := RunPlanckPhysics(leader, followers[0]);
      var rest := Follow(t, followers[1..]);
      assert forall k :: 1 < k < |followers| ==> followers[k] == followers[1..][k - 1];
      [t] + rest
  }

  /** Moves knot 0 one cell and then drags every other knot, front to back. */
  function MoveLongRope(rope: LongRope, dir: Direction): (r: LongRope)
    requires |rope.knots| > 0
    ensures |r.knots| == |rope.knots|
    ensures r.knots[0] == Translate(rope.knots[0], dir)
  {
    var head := Translate(rope.knots[0], dir);
    LongRope([head] + Follow(head, rope.knots[1..]))
  }

  /** Every follower is placed behind the position its leader took in this
      same step, never the leader's position from the previous step. */
  lemma {:induction false} FollowUsesUpdatedLeader(leader: Position, followers: seq<Position>)
    ensures |followers| > 0 ==> Follow(leader, followers)[0] == RunPlanckPhysics(leader, followers[0])
    ensures forall i :: 0 < i < |followers| ==>
              Follow(leader, followers)[i] == RunPlanckPhysics(Follow(leader, followers)[i - 1], followers[i])
    decreases |followers|
  {
    if followers != [] {
      var t := RunPlanckPhysics(leader, followers[0]);
      var rest := Follow(t, followers[1..]);
      FollowUsesUpdatedLeader(t, followers[1..]);
      assert Follow(leader, followers) == [t] + rest;
      forall i | 0 < i < |followers|
        ensures Follow(leader, followers)[i] == RunPlanckPhysics(Follow(leader, followers)[i - 1], followers[i])
      {
        assert followers[i] == followers[1..][i - 1];
        if i > 1 {
          assert rest[i - 1] == RunPlanckPhysics(rest[i - 2], followers[1..][i - 1]);
        }
      }
    }
  }

  /** The head-to-tail update order of one move of the long rope. */
  lemma MoveLongRopeOrder(rope: LongRope, dir: Direction)
    requires |rope.knots| > 0
    ensures forall i :: 0 < i < |rope.knots| ==>
              MoveLongRope(rope, dir).knots[i] == RunPlanckPhysics(MoveLongRope(rope, dir).knots[i - 1], rope.knots[i])
  {
    var head := Translate(rope.knots[0], dir);
    var rest := rope.knots[1..];
    FollowUsesUpdatedLeader(head, rest);
    var r := MoveLongRope(rope, dir).knots;
    assert r == [head] + Follow(head, rest);
    forall i | 0 < i < |rope.knots|
      ensures r[i] == RunPlanckPhysics(r[i - 1], rope.knots[i])
    {
      assert rope.knots[i] == rest[i - 1];
    }
  }

  lemma {:induction false} FollowChainKeepsTouching(leader: Position, leader': Position, followers: seq<Position>)
    requires Distance(leader, leader') <= 1
    requires AllTouching([leader] + followers)
    ensures AllTouching([leader'] + Follow(leader', followers))
    ensures forall i :: 0 <= i < |followers| ==> Distance(followers[i], Follow(leader', followers)[i]) <= 1
    decreases |followers|
  {
    if followers != [] {
      var chain := [leader] + followers;
      assert AreTouching(chain[0], chain[1]);
      FollowKeepsTouching(leader, leader', followers[0]);
      var t := RunPlanckPhysics(leader', followers[0]);
      assert AllTouching([followers[0]] + followers[1..]) by {
        assert [followers[0]] + followers[1..] == chain[1..];
      }
      FollowChainKeepsTouching(followers[0], t, followers[1..]);
      var rest := Follow(t, followers[1..]);
      assert Follow(leader', followers) == [t] + rest;
      assert [leader'] + Follow(leader', followers) == [leader'] + ([t] + rest);
      assert ([t] + rest)[1..] == rest;
    }
  }

  /** Moving the head keeps every adjacent pair of knots touching and
      moves no knot by more than one cell per axis. */
  lemma MoveLongRopeKeepsTouching(rope: LongRope, dir: Direction)
    requires |rope.knots| > 0
    requires AllTouching(rope.knots)
    ensures AllTouching(MoveLongRope(rope, dir).knots)
    ensures forall i :: 0 <= i < |rope.knots| ==> Distance(rope.knots[i], MoveLongRope(rope, dir).knots[i]) <= 1
  {
    var head := Translate(rope.knots[0], dir);
    assert rope.knots == [rope.knots[0]] + rope.knots[1..];
    FollowChainKeepsTouching(rope.knots[0], head, rope.knots[1..]);
  }

  /** A long rope of two knots moves exactly like the short rope. */
  lemma TwoKnotRopeIsShortRope(rope: ShortRope, dir: Direction)
    ensures MoveLongRope(LongRope([rope.head, rope.tail]), dir).knots
         == [MoveShortRope(rope, dir).head, MoveShortRope(rope, dir).tail]
  {
    MoveLongRopeOrder(LongRope([rope.head, rope.tail]), dir);
  }

  // ---------------------------------------------------------------------
  // Parsing the motion log
  // ---------------------------------------------------------------------

  /** Why a motion line was rejected (each is a panic in the program). */
  datatype ParseError = MissingSpace | InvalidUnits | UnknownDirection

  function Letter(dir: Direction): char {
    match dir
    case U => 'U'
    case D => 'D'
    case L => 'L'
    case R => 'R'
  }

  /** `"<letter> <count>"`: the count is read (as an `i32`) before the
      letter is examined. */
  function ParseLine(line: string): (r: Result<Action, ParseError>)
    ensures r.Ok? ==> |line| >= 2 && line[0] == Letter(r.value.dir) && line[1] == ' '
                      && Text.ParseI32(line[2..]) == Some(r.value.units)
  {
    match Text.SplitOnce(line, " ")
    case None => Err(MissingSpace)
    case Some((dir, norm)) =>
      match Text.ParseI32(norm)
      case None => Err(InvalidUnits)
      case Some(units) =>
        if dir == "U" then Ok(Action(U, units))
        else if dir == "D" then Ok(Action(D, units))
        else if dir == "L" then Ok(Action(L, units))
        else if dir == "R" then Ok(Action(R, units))
        else Err(UnknownDirection)
  }

  /** The line a motion is written as. */
  function FormatAction(a: Action): string {
    [Letter(a.dir), ' '] + Text.IntToString(a.units)
  }

  lemma ParseFormatAction(a: Action)
    requires Text.I32_MIN <= a.units <= Text.I32_MAX
    ensures ParseLine(FormatAction(a)) == Ok(a)
  {
    SplitFormatAction(a);
    Text.ParseIntToString(a.units, true, Text.I32_MIN, Text.I32_MAX);
  }

  lemma SplitFormatAction(a: Action)
    ensures Text.SplitOnce(FormatAction(a), " ") == Some(([Letter(a.dir)], Text.IntToString(a.units)))
  {
    var line := FormatAction(a);
    assert Text.OccursAt(line, " ", 1);
    assert line[..1] == [Letter(a.dir)];
    assert line[0..1] != " ";
    assert !Text.OccursAt(line, " ", 0);
    assert line[2..] == Text.IntToString(a.units);
  }

  /** Every line of the log, in order; the first bad line aborts. */
  function ParseMoves(lines: seq<string>): (r: Result<seq<Action>, ParseError>)
    ensures r.Ok? <==> forall i :: 0 <= i < |lines| ==> ParseLine(lines[i]).Ok?
    ensures r.Ok? ==> |r.value| == |lines| && forall i :: 0 <= i < |lines| ==> ParseLine(lines[i]) == Ok(r.value[i])
    ensures r.Err? ==> exists i :: 0 <= i < |lines| && ParseLine(lines[i]) == Err(r.error) &&
                         forall j :: 0 <= j < i ==> ParseLine(lines[j]).Ok?
  {
    TryMap(lines, ParseLine)
  }

  /** Writing a log out and parsing it back gives the same motions. */
  lemma ParseFormatMoves(actions: seq<Action>)
    requires forall i :: 0 <= i < |actions| ==> Text.I32_MIN <= actions[i].units <= Text.I32_MAX
    ensures ParseMoves(seq(|actions|, i requires 0 <= i < |actions| => FormatAction(actions[i]))) == Ok(actions)
  {
    var lines := seq(|actions|, i requires 0 <= i < |actions| => FormatAction(actions[i]));
    forall i | 0 <= i < |lines|
      ensures ParseLine(lines[i]) == Ok(actions[i])
    {
      ParseFormatAction(actions[i]);
    }
    TryMapAllOk(lines, ParseLine, actions);
  }

  // ---------------------------------------------------------------------
  // Simulation and answers
  // ---------------------------------------------------------------------

  /** Chain state plus every cell the last knot has occupied after a step. */
  datatype Run = Run(knots: seq<Position>, visited: set<Position>)

  /** One unit step of the head, then record where the tail is. */
  function Step(run: Run, dir: Direction): (r: Run)
    requires |run.knots| > 0
    ensures |r.knots| == |run.knots|
    ensures r.visited == run.visited + {r.knots[|r.knots| - 1]}
  {
    var knots := MoveLongRope(LongRope(run.knots), dir).knots;
    Run(knots, run.visited + {knots[|knots| - 1]})
  }

  /** `n` unit steps in one direction (`0..units` is empty for units <= 0). */
  function Repeat(run: Run, dir: Direction, n: int): (r: Run)
    requires |run.knots| > 0
    ensures |r.knots| == |run.knots|
    ensures n <= 0 ==> r == run
    ensures run.visited <= r.visited
    ensures n > 0 ==> r.knots[|r.knots| - 1] in r.visited
    decreases n
  {
    if n <= 0 then run else Repeat(Step(run, dir), dir, n - 1)
  }

  function RunActions(run: Run, actions: seq<Action>): (r: Run)
    requires |run.knots| > 0
    ensures |r.knots| == |run.knots|
    ensures run.visited <= r.visited
    decreases |actions|
  {
    if actions == [] then run
    else RunActions(Repeat(run, actions[0].dir, actions[0].units), actions[1..])
  }

  /** Number of unit steps a log asks for. */
  function TotalSteps(actions: seq<Action>): nat {
    if actions == [] then 0
    else (if actions[0].units > 0 then actions[0].units else 0) + TotalSteps(actions[1..])
  }

  /** The visited set only grows, by at most one cell per unit step, and
      the knots keep touching throughout. */
  lemma {:induction false} RepeatInvariant(run: Run, dir: Direction, n: int)
    requires |run.knots| > 0
    requires AllTouching(run.knots)
    ensures AllTouching(Repeat(run, dir, n).knots)
    ensures run.visited <= Repeat(run, dir, n).visited
    ensures |Repeat(run, dir, n).visited| <= |run.visited| + (if n > 0 then n else 0)
    ensures n > 0 ==> Repeat(run, dir, n).visited != {}
    decreases n
  {
    if n > 0 {
      var next := Step(run, dir);
      MoveLongRopeKeepsTouching(LongRope(run.knots), dir);
      RepeatInvariant(next, dir, n - 1);
    }
  }

  lemma {:induction false} RunActionsInvariant(run: Run, actions: seq<Action>)
    requires |run.knots| > 0
    requires AllTouching(run.knots)
    ensures AllTouching(RunActions(run, actions).knots)
    ensures run.visited <= RunActions(run, actions).visited
    ensures |RunActions(run, actions).visited| <= |run.visited| + TotalSteps(actions)
    ensures TotalSteps(actions) > 0 ==> RunActions(run, actions).visited != {}
    decreases |actions|
  {
    if actions != [] {
      var a := actions[0];
      RepeatInvariant(run, a.dir, a.units);
      RunActionsInvariant(Repeat(run, a.dir, a.units), actions[1..]);
    }
  }

  /** Distinct tail cells of a rope of `len` knots all starting at `start`. */
  function TailVisits(start: Position, len: nat, actions: seq<Action>): (n: nat)
    requires len > 0
    ensures n <= TotalSteps(actions)
    ensures TotalSteps(actions) > 0 ==> n >= 1
  {
    var init := Run(NewLongRope(start, len).knots, {});
    RunActionsInvariant(init, actions);
    |RunActions(init, actions).visited|
  }

  /** Part A: a 2-knot rope starting at the origin. */
  function AnswerA(input: string): (r: Result<nat, ParseError>)
    ensures r.Ok? ==> ParseMoves(Text.Lines(input)).Ok? && r.value <= TotalSteps(ParseMoves(Text.Lines(input)).value)
  {
    var actions :- ParseMoves(Text.Lines(input));
    Ok(TailVisits(Position(0, 0), 2, actions))
  }

  /** Part B: a 10-knot rope starting at (11, 5). */
  function AnswerB(input: string): (r: Result<nat, ParseError>)
    ensures r.Ok? ==> ParseMoves(Text.Lines(input)).Ok? && r.value <= TotalSteps(ParseMoves(Text.Lines(input)).value)
  {
    var actions :- ParseMoves(Text.Lines(input));
    Ok(TailVisits(Position(11, 5), 10, actions))
  }
}
