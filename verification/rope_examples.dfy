/** The worked example of the day-9 puzzle, followed one unit step at a
    time: a two-knot rope from the origin leaves its tail on 13 cells.

    Each `SampleA<k>` is the rope and the tail's visited set after a
    stretch of unit steps; each `...Steps` lemma checks one stretch and
    each `...Action<k>` lemma one whole motion of the log. */
module RopeExamples {
  import opened Wrappers
  import Text
  import opened Rope

  /** Running a log is running its first motion, then the rest. */
  lemma RunActionsStep(run: Run, actions: seq<Action>, next: Run)
    requires |run.knots| > 0 && actions != []
    requires Repeat(run, actions[0].dir, actions[0].units) == next
    ensures RunActions(run, actions) == RunActions(next, actions[1..])
  {
  }

  /** The eight motions of the example log. */
  const SampleAMoves: seq<Action> := [Action(R, 4), Action(U, 4), Action(L, 3), Action(D, 1), Action(R, 4), Action(D, 1), Action(L, 5), Action(R, 2)]

  const SampleA0 := Run([Position(0, 0), Position(0, 0)],
    {})

  const SampleA1 := Run([Position(4, 0), Position(3, 0)],
    {Position(0, 0), Position(1, 0), Position(2, 0), Position(3, 0)})

  const SampleA2 := Run([Position(4, 4), Position(4, 3)],
    {Position(0, 0), Position(1, 0), Position(2, 0), Position(3, 0), Position(4, 1), Position(4, 2), Position(4, 3)})

  const SampleA3 := Run([Position(1, 4), Position(2, 4)],
    {Position(0, 0), Position(1, 0), Position(2, 0), Position(2, 4), Position(3, 0), Position(3, 4), Position(4, 1), Position(4, 2), Position(4, 3)})

  const SampleA4 := Run([Position(1, 3), Position(2, 4)],
    {Position(0, 0), Position(1, 0), Position(2, 0), Position(2, 4), Position(3, 0), Position(3, 4), Position(4, 1), Position(4, 2), Position(4, 3)})

  const SampleA5 := Run([Position(5, 3), Position(4, 3)],
    {Position(0, 0), Position(1, 0), Position(2, 0), Position(2, 4), Position(3, 0), Position(3, 3), Position(3, 4), Position(4, 1), Position(4, 2), Position(4, 3)})

  const SampleA6 := Run([Position(5, 2), Position(4, 3)],
    {Position(0, 0), Position(1, 0), Position(2, 0), Position(2, 4), Position(3, 0), Position(3, 3), Position(3, 4), Position(4, 1), Position(4, 2), Position(4, 3)})

  const SampleA7 := Run([Position(1, 2), Position(2, 2)],
    {Position(0, 0), Position(1, 0), Position(2, 0), Position(2, 2), Position(2, 4), Position(3, 0), Position(3, 2), Position(3, 3), Position(3, 4), Position(4, 1), Position(4, 2), Position(4, 3)})

  const SampleA8 := Run([Position(0, 2), Position(1, 2)],
    {Position(0, 0), Position(1, 0), Position(1, 2), Position(2, 0), Position(2, 2), Position(2, 4), Position(3, 0), Position(3, 2), Position(3, 3), Position(3, 4), Position(4, 1), Position(4, 2), Position(4, 3)})

  const SampleA9 := Run([Position(2, 2), Position(1, 2)],
    {Position(0, 0), Position(1, 0), Position(1, 2), Position(2, 0), Position(2, 2), Position(2, 4), Position(3, 0), Position(3, 2), Position(3, 3), Position(3, 4), Position(4, 1), Position(4, 2), Position(4, 3)})

  lemma SampleA1Steps()
    ensures Repeat(SampleA0, R, 4) == Repeat(SampleA1, R, 0)
  {
    var r0 := SampleA0;
    var r1 := Step(r0, R);
    assert r1.knots == [Position(1, 0), Position(0, 0)];
    var r2 := Step(r1, R);
    assert r2.knots == [Position(2, 0), Position(1, 0)];
    var r3 := Step(r2, R);
    assert r3.knots == [Position(3, 0), Position(2, 0)];
    var r4 := Step(r3, R);
    assert r4.knots == [Position(4, 0), Position(3, 0)];
  }

  lemma SampleA2Steps()
    ensures Repeat(SampleA1, U, 4) == Repeat(SampleA2, U, 0)
  {
    var r0 := SampleA1;
    var r1 := Step(r0, U);
    assert r1.knots == [Position(4, 1), Position(3, 0)];
    var r2 := Step(r1, U);
    assert r2.knots == [Position(4, 2), Position(4, 1)];
    var r3 := Step(r2, U);
    assert r3.knots == [Position(4, 3), Position(4, 2)];
    var r4 := Step(r3, U);
    assert r4.knots == [Position(4, 4), Position(4, 3)];
  }

  lemma SampleA3Steps()
    ensures Repeat(SampleA2, L, 3) == Repeat(SampleA3, L, 0)
  {
    var r0 := SampleA2;
    var r1 := Step(r0, L);
    assert r1.knots == [Position(3, 4), Position(4, 3)];
    var r2 := Step(r1, L);
    assert r2.knots == [Position(2, 4), Position(3, 4)];
    var r3 := Step(r2, L);
    assert r3.knots == [Position(1, 4), Position(2, 4)];
  }

  lemma SampleA4Steps()
    ensures Repeat(SampleA3, D, 1) == Repeat(SampleA4, D, 0)
  {
    var r0 := SampleA3;
    var r1 := Step(r0, D);
    assert r1.knots == [Position(1, 3), Position(2, 4)];
  }

  lemma SampleA5Steps()
    ensures Repeat(SampleA4, R, 4) == Repeat(SampleA5, R, 0)
  {
    var r0 := SampleA4;
    var r1 := Step(r0, R);
    assert r1.knots == [Position(2, 3), Position(2, 4)];
    var r2 := Step(r1, R);
    assert r2.knots == [Position(3, 3), Position(2, 4)];
    var r3 := Step(r2, R);
    assert r3.knots == [Position(4, 3), Position(3, 3)];
    var r4 := Step(r3, R);
    assert r4.knots == [Position(5, 3), Position(4, 3)];
  }

  lemma SampleA6Steps()
    ensures Repeat(SampleA5, D, 1) == Repeat(SampleA6, D, 0)
  {
    var r0 := SampleA5;
    var r1 := Step(r0, D);
    assert r1.knots == [Position(5, 2), Position(4, 3)];
  }

  /** Halfway through the `L 5` motion: the tail has not moved yet. */
  const SampleA6Half := Run([Position(3, 2), Position(4, 3)], SampleA6.visited)

  lemma SampleA6HalfSteps()
    ensures Repeat(SampleA6, L, 5) == Repeat(SampleA6Half, L, 3)
  {
    var r0 := SampleA6;
    var r1 := Step(r0, L);
    assert r1.knots == [Position(4, 2), Position(4, 3)];
    var r2 := Step(r1, L);
    assert r2.knots == [Position(3, 2), Position(4, 3)];
  }

  lemma SampleA7Steps()
    ensures Repeat(SampleA6Half, L, 3) == Repeat(SampleA7, L, 1)
  {
    var r2 := SampleA6Half;
    var r3 := Step(r2, L);
    assert r3.knots == [Position(2, 2), Position(3, 2)];
    var r4 := Step(r3, L);
    assert r4.knots == [Position(1, 2), Position(2, 2)];
  }

  lemma SampleA8Steps()
    ensures Repeat(SampleA7, L, 1) == Repeat(SampleA8, L, 0)
  {
    var r0 := SampleA7;
    var r1 := Step(r0, L);
    assert r1.knots == [Position(0, 2), Position(1, 2)];
  }

  lemma SampleA9Steps()
    ensures Repeat(SampleA8, R, 2) == Repeat(SampleA9, R, 0)
  {
    var r0 := SampleA8;
    var r1 := Step(r0, R);
    assert r1.knots == [Position(1, 2), Position(1, 2)];
    var r2 := Step(r1, R);
    assert r2.knots == [Position(2, 2), Position(1, 2)];
  }

  lemma SampleAAction0()
    ensures RunActions(SampleA0, [Action(R, 4), Action(U, 4), Action(L, 3), Action(D, 1), Action(R, 4), Action(D, 1), Action(L, 5), Action(R, 2)]) == RunActions(SampleA1, [Action(U, 4), Action(L, 3), Action(D, 1), Action(R, 4), Action(D, 1), Action(L, 5), Action(R, 2)])
  {
    SampleA1Steps();
    RunActionsStep(SampleA0, [Action(R, 4), Action(U, 4), Action(L, 3), Action(D, 1), Action(R, 4), Action(D, 1), Action(L, 5), Action(R, 2)], SampleA1);
  }

  lemma SampleAAction1()
    ensures RunActions(SampleA1, [Action(U, 4), Action(L, 3), Action(D, 1), Action(R, 4), Action(D, 1), Action(L, 5), Action(R, 2)]) == RunActions(SampleA2, [Action(L, 3), Action(D, 1), Action(R, 4), Action(D, 1), Action(L, 5), Action(R, 2)])
  {
    SampleA2Steps();
    RunActionsStep(SampleA1, [Action(U, 4), Action(L, 3), Action(D, 1), Action(R, 4), Action(D, 1), Action(L, 5), Action(R, 2)], SampleA2);
  }

  lemma SampleAAction2()
    ensures RunActions(SampleA2, [Action(L, 3), Action(D, 1), Action(R, 4), Action(D, 1), Action(L, 5), Action(R, 2)]) == RunActions(SampleA3, [Action(D, 1), Action(R, 4), Action(D, 1), Action(L, 5), Action(R, 2)])
  {
    SampleA3Steps();
    RunActionsStep(SampleA2, [Action(L, 3), Action(D, 1), Action(R, 4), Action(D, 1), Action(L, 5), Action(R, 2)], SampleA3);
  }

  lemma SampleAAction3()
    ensures RunActions(SampleA3, [Action(D, 1), Action(R, 4), Action(D, 1), Action(L, 5), Action(R, 2)]) == RunActions(SampleA4, [Action(R, 4), Action(D, 1), Action(L, 5), Action(R, 2)])
  {
    SampleA4Steps();
    RunActionsStep(SampleA3, [Action(D, 1), Action(R, 4), Action(D, 1), Action(L, 5), Action(R, 2)], SampleA4);
  }

  lemma SampleAAction4()
    ensures RunActions(SampleA4, [Action(R, 4), Action(D, 1), Action(L, 5), Action(R, 2)]) == RunActions(SampleA5, [Action(D, 1), Action(L, 5), Action(R, 2)])
  {
    SampleA5Steps();
    RunActionsStep(SampleA4, [Action(R, 4), Action(D, 1), Action(L, 5), Action(R, 2)], SampleA5);
  }

  lemma SampleAAction5()
    ensures RunActions(SampleA5, [Action(D, 1), Action(L, 5), Action(R, 2)]) == RunActions(SampleA6, [Action(L, 5), Action(R, 2)])
  {
    SampleA6Steps();
    RunActionsStep(SampleA5, [Action(D, 1), Action(L, 5), Action(R, 2)], SampleA6);
  }

  lemma SampleAAction6()
    ensures RunActions(SampleA6, [Action(L, 5), Action(R, 2)]) == RunActions(SampleA8, [Action(R, 2)])
  {
    SampleA6HalfSteps();
    SampleA7Steps();
    SampleA8Steps();
    RunActionsStep(SampleA6, [Action(L, 5), Action(R, 2)], SampleA8);
  }

  lemma SampleAAction7()
    ensures RunActions(SampleA8, [Action(R, 2)]) == RunActions(SampleA9, [])
  {
    SampleA9Steps();
    RunActionsStep(SampleA8, [Action(R, 2)], SampleA9);
  }

  lemma SampleARun()
    ensures RunActions(SampleA0, SampleAMoves) == SampleA9
  {
    SampleAAction0();
    SampleAAction1();
    SampleAAction2();
    SampleAAction3();
    SampleAAction4();
    SampleAAction5();
    SampleAAction6();
    SampleAAction7();
  }

  lemma SampleAVisitedCount()
    ensures |SampleA9.visited| == 13
  {
  }

  lemma SampleATailVisits()
    ensures TailVisits(Position(0, 0), 2, SampleAMoves) == 13
  {
    assert NewLongRope(Position(0, 0), 2).knots == SampleA0.knots;
    SampleARun();
    SampleAVisitedCount();
  }

  /** The example log as text, one motion per line. */
  const SampleALines: seq<string> := ["R 4", "U 4", "L 3", "D 1", "R 4", "D 1", "L 5", "R 2"]

  /** A motion of one to nine units is written with a single digit. */
  lemma FormatShortAction(a: Action)
    requires 0 < a.units < 10
    ensures FormatAction(a) == [Letter(a.dir), ' ', '0' + a.units as char]
  {
  }

  lemma SampleALinesFormat()
    ensures SampleALines == seq(|SampleAMoves|, i requires 0 <= i < |SampleAMoves| => FormatAction(SampleAMoves[i]))
  {
    forall i | 0 <= i < |SampleAMoves|
      ensures FormatAction(SampleAMoves[i]) == SampleALines[i]
    {
      FormatShortAction(SampleAMoves[i]);
    }
  }

  lemma SampleALinesJoin()
    ensures Text.Lines(Text.Join(SampleALines, "\n")) == SampleALines
  {
    assert forall i :: 0 <= i < |SampleALines| ==> Text.PlainLine(SampleALines[i]);
    Text.LinesJoin(SampleALines);
  }

  lemma SampleALinesParse()
    ensures ParseMoves(SampleALines) == Ok(SampleAMoves)
  {
    SampleALinesFormat();
    ParseFormatMoves(SampleAMoves);
  }

  lemma SampleAParse()
    ensures ParseMoves(Text.Lines(Text.Join(SampleALines, "\n"))) == Ok(SampleAMoves)
  {
    SampleALinesJoin();
    SampleALinesParse();
  }

  /** Part A on the example text is 13. */
  lemma SampleAAnswer()
    ensures AnswerA(Text.Join(SampleALines, "\n")) == Ok(13)
  {
    SampleAParse();
    SampleATailVisits();
  }
}
