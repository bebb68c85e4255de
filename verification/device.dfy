/** The day-10 handheld CPU: a single register `x`, a read-only program
    of `noop` / `addx` instructions, and a clock.

    `RunCycle` is one clock tick. It loads the next instruction when the
    previous one has completed, reports the value `x` holds DURING the
    tick, and only then lets the instruction take effect; `addx` takes
    two ticks and changes `x` at the end of its second one.

    The source keeps `x` and the per-instruction tick count in `i32` and
    the clock in `u32`; here they are unbounded integers. */
module Cpu {
  import opened Wrappers
  import Text

  datatype Instruction = Noop | Addx(value: int)

  datatype Device = Device(
    x: int,
    rom: seq<Instruction>,
    ip: nat,              // index of the next instruction to load
    cycle: nat,           // ticks executed so far
    count: int,           // ticks spent on the current instruction
    current: Instruction,
    done: bool)           // the current instruction has completed

  /** Ticks an instruction takes. */
  function Cost(i: Instruction): (n: nat)
    ensures 1 <= n <= 2
  {
    match i
    case Noop => 1
    case Addx(_) => 2
  }

  /** Ticks a whole program takes: one per `noop`, two per `addx`. */
  function TotalCost(rom: seq<Instruction>): nat
  {
    if rom == [] then 0 else Cost(rom[0]) + TotalCost(rom[1..])
  }

  /** Sum of the `addx` operands of a program. */
  function AddxSum(rom: seq<Instruction>): int
  {
    if rom == [] then 0
    else (match rom[0] case Noop => 0 case Addx(v) => v) + AddxSum(rom[1..])
  }

  /** States the machine can be in: the pointer never passes the end of
      the program, and an instruction still running is the one loaded
      last and has ticks left. */
  predicate Valid(d: Device) {
    d.ip <= |d.rom| &&
    (!d.done ==> 0 < d.ip && d.current == d.rom[d.ip - 1] && 0 <= d.count < Cost(d.current))
  }

  /** Every instruction has been loaded and has completed. */
  predicate Finished(d: Device) {
    d.ip >= |d.rom| && d.done
  }

  function New(rom: seq<Instruction>): (d: Device)
    ensures d.x == 1 && d.cycle == 0 && d.ip == 0 && d.done && d.rom == rom
    ensures Valid(d)
    ensures Finished(d) <==> rom == []
  {
    Device(1, rom, 0, 0, 0, Noop, true)
  }

  /** Fetches the next instruction, but only once the current one has
      completed and while the program has instructions left. */
  function LoadNext(d: Device): (r: Device)
    ensures d.done && d.ip < |d.rom| ==>
      r == d.(current := d.rom[d.ip], done := false, count := 0, ip := d.ip + 1)
    ensures !(d.done && d.ip < |d.rom|) ==> r == d
    ensures Valid(d) ==> r.ip <= |r.rom|
  {
    if d.done && d.ip < |d.rom| then
      d.(current := d.rom[d.ip], done := false, count := 0, ip := d.ip + 1)
    else d
  }

  /** One tick of the current instruction: `noop` completes on its first
      tick, `addx v` on its second, adding `v` to `x` then. */
  function RunInstruction(d: Device): (r: Device)
    ensures r.count == d.count + 1
    ensures r.rom == d.rom && r.ip == d.ip && r.cycle == d.cycle && r.current == d.current
    ensures r.done <==> d.done || r.count == Cost(d.current)
    ensures r.x == if d.current.Addx? && r.count == 2 then d.x + d.current.value else d.x
  {
    var d' := d.(count := d.count + 1);
    match d.current
    case Noop => if d'.count == 1 then d'.(done := true) else d'
    case Addx(v) => if d'.count == 2 then d'.(x := d.x + v, done := true) else d'
  }

  /** One clock tick: the device after it, the value of `x` during it,
      and whether the program had already finished (then nothing moves). */
  function RunCycle(d: Device): (r: (Device, (int, bool)))
    ensures Finished(d) ==> r == (d, (d.x, true))
    ensures !Finished(d) ==> r.1 == (d.x, false) && r.0.cycle == d.cycle + 1
    ensures r.0.rom == d.rom
    ensures Valid(d) ==> Valid(r.0)
  {
    if d.ip >= |d.rom| && d.done then (d, (d.x, true))
    else
      var loaded := LoadNext(d.(cycle := d.cycle + 1));
      var during := loaded.x;
      (RunInstruction(loaded), (during, false))
  }

  /** `n` successive ticks: the final device and what each tick returned. */
  function RunCycles(d: Device, n: nat): (r: (Device, seq<(int, bool)>))
    ensures |r.1| == n
    ensures r.0.rom == d.rom
    decreases n
  {
    if n == 0 then (d, [])
    else
      var tick := RunCycle(d);
      var rest := RunCycles(tick.0, n - 1);
      (rest.0, [tick.1] + rest.1)
  }

  /** What a program is meant to report, tick by tick, starting with `x`:
      a `noop` shows `x` once, an `addx v` shows `x` twice and the value
      after it is `x + v`; once the program is over, a tick reports the
      final value and that the program has finished. */
  function Expected(x: int, rom: seq<Instruction>): seq<(int, bool)>
    decreases |rom|
  {
    if rom == [] then [(x, true)]
    else match rom[0]
      case Noop => [(x, false)] + Expected(x, rom[1..])
      case Addx(v) => [(x, false), (x, false)] + Expected(x + v, rom[1..])
  }

  /** A `noop` at an instruction boundary takes one tick and leaves `x`. */
  lemma NoopTick(d: Device)
    requires Valid(d) && d.done && d.ip < |d.rom| && d.rom[d.ip] == Noop
    ensures RunCycle(d) ==
      (d.(cycle := d.cycle + 1, ip := d.ip + 1, count := 1, current := Noop), (d.x, false))
  {
  }

  /** An `addx v` at an instruction boundary takes two ticks, shows the
      old `x` during both, and has added `v` after the second. */
  lemma AddxTicks(d: Device, v: int)
    requires Valid(d) && d.done && d.ip < |d.rom| && d.rom[d.ip] == Addx(v)
    ensures var d1 := d.(cycle := d.cycle + 1, ip := d.ip + 1, count := 1, current := Addx(v), done := false);
      RunCycle(d) == (d1, (d.x, false)) &&
      RunCycle(d1) == (d1.(cycle := d.cycle + 2, count := 2, x := d.x + v, done := true), (d.x, false))
  {
  }

  /** From an instruction boundary, the device reports exactly the
      expected values, one tick per `noop` and two per `addx`. */
  lemma {:induction false} RunMatchesExpected(d: Device)
    requires Valid(d) && d.done
    ensures RunCycles(d, TotalCost(d.rom[d.ip..]) + 1).1 == Expected(d.x, d.rom[d.ip..])
    decreases |d.rom| - d.ip
  {
    if d.ip >= |d.rom| {
      FinishedReport(d);
    } else {
      match d.rom[d.ip]
      case Noop =>
        var d1 := NoopReport(d);
        RunMatchesExpected(d1);
        MatchesAfterNoop(d, d1);
      case Addx(v) =>
        var d2 := AddxReport(d, v);
        RunMatchesExpected(d2);
        MatchesAfterAddx(d, v, d2);
    }
  }

  /** Once the program is over, a tick reports the final value and that
      the program has finished. */
  lemma FinishedReport(d: Device)
    requires Valid(d) && d.done && d.ip >= |d.rom|
    ensures RunCycles(d, TotalCost(d.rom[d.ip..]) + 1).1 == Expected(d.x, d.rom[d.ip..])
  {
    assert d.rom[d.ip..] == [];
  }

  /** The boundary a `noop` leads to. */
  lemma NoopBoundary(d: Device) returns (d1: Device)
    requires Valid(d) && d.done && d.ip < |d.rom| && d.rom[d.ip] == Noop
    ensures d1 == RunCycle(d).0 && RunCycle(d).1 == (d.x, false)
    ensures Valid(d1) && d1.done && d1.x == d.x && d1.rom[d1.ip..] == d.rom[d.ip + 1..]
    ensures d1.cycle == d.cycle + 1 && d1.ip == d.ip + 1 && d1.rom == d.rom
  {
    NoopTick(d);
    d1 := RunCycle(d).0;
  }

  /** The boundary an `addx v` leads to, two ticks later. */
  lemma AddxBoundary(d: Device, v: int) returns (d2: Device)
    requires Valid(d) && d.done && d.ip < |d.rom| && d.rom[d.ip] == Addx(v)
    ensures var d1 := RunCycle(d).0;
      d2 == RunCycle(d1).0 && RunCycle(d).1 == (d.x, false) && RunCycle(d1).1 == (d.x, false)
    ensures Valid(d2) && d2.done && d2.x == d.x + v && d2.rom[d2.ip..] == d.rom[d.ip + 1..]
    ensures d2.cycle == d.cycle + 2 && d2.ip == d.ip + 1 && d2.rom == d.rom
  {
    AddxTicks(d, v);
    d2 := RunCycle(RunCycle(d).0).0;
  }

  /** The report of a `noop` boundary: the old `x` once, then the report
      of the boundary after it. */
  lemma NoopReport(d: Device) returns (d1: Device)
    requires Valid(d) && d.done && d.ip < |d.rom| && d.rom[d.ip] == Noop
    ensures Valid(d1) && d1.done && d1.x == d.x && d1.ip == d.ip + 1 && d1.rom[d1.ip..] == d.rom[d.ip + 1..]
    ensures RunCycles(d, TotalCost(d.rom[d.ip..]) + 1).1 ==
      [(d.x, false)] + RunCycles(d1, TotalCost(d1.rom[d1.ip..]) + 1).1
  {
    d1 := NoopBoundary(d);
    NoopCost(d.rom[d.ip..], d.rom[d.ip + 1..]);
    RunCyclesStep(d, TotalCost(d.rom[d.ip + 1..]) + 1, d1, (d.x, false));
  }

  /** The report of an `addx` boundary: the old `x` twice, then the
      report of the boundary after it. */
  lemma AddxReport(d: Device, v: int) returns (d2: Device)
    requires Valid(d) && d.done && d.ip < |d.rom| && d.rom[d.ip] == Addx(v)
    ensures Valid(d2) && d2.done && d2.x == d.x + v && d2.ip == d.ip + 1 && d2.rom[d2.ip..] == d.rom[d.ip + 1..]
    ensures RunCycles(d, TotalCost(d.rom[d.ip..]) + 1).1 ==
      [(d.x, false), (d.x, false)] + RunCycles(d2, TotalCost(d2.rom[d2.ip..]) + 1).1
  {
    d2 := AddxBoundary(d, v);
    AddxCost(d.rom[d.ip..], v, d.rom[d.ip + 1..]);
    TwoTicks(d, RunCycle(d).0, d2, TotalCost(d.rom[d.ip + 1..]) + 1, TotalCost(d.rom[d.ip..]) + 1, (d.x, false));
  }

  lemma RunCyclesCons(d: Device, m: nat)
    ensures RunCycles(d, m + 1).0 == RunCycles(RunCycle(d).0, m).0
    ensures RunCycles(d, m + 1).1 == [RunCycle(d).1] + RunCycles(RunCycle(d).0, m).1
  {
  }

  /** The expected report of a `noop` boundary, given the tick it shows
      and the report of the boundary after it. */
  lemma MatchesAfterNoop(d: Device, d1: Device)
    requires d.ip < |d.rom| && d.rom[d.ip] == Noop
    requires d1.x == d.x && d1.ip <= |d1.rom| && d1.rom[d1.ip..] == d.rom[d.ip + 1..]
    requires RunCycles(d, TotalCost(d.rom[d.ip..]) + 1).1 ==
      [(d.x, false)] + RunCycles(d1, TotalCost(d1.rom[d1.ip..]) + 1).1
    requires RunCycles(d1, TotalCost(d1.rom[d1.ip..]) + 1).1 == Expected(d1.x, d1.rom[d1.ip..])
    ensures RunCycles(d, TotalCost(d.rom[d.ip..]) + 1).1 == Expected(d.x, d.rom[d.ip..])
  {
    ExpectedNoop(d.x, d.rom[d.ip..], d1.rom[d1.ip..]);
  }

  /** The expected report of an `addx` boundary, given the two ticks it
      shows and the report of the boundary after it. */
  lemma MatchesAfterAddx(d: Device, v: int, d2: Device)
    requires d.ip < |d.rom| && d.rom[d.ip] == Addx(v)
    requires d2.x == d.x + v && d2.ip <= |d2.rom| && d2.rom[d2.ip..] == d.rom[d.ip + 1..]
    requires RunCycles(d, TotalCost(d.rom[d.ip..]) + 1).1 ==
      [(d.x, false), (d.x, false)] + RunCycles(d2, TotalCost(d2.rom[d2.ip..]) + 1).1
    requires RunCycles(d2, TotalCost(d2.rom[d2.ip..]) + 1).1 == Expected(d2.x, d2.rom[d2.ip..])
    ensures RunCycles(d, TotalCost(d.rom[d.ip..]) + 1).1 == Expected(d.x, d.rom[d.ip..])
  {
    ExpectedAddx(d.x, d.rom[d.ip..], v, d2.x, d2.rom[d2.ip..]);
  }

  lemma NoopCost(rom: seq<Instruction>, tailRom: seq<Instruction>)
    requires rom != [] && rom[0] == Noop && rom[1..] == tailRom
    ensures TotalCost(rom) == TotalCost(tailRom) + 1
  {
  }

  lemma ExpectedNoop(x: int, rom: seq<Instruction>, tailRom: seq<Instruction>)
    requires rom != [] && rom[0] == Noop && rom[1..] == tailRom
    ensures Expected(x, rom) == [(x, false)] + Expected(x, tailRom)
  {
  }

  lemma AddxCost(rom: seq<Instruction>, v: int, tailRom: seq<Instruction>)
    requires rom != [] && rom[0] == Addx(v) && rom[1..] == tailRom
    ensures TotalCost(rom) == TotalCost(tailRom) + 2
  {
  }

  /** Two ticks that show the same value. */
  lemma TwoTicks(d: Device, d1: Device, d2: Device, m: nat, k: nat, shown: (int, bool))
    requires RunCycle(d) == (d1, shown) && RunCycle(d1) == (d2, shown) && k == m + 2
    ensures RunCycles(d, k).1 == [shown, shown] + RunCycles(d2, m).1
  {
    RunCyclesStep(d1, m, d2, shown);
    RunCyclesStep(d, m + 1, d1, shown);
    ConsTwo(shown, RunCycles(d2, m).1);
  }

  lemma RunCyclesStep(d: Device, m: nat, next: Device, shown: (int, bool))
    requires RunCycle(d) == (next, shown)
    ensures RunCycles(d, m + 1).1 == [shown] + RunCycles(next, m).1
  {
  }

  lemma ExpectedAddx(x: int, rom: seq<Instruction>, v: int, x2: int, tailRom: seq<Instruction>)
    requires rom != [] && rom[0] == Addx(v) && rom[1..] == tailRom && x2 == x + v
    ensures Expected(x, rom) == [(x, false), (x, false)] + Expected(x2, tailRom)
  {
  }

  lemma ConsTwo<T>(a: T, tail: seq<T>)
    ensures [a] + ([a] + tail) == [a, a] + tail
  {
  }

  /** From an instruction boundary, the program's ticks leave the device
      finished, with every `addx` applied and the clock advanced by them. */
  lemma {:induction false} RunEndsFinished(d: Device)
    requires Valid(d) && d.done
    ensures var last := RunCycles(d, TotalCost(d.rom[d.ip..])).0;
      Finished(last) && last.x == d.x + AddxSum(d.rom[d.ip..]) &&
      last.cycle == d.cycle + TotalCost(d.rom[d.ip..])
    decreases |d.rom| - d.ip
  {
    if d.ip >= |d.rom| {
      assert Finished(d);
    } else {
      match d.rom[d.ip]
      case Noop =>
        var d1 := NoopBoundary(d);
        RunEndsFinished(d1);
        EndsAfter(d, d1, 1);
      case Addx(v) =>
        var d2 := AddxBoundary(d, v);
        RunEndsFinished(d2);
        RunCyclesCons(d, 1);
        EndsAfter(d, d2, 2);
    }
  }

  /** The rest of the run from the boundary `next`, `k` ticks after `d`. */
  lemma EndsAfter(d: Device, next: Device, k: nat)
    requires d.ip < |d.rom| && next.rom == d.rom && next.ip == d.ip + 1
    requires k == Cost(d.rom[d.ip]) && next == RunCycles(d, k).0
    requires next.x == d.x + AddxSum([d.rom[d.ip]]) && next.cycle == d.cycle + k
    requires var last := RunCycles(next, TotalCost(d.rom[d.ip + 1..])).0;
      Finished(last) && last.x == next.x + AddxSum(d.rom[d.ip + 1..]) &&
      last.cycle == next.cycle + TotalCost(d.rom[d.ip + 1..])
    ensures var last := RunCycles(d, TotalCost(d.rom[d.ip..])).0;
      Finished(last) && last.x == d.x + AddxSum(d.rom[d.ip..]) &&
      last.cycle == d.cycle + TotalCost(d.rom[d.ip..])
  {
    var rest := d.rom[d.ip..];
    FirstInstruction(rest, d.rom[d.ip + 1..]);
    RunCyclesSplit(d, k, TotalCost(d.rom[d.ip + 1..]), TotalCost(rest));
  }

  /** Cost and `addx` sum of a program split after its first instruction. */
  lemma FirstInstruction(rom: seq<Instruction>, tailRom: seq<Instruction>)
    requires rom != [] && rom[1..] == tailRom
    ensures TotalCost(rom) == Cost(rom[0]) + TotalCost(tailRom)
    ensures AddxSum(rom) == AddxSum([rom[0]]) + AddxSum(tailRom)
  {
    assert [rom[0]][1..] == [];
  }

  /** `k + n` ticks are `k` ticks followed by `n`. */
  lemma {:induction false} RunCyclesSplit(d: Device, k: nat, n: nat, total: nat)
    requires total == k + n
    ensures RunCycles(d, total).0 == RunCycles(RunCycles(d, k).0, n).0
    decreases k
  {
    if k > 0 {
      var d1 := RunCycle(d).0;
      RunCyclesCons(d, total - 1);
      RunCyclesCons(d, k - 1);
      RunCyclesSplit(d1, k - 1, n, total - 1);
    }
  }

  /** A whole program from power-on: `#noop + 2 * #addx` ticks, after
      which `x` is 1 plus the sum of the `addx` operands. */
  lemma FullRun(rom: seq<Instruction>)
    ensures RunCycles(New(rom), TotalCost(rom) + 1).1 == Expected(1, rom)
    ensures var last := RunCycles(New(rom), TotalCost(rom)).0;
      Finished(last) && last.x == 1 + AddxSum(rom) && last.cycle == TotalCost(rom)
  {
    assert New(rom).rom[0..] == rom;
    RunMatchesExpected(New(rom));
    RunEndsFinished(New(rom));
  }

  /** The five-instruction program of the unit test. */
  const MiniRom: seq<Instruction> := [Noop, Addx(3), Addx(-5), Noop, Addx(1)]

  /** Its first nine ticks report 1, 1, 1, 4, 4, -1, -1, -1, 0; the ninth
      is the first after the program has finished. */
  lemma MiniTrace()
    ensures RunCycles(New(MiniRom), 9).1 ==
      [(1, false), (1, false), (1, false), (4, false), (4, false), (-1, false), (-1, false), (-1, false), (0, true)]
  {
    FullRun(MiniRom);
    MiniCost();
    MiniExpected();
  }

  lemma MiniCost()
    ensures TotalCost(MiniRom) == 8
  {
    assert TotalCost(MiniRom[4..]) == 2;
    assert TotalCost(MiniRom[3..]) == 3;
    assert TotalCost(MiniRom[2..]) == 5;
    assert TotalCost(MiniRom[1..]) == 7;
  }

  lemma MiniExpected()
    ensures Expected(1, MiniRom) == [(1, false), (1, false), (1, false), (4, false), (4, false), (-1, false), (-1, false), (-1, false), (0, true)]
  {
    assert Expected(0, MiniRom[5..]) == [(0, true)];
    assert Expected(-1, MiniRom[4..]) == [(-1, false), (-1, false), (0, true)];
    assert Expected(-1, MiniRom[3..]) == [(-1, false), (-1, false), (-1, false), (0, true)];
    assert Expected(4, MiniRom[2..]) == [(4, false), (4, false), (-1, false), (-1, false), (-1, false), (0, true)];
    assert Expected(1, MiniRom[1..]) == [(1, false), (1, false), (4, false), (4, false), (-1, false), (-1, false), (-1, false), (0, true)];
  }

  // ---------------------------------------------------------------------
  // Parsing
  // ---------------------------------------------------------------------

  datatype ParseError = MissingOperand | InvalidOperand | UnknownInstruction

  /** A line is split at single spaces; `noop` ignores any further
      fields, `addx` needs an `i32` operand as its second field. */
  function ParseLine(line: string): (r: Result<Instruction, ParseError>)
    ensures r == Ok(Noop) <==> Text.Split(line, " ")[0] == "noop"
    ensures r.Ok? && r.value.Addx? ==>
      var fields := Text.Split(line, " ");
      fields[0] == "addx" && |fields| >= 2 && Text.ParseI32(fields[1]) == Some(r.value.value)
    ensures r.Err? <==> (var fields := Text.Split(line, " ");
      fields[0] != "noop" && (fields[0] != "addx" || |fields| < 2 || Text.ParseI32(fields[1]).None?))
  {
    var fields := Text.Split(line, " ");
    if fields[0] == "noop" then Ok(Noop)
    else if fields[0] == "addx" then
      if |fields| < 2 then Err(MissingOperand)
      else
        var v :- OkOr(Text.ParseI32(fields[1]), InvalidOperand);
        Ok(Addx(v))
    else Err(UnknownInstruction)
  }

  function FormatInstruction(i: Instruction): string
  {
    match i
    case Noop => "noop"
    case Addx(v) => "addx " + Text.IntToString(v)
  }

  lemma ParseFormatInstruction(i: Instruction)
    requires i.Addx? ==> Text.I32_MIN <= i.value <= Text.I32_MAX
    ensures ParseLine(FormatInstruction(i)) == Ok(i)
  {
    match i
    case Noop => ParseNoop();
    case Addx(v) => ParseAddx(v);
  }

  lemma ParseNoop()
    ensures ParseLine("noop") == Ok(Noop)
  {
    Text.FreeOfChar("noop", ' ');
    Text.SplitWhole("noop", " ");
  }

  lemma ParseAddx(v: int)
    requires Text.I32_MIN <= v <= Text.I32_MAX
    ensures ParseLine("addx " + Text.IntToString(v)) == Ok(Addx(v))
  {
    var operand := Text.IntToString(v);
    Text.SplitFirstChar("addx", ' ', operand);
    assert "addx " + operand == "addx" + [' '] + operand;
    var fields := Text.Split("addx " + operand, " ");
    assert fields[0] == "addx" && fields[1] == Text.Split(operand, " ")[0];
    Text.ParseIntToString(v, true, Text.I32_MIN, Text.I32_MAX);
    Text.FreeOfChar(operand, ' ');
    Text.SplitWhole(operand, " ");
  }

  function ParseProgram(input: string): (r: Result<seq<Instruction>, ParseError>)
    ensures r.Ok? ==> |r.value| == |Text.Lines(input)|
    ensures r.Ok? ==> forall i :: 0 <= i < |r.value| ==> ParseLine(Text.Lines(input)[i]) == Ok(r.value[i])
  {
    TryMap(Text.Lines(input), ParseLine)
  }
}
