/** The day-11 monkeys: each holds a queue of worry levels, inspects
    them in order (applying its operation, then dividing by 3 when the
    monkey gets bored), and throws each item to one of two monkeys
    according to a divisibility test.

    Worry levels, ids and targets are `i32` in the source and the
    inspection counter is `u32`; they are unbounded here, so the
    overflow `old * old` can cause in the source is not modelled. */
module Monkeys {
  import opened Wrappers
  import Text

  /** What a malformed description yields. The first four are the
      source's error kinds; `MissingLine` is the panic raised when a
      description has fewer than six lines. */
  datatype ParsingError = Id | StartingItems | Operation | Test | MissingLine

  // ---------------------------------------------------------------------
  // The divisibility test
  // ---------------------------------------------------------------------

  datatype MonkeyTest = MonkeyTest(divider: int, ifTrue: int, ifFalse: int)

  /** Whether the test passes and the monkey the item goes to. Rust's
      truncating `%` and Dafny's Euclidean `%` agree on whether the
      remainder is zero; a zero divider makes the source panic. */
  function Evaluate(test: MonkeyTest, worry: int): (r: (bool, int))
    requires test.divider != 0
    ensures r.0 <==> worry % test.divider == 0
    ensures r.1 == if r.0 then test.ifTrue else test.ifFalse
  {
    if worry % test.divider == 0 then (true, test.ifTrue) else (false, test.ifFalse)
  }

  /** Multiples of the divider go to `ifTrue`, everything else to
      `ifFalse`. */
  lemma EvaluateMultiples(test: MonkeyTest, k: int, rest: int)
    requires test.divider != 0
    requires 0 <= rest < Abs(test.divider)
    ensures Evaluate(test, k * test.divider + rest) == if rest == 0 then (true, test.ifTrue) else (false, test.ifFalse)
  {
    ModUnique(k * test.divider + rest, test.divider, k, rest);
  }

  function Abs(a: int): nat {
    if a < 0 then -a else a
  }

  /** The remainder is the one `r` with `w == q * d + r` and `0 <= r < |d|`. */
  lemma ModUnique(w: int, d: int, q: int, r: int)
    requires d != 0 && w == q * d + r && 0 <= r < Abs(d)
    ensures w % d == r
  {
    var q', r' := w / d, w % d;
    assert w == q' * d + r';
    assert (q - q') * d == r' - r;
    if q != q' {
      MulAtLeast(q - q', d);
    }
  }

  /** A non-zero multiple of `d` is at least `|d|` away from zero. */
  lemma MulAtLeast(a: int, d: int)
    requires a != 0
    ensures Abs(a * d) >= Abs(d)
    decreases Abs(a)
  {
    if a > 1 {
      MulAtLeast(a - 1, d);
      assert a * d == (a - 1) * d + d;
    } else if a < -1 {
      MulAtLeast(a + 1, d);
      assert a * d == (a + 1) * d - d;
    }
  }

  // ---------------------------------------------------------------------
  // The operation
  // ---------------------------------------------------------------------

  datatype Operator = Add | Multiply

  datatype Var = Old | Const(value: int)

  datatype MonkeyOperation = MonkeyOperation(var1: Var, operator: Operator, var2: Var)

  function VarValue(v: Var, level: int): (r: int)
    ensures v.Old? ==> r == level
    ensures v.Const? ==> r == v.value
  {
    match v
    case Old => level
    case Const(c) => c
  }

  /** The new worry level: the two operands, each `old` or a constant,
      added or multiplied. The source's `i32` arithmetic would overflow
      where this one grows without bound. */
  function EvaluateOperation(op: MonkeyOperation, level: int): (r: int)
    ensures op.operator == Add ==> r == VarValue(op.var1, level) + VarValue(op.var2, level)
    ensures op.operator == Multiply ==> r == VarValue(op.var1, level) * VarValue(op.var2, level)
  {
    match op.operator
    case Add => VarValue(op.var1, level) + VarValue(op.var2, level)
    case Multiply => VarValue(op.var1, level) * VarValue(op.var2, level)
  }

  /** Both operators commute, so swapping the operands changes nothing;
      `old * old` squares and `old + old` doubles. */
  lemma EvaluateSymmetric(op: MonkeyOperation, level: int)
    ensures EvaluateOperation(MonkeyOperation(op.var2, op.operator, op.var1), level) == EvaluateOperation(op, level)
    ensures op == MonkeyOperation(Old, Multiply, Old) ==> EvaluateOperation(op, level) == level * level
    ensures op == MonkeyOperation(Old, Add, Old) ==> EvaluateOperation(op, level) == 2 * level
    ensures op.var1.Const? && op.var2.Const? ==> EvaluateOperation(op, level) == EvaluateOperation(op, 0)
  {
  }

  function ParseVar(s: string): (r: Result<Var, ParsingError>)
    ensures r == Ok(Old) <==> s == "old"
    ensures r.Ok? && r.value.Const? <==> s != "old" && Text.ParseI32(s).Some?
    ensures r.Ok? && r.value.Const? ==> Text.ParseI32(s) == Some(r.value.value)
    ensures r.Err? ==> r.error == Operation
  {
    if s == "old" then Ok(Old)
    else
      var v :- OkOr(Text.ParseI32(s), Operation);
      Ok(Const(v))
  }

  function ParseOperator(s: string): (r: Result<Operator, ParsingError>)
    ensures r == Ok(Add) <==> s == "+"
    ensures r == Ok(Multiply) <==> s == "*"
    ensures r.Err? <==> s != "+" && s != "*"
    ensures r.Err? ==> r.error == Operation
  {
    if s == "+" then Ok(Add)
    else if s == "*" then Ok(Multiply)
    else Err(Operation)
  }

  const OperationPrefix := "Operation: new ="

  /** An operation line: after the prefix, exactly three words, the
      first operand, the operator and the second operand. A missing
      prefix is reported with the `StartingItems` kind, as the source
      does. */
  function ParseOperation(line: string): (r: Result<MonkeyOperation, ParsingError>)
    ensures !(OperationPrefix <= Text.Trim(line)) ==> r == Err(StartingItems)
    ensures OperationPrefix <= Text.Trim(line) && |Text.Words(Text.Trim(line)[|OperationPrefix|..])| != 3 ==> r == Err(Operation)
    ensures r.Ok? ==>
      var tokens := Text.Words(Text.Trim(line)[|OperationPrefix|..]);
      OperationPrefix <= Text.Trim(line) && |tokens| == 3 &&
      ParseVar(tokens[0]) == Ok(r.value.var1) &&
      ParseOperator(tokens[1]) == Ok(r.value.operator) &&
      ParseVar(tokens[2]) == Ok(r.value.var2)
    ensures r.Err? ==> r.error == StartingItems || r.error == Operation
  {
    var rest :- OkOr(Text.StripPrefix(Text.Trim(line), OperationPrefix), StartingItems);
    var tokens := Text.Words(rest);
    if |tokens| != 3 then Err(Operation)
    else
      var v1 :- ParseVar(tokens[0]);
      var op :- ParseOperator(tokens[1]);
      var v2 :- ParseVar(tokens[2]);
      Ok(MonkeyOperation(v1, op, v2))
  }

  function FormatVar(v: Var): (s: string)
    ensures s != [] && Text.IsWord(s)
  {
    match v
    case Old => "old"
    case Const(c) => Text.IntToString(c)
  }

  function FormatOperator(o: Operator): string {
    match o
    case Add => "+"
    case Multiply => "*"
  }

  /** The line an operation is written as. */
  function FormatOperation(op: MonkeyOperation): string {
    OperationPrefix + OperandsText(op)
  }

  predicate InI32(v: Var) {
    v.Const? ==> Text.I32_MIN <= v.value <= Text.I32_MAX
  }

  lemma ParseFormatVar(v: Var)
    requires InI32(v)
    ensures ParseVar(FormatVar(v)) == Ok(v)
  {
    if v.Const? {
      var s := Text.IntToString(v.value);
      assert s != "old" by { assert s[0] == '-' || Text.IsDigit(s[0]); }
      Text.ParseIntToString(v.value, true, Text.I32_MIN, Text.I32_MAX);
    }
  }

  /** Parsing undoes writing an operation out. */
  lemma ParseFormatOperation(op: MonkeyOperation)
    requires InI32(op.var1) && InI32(op.var2)
    ensures ParseOperation(FormatOperation(op)) == Ok(op)
  {
    var line := FormatOperation(op);
    var rest := OperandsText(op);
    TrimFormatOperation(op);
    Text.StripPrefixConcat(OperationPrefix, rest);
    WordsOperands(op);
    ParseFormatVar(op.var1);
    ParseFormatVar(op.var2);
    var o := FormatOperator(op.operator);
    ParseFormatOperator(op.operator);
    ParseOperationOf(line, rest, FormatVar(op.var1), o, FormatVar(op.var2), op);
  }

  lemma ParseFormatOperator(o: Operator)
    ensures ParseOperator(FormatOperator(o)) == Ok(o)
  {
    match o
    case Add =>
    case Multiply =>
  }

  /** Parsing an operation line, once each step is known to succeed. */
  lemma ParseOperationOf(line: string, rest: string, a: string, o: string, b: string, op: MonkeyOperation)
    requires Text.StripPrefix(Text.Trim(line), OperationPrefix) == Some(rest)
    requires Text.Words(rest) == [a, o, b]
    requires ParseVar(a) == Ok(op.var1) && ParseOperator(o) == Ok(op.operator) && ParseVar(b) == Ok(op.var2)
    ensures ParseOperation(line) == Ok(op)
  {
  }

  /** What follows the prefix of an operation line. */
  function OperandsText(op: MonkeyOperation): string {
    " " + FormatVar(op.var1) + " " + FormatOperator(op.operator) + " " + FormatVar(op.var2)
  }

  lemma TrimFormatOperation(op: MonkeyOperation)
    ensures Text.Trim(FormatOperation(op)) == FormatOperation(op)
    ensures FormatOperation(op) == OperationPrefix + OperandsText(op)
  {
    var line := FormatOperation(op);
    var b := FormatVar(op.var2);
    var rest := OperandsText(op);
    assert rest[|rest| - 1] == b[|b| - 1];
    assert line[|line| - 1] == rest[|rest| - 1];
    assert line[0] == 'O';
    Text.TrimUnpadded(line);
  }

  lemma WordsOperands(op: MonkeyOperation)
    ensures Text.Words(OperandsText(op)) == [FormatVar(op.var1), FormatOperator(op.operator), FormatVar(op.var2)]
  {
    var a, o, b := FormatVar(op.var1), FormatOperator(op.operator), FormatVar(op.var2);
    var rest := OperandsText(op);
    assert rest[1..] == a + " " + (o + " " + b);
    Text.WordsTwo(o, b);
    Text.WordsCons(a, o + " " + b);
  }

  // ---------------------------------------------------------------------
  // The other description lines
  // ---------------------------------------------------------------------

  const TestPrefix := "Test: divisible by "
  const IfTruePrefix := "If true: throw to monkey "
  const IfFalsePrefix := "If false: throw to monkey "

  /** One line of the test: trimmed, the prefix, then a trimmed `i32`. */
  function ParseTestField(line: string, prefix: string): (r: Result<int, ParsingError>)
    ensures r.Ok? <==> prefix <= Text.Trim(line) && Text.ParseI32(Text.Trim(Text.Trim(line)[|prefix|..])).Some?
    ensures r.Ok? ==> Text.ParseI32(Text.Trim(Text.Trim(line)[|prefix|..])) == Some(r.value)
    ensures r.Err? ==> r.error == Test
  {
    var rest :- OkOr(Text.StripPrefix(Text.Trim(line), prefix), Test);
    OkOr(Text.ParseI32(Text.Trim(rest)), Test)
  }

  function ParseTest(l0: string, l1: string, l2: string): (r: Result<MonkeyTest, ParsingError>)
    ensures r.Ok? <==> ParseTestField(l0, TestPrefix).Ok? && ParseTestField(l1, IfTruePrefix).Ok? && ParseTestField(l2, IfFalsePrefix).Ok?
    ensures r.Ok? ==> r.value == MonkeyTest(ParseTestField(l0, TestPrefix).value, ParseTestField(l1, IfTruePrefix).value, ParseTestField(l2, IfFalsePrefix).value)
    ensures r.Err? ==> r.error == Test
  {
    var divider :- ParseTestField(l0, TestPrefix);
    var ifTrue :- ParseTestField(l1, IfTruePrefix);
    var ifFalse :- ParseTestField(l2, IfFalsePrefix);
    Ok(MonkeyTest(divider, ifTrue, ifFalse))
  }

  /** A test line as the puzzle input writes it, indented by `indent`. */
  function FormatTestField(indent: nat, prefix: string, v: int): string {
    seq(indent, _ => ' ') + prefix + Text.IntToString(v)
  }

  lemma ParseFormatTestField(indent: nat, prefix: string, v: int)
    requires prefix != [] && !Text.IsSpace(prefix[0])
    requires Text.I32_MIN <= v <= Text.I32_MAX
    ensures ParseTestField(FormatTestField(indent, prefix, v), prefix) == Ok(v)
  {
    var digits := Text.IntToString(v);
    TrimFormatTestField(indent, prefix, v);
    assert Text.StripPrefix(prefix + digits, prefix) == Some(digits);
    Text.TrimUnpadded(digits);
    Text.ParseIntToString(v, true, Text.I32_MIN, Text.I32_MAX);
  }

  lemma TrimFormatTestField(indent: nat, prefix: string, v: int)
    requires prefix != [] && !Text.IsSpace(prefix[0])
    ensures Text.Trim(FormatTestField(indent, prefix, v)) == prefix + Text.IntToString(v)
  {
    var pad: string := seq(indent, _ => ' ');
    var digits := Text.IntToString(v);
    var body := prefix + digits;
    assert FormatTestField(indent, prefix, v) == pad + body;
    Text.TrimStartPadded(pad, body);
    assert body[|body| - 1] == digits[|digits| - 1];
    Text.TrimUnpadded(body);
  }

  /** Parsing undoes writing the three test lines out. */
  lemma ParseFormatTest(test: MonkeyTest)
    requires Text.I32_MIN <= test.divider <= Text.I32_MAX
    requires Text.I32_MIN <= test.ifTrue <= Text.I32_MAX
    requires Text.I32_MIN <= test.ifFalse <= Text.I32_MAX
    ensures ParseTest(FormatTestField(2, TestPrefix, test.divider),
                      FormatTestField(4, IfTruePrefix, test.ifTrue),
                      FormatTestField(4, IfFalsePrefix, test.ifFalse)) == Ok(test)
  {
    ParseFormatTestLines(test.divider, test.ifTrue, test.ifFalse);
  }

  lemma ParseFormatTestLines(divider: int, ifTrue: int, ifFalse: int)
    requires Text.I32_MIN <= divider <= Text.I32_MAX
    requires Text.I32_MIN <= ifTrue <= Text.I32_MAX
    requires Text.I32_MIN <= ifFalse <= Text.I32_MAX
    ensures ParseTestField(FormatTestField(2, TestPrefix, divider), TestPrefix) == Ok(divider)
    ensures ParseTestField(FormatTestField(4, IfTruePrefix, ifTrue), IfTruePrefix) == Ok(ifTrue)
    ensures ParseTestField(FormatTestField(4, IfFalsePrefix, ifFalse), IfFalsePrefix) == Ok(ifFalse)
  {
    ParseFormatDivider(divider);
    ParseFormatIfTrue(ifTrue);
    ParseFormatIfFalse(ifFalse);
  }

  lemma ParseFormatDivider(v: int)
    requires Text.I32_MIN <= v <= Text.I32_MAX
    ensures ParseTestField(FormatTestField(2, TestPrefix, v), TestPrefix) == Ok(v)
  {
    ParseFormatTestField(2, TestPrefix, v);
  }

  lemma ParseFormatIfTrue(v: int)
    requires Text.I32_MIN <= v <= Text.I32_MAX
    ensures ParseTestField(FormatTestField(4, IfTruePrefix, v), IfTruePrefix) == Ok(v)
  {
    ParseFormatTestField(4, IfTruePrefix, v);
  }

  lemma ParseFormatIfFalse(v: int)
    requires Text.I32_MIN <= v <= Text.I32_MAX
    ensures ParseTestField(FormatTestField(4, IfFalsePrefix, v), IfFalsePrefix) == Ok(v)
  {
    ParseFormatTestField(4, IfFalsePrefix, v);
  }

  /** "Monkey N:" (the colon must end the line, the rest is split into
      words): the first word must be `Monkey`, the second an `i32`. */
  function ParseIdLine(line: string): (r: Result<int, ParsingError>)
    ensures r.Ok? <==>
      |line| > 0 && line[|line| - 1] == ':' &&
      (var words := Text.Words(line[..|line| - 1]);
       |words| >= 2 && words[0] == "Monkey" && Text.ParseI32(words[1]).Some?)
    ensures r.Ok? ==> Text.ParseI32(Text.Words(line[..|line| - 1])[1]) == Some(r.value)
    ensures r.Err? ==> r.error == Id
  {
    var body :- OkOr(Text.StripSuffix(line, ":"), Id);
    var fields := Text.Words(body);
    if |fields| == 0 || fields[0] != "Monkey" then Err(Id)
    else if |fields| < 2 then Err(Id)
    else OkOr(Text.ParseI32(fields[1]), Id)
  }

  function FormatIdLine(id: int): string {
    "Monkey " + Text.IntToString(id) + ":"
  }

  lemma ParseFormatIdLine(id: int)
    requires Text.I32_MIN <= id <= Text.I32_MAX
    ensures ParseIdLine(FormatIdLine(id)) == Ok(id)
  {
    var digits := Text.IntToString(id);
    var line := FormatIdLine(id);
    assert line[..|line| - 1] == "Monkey" + " " + digits;
    Text.WordsCons("Monkey", digits);
    Text.WordsOfWord(digits);
    Text.ParseIntToString(id, true, Text.I32_MIN, Text.I32_MAX);
  }

  /** The unit test's id lines. */
  lemma IdLineExamples()
    ensures ParseIdLine("Monkey 0:") == Ok(0)
    ensures ParseIdLine("Monkey 24:") == Ok(24)
  {
    ParseFormatIdLine(0);
    assert FormatIdLine(0) == "Monkey 0:";
    ParseFormatIdLine(24);
    assert Text.IntToString(24) == "24";
    assert FormatIdLine(24) == "Monkey 24:";
  }

  const ItemsPrefix := "Starting items:"

  /** One comma-separated item: trimmed, then an `i32`. */
  function ParseItem(field: string): (r: Result<int, ParsingError>)
    ensures r.Ok? <==> Text.ParseI32(Text.Trim(field)).Some?
    ensures r.Ok? ==> Text.ParseI32(Text.Trim(field)) == Some(r.value)
    ensures r.Err? ==> r.error == StartingItems
  {
    OkOr(Text.ParseI32(Text.Trim(field)), StartingItems)
  }

  /** The items after the prefix, split at commas, in input order; an
      empty list is itself an invalid item. */
  function ParseStartingItems(line: string): (r: Result<seq<int>, ParsingError>)
    ensures r.Ok? ==> ItemsPrefix <= Text.Trim(line)
    ensures r.Ok? ==>
      var fields := Text.Split(Text.Trim(line)[|ItemsPrefix|..], ",");
      |r.value| == |fields| && forall i :: 0 <= i < |fields| ==> ParseItem(fields[i]) == Ok(r.value[i])
    ensures r.Ok? ==> |r.value| >= 1
    ensures r.Err? ==> r.error == StartingItems
  {
    var rest :- OkOr(Text.StripPrefix(Text.Trim(line), ItemsPrefix), StartingItems);
    TryMap(Text.Split(rest, ","), ParseItem)
  }

  /** "Starting items: a, b, c", indented by two spaces. */
  function FormatStartingItems(items: seq<int>): string {
    "  " + (ItemsPrefix + Text.Join(ItemFields(items), ","))
  }

  function ItemFields(items: seq<int>): (fields: seq<string>)
    ensures |fields| == |items|
    ensures forall i :: 0 <= i < |items| ==> fields[i] == " " + Text.IntToString(items[i])
  {
    seq(|items|, i requires 0 <= i < |items| => " " + Text.IntToString(items[i]))
  }

  /** Parsing undoes writing a non-empty item list out. */
  lemma ParseFormatStartingItems(items: seq<int>)
    requires |items| >= 1
    requires forall i :: 0 <= i < |items| ==> Text.I32_MIN <= items[i] <= Text.I32_MAX
    ensures ParseStartingItems(FormatStartingItems(items)) == Ok(items)
  {
    var fields := ItemFields(items);
    var joined := Text.Join(fields, ",");
    TrimFormatStartingItems(items);
    Text.StripPrefixConcat(ItemsPrefix, joined);
    Text.SplitJoinChar(fields, ',');
    ParseItemFields(items);
  }

  lemma TrimFormatStartingItems(items: seq<int>)
    requires |items| >= 1
    ensures Text.Trim(FormatStartingItems(items)) == ItemsPrefix + Text.Join(ItemFields(items), ",")
  {
    JoinedItemsEnd(items);
    Text.TrimPrefixed("  ", ItemsPrefix, Text.Join(ItemFields(items), ","));
  }

  lemma JoinedItemsEnd(items: seq<int>)
    requires |items| >= 1
    ensures var j := Text.Join(ItemFields(items), ","); j != [] && !Text.IsSpace(j[|j| - 1])
  {
    var fields := ItemFields(items);
    Text.JoinEndsWithLast(fields, ",");
    var last := fields[|fields| - 1];
    var j := Text.Join(fields, ",");
    assert j[|j| - 1] == last[|last| - 1];
  }

  lemma ParseItemFields(items: seq<int>)
    requires forall i :: 0 <= i < |items| ==> Text.I32_MIN <= items[i] <= Text.I32_MAX
    ensures TryMap(ItemFields(items), ParseItem) == Ok(items)
  {
    var fields := ItemFields(items);
    forall i | 0 <= i < |fields|
      ensures ParseItem(fields[i]) == Ok(items[i])
    {
      Text.TrimSpaceWord(Text.IntToString(items[i]));
      Text.ParseIntToString(items[i], true, Text.I32_MIN, Text.I32_MAX);
    }
    TryMapAllOk(fields, ParseItem, items);
  }

  // ---------------------------------------------------------------------
  // A whole monkey
  // ---------------------------------------------------------------------

  datatype Monkey = Monkey(
    id: int,
    items: seq<int>,
    operation: MonkeyOperation,
    test: MonkeyTest,
    inspected: nat)

  /** Six lines in a fixed order. Each line is fetched just before it is
      parsed (the three test lines together), so a bad early line is
      reported even when later lines are missing. */
  function ParseMonkeyLines(lines: seq<string>): (r: Result<Monkey, ParsingError>)
    ensures r.Ok? ==>
      |lines| >= 6 &&
      ParseIdLine(lines[0]) == Ok(r.value.id) &&
      ParseStartingItems(lines[1]) == Ok(r.value.items) &&
      ParseOperation(lines[2]) == Ok(r.value.operation) &&
      ParseTest(lines[3], lines[4], lines[5]) == Ok(r.value.test) &&
      r.value.inspected == 0
    ensures r == Err(MissingLine) ==> |lines| < 6
  {
    if |lines| < 1 then Err(MissingLine)
    else
      var id :- ParseIdLine(lines[0]);
      if |lines| < 2 then Err(MissingLine)
      else
        var items :- ParseStartingItems(lines[1]);
        if |lines| < 3 then Err(MissingLine)
        else
          var operation :- ParseOperation(lines[2]);
          if |lines| < 6 then Err(MissingLine)
          else
            var test :- ParseTest(lines[3], lines[4], lines[5]);
            Ok(Monkey(id, items, operation, test, 0))
  }

  /** A monkey's block of text, split into lines first. */
  function ParseMonkey(s: string): (r: Result<Monkey, ParsingError>)
    ensures var lines := Text.Lines(s);
      r.Ok? ==>
        |lines| >= 6 &&
        ParseIdLine(lines[0]) == Ok(r.value.id) &&
        ParseStartingItems(lines[1]) == Ok(r.value.items) &&
        ParseOperation(lines[2]) == Ok(r.value.operation) &&
        ParseTest(lines[3], lines[4], lines[5]) == Ok(r.value.test) &&
        r.value.inspected == 0
    ensures r == Err(MissingLine) ==> |Text.Lines(s)| < 6
  {
    ParseMonkeyLines(Text.Lines(s))
  }

  // ---------------------------------------------------------------------
  // A round
  // ---------------------------------------------------------------------

  /** What stops a round: the source panics on a zero divider, on a
      target outside the group, and on a monkey throwing to itself
      (its item list is already borrowed). */
  datatype RoundError = DivisionByZero | TargetOutOfRange | ThrowToSelf

  /** Rust's `/` on integers truncates toward zero. */
  function DivTrunc3(w: int): (r: int)
    ensures w >= 0 ==> 0 <= r && 3 * r <= w < 3 * r + 3
    ensures w < 0 ==> r <= 0 && 3 * r - 3 < w <= 3 * r
  {
    if w >= 0 then w / 3 else -((-w) / 3)
  }

  /** The worry level an item has when it is thrown. */
  function Inspect(m: Monkey, item: int, boredom: bool): (r: int)
    ensures !boredom ==> r == EvaluateOperation(m.operation, item)
    ensures boredom ==> var w := EvaluateOperation(m.operation, item);
      if w >= 0 then 0 <= r && 3 * r <= w < 3 * r + 3 else r <= 0 && 3 * r - 3 < w <= 3 * r
  {
    var w := EvaluateOperation(m.operation, item);
    if boredom then DivTrunc3(w) else w
  }

  /** The thrower `i` can throw an item of worry `w`. */
  predicate CanThrow(ms: seq<Monkey>, i: nat, w: int)
    requires i < |ms|
  {
    ms[i].test.divider != 0 &&
    (var t := Evaluate(ms[i].test, w).1; 0 <= t < |ms| && t != i)
  }

  function TargetOf(m: Monkey, w: int): int
    requires m.test.divider != 0
  {
    Evaluate(m.test, w).1
  }

  /** The worry levels `m` sends to monkey `j`, in order, out of `items`. */
  function Routed(m: Monkey, items: seq<int>, boredom: bool, j: int): seq<int>
  {
    if items == [] then []
    else
      var w := Inspect(m, items[0], boredom);
      (if m.test.divider != 0 && TargetOf(m, w) == j then [w] else []) + Routed(m, items[1..], boredom, j)
  }

  function TotalItems(ms: seq<Monkey>): nat {
    if ms == [] then 0 else |ms[0].items| + TotalItems(ms[1..])
  }

  lemma {:induction false} TotalItemsUpdate(ms: seq<Monkey>, t: nat, m: Monkey)
    requires t < |ms|
    ensures TotalItems(ms[t := m]) == TotalItems(ms) - |ms[t].items| + |m.items|
    decreases |ms|
  {
    if t > 0 {
      TotalItemsUpdate(ms[1..], t - 1, m);
      assert ms[t := m][1..] == ms[1..][t - 1 := m];
    }
  }

  /** Only the item lists and counters of a group changed. */
  predicate SameMonkeys(a: seq<Monkey>, b: seq<Monkey>) {
    |a| == |b| &&
    forall j :: 0 <= j < |a| ==> b[j].id == a[j].id && b[j].operation == a[j].operation && b[j].test == a[j].test
  }

  /** Monkey `i` inspects and throws `items`, in order, each to the back
      of its target's queue. */
  function ThrowItems(ms: seq<Monkey>, i: nat, items: seq<int>, boredom: bool): (r: Result<seq<Monkey>, RoundError>)
    requires i < |ms|
    ensures r.Ok? ==> |r.value| == |ms| && r.value[i] == ms[i]
    decreases |items|
  {
    if items == [] then Ok(ms)
    else
      var m := ms[i];
      var w := Inspect(m, items[0], boredom);
      if m.test.divider == 0 then Err(DivisionByZero)
      else
        var t := Evaluate(m.test, w).1;
        if t < 0 || t >= |ms| then Err(TargetOutOfRange)
        else if t == i then Err(ThrowToSelf)
        else ThrowItems(ms[t := ms[t].(items := ms[t].items + [w])], i, items[1..], boredom)
  }

  /** Throwing succeeds exactly when every item has a valid target. */
  lemma {:induction false} ThrowItemsSucceeds(ms: seq<Monkey>, i: nat, items: seq<int>, boredom: bool)
    requires i < |ms|
    ensures ThrowItems(ms, i, items, boredom).Ok? <==>
      forall k :: 0 <= k < |items| ==> CanThrow(ms, i, Inspect(ms[i], items[k], boredom))
    decreases |items|
  {
    if items != [] {
      var w := Inspect(ms[i], items[0], boredom);
      if CanThrow(ms, i, w) {
        var t := TargetOf(ms[i], w);
        var next := ms[t := ms[t].(items := ms[t].items + [w])];
        ThrowItemsSucceeds(next, i, items[1..], boredom);
        assert forall w' :: CanThrow(next, i, w') == CanThrow(ms, i, w');
        assert forall k :: 1 <= k < |items| ==> items[k] == items[1..][k - 1];
      }
    }
  }

  /** Throwing changes only item lists, and no other monkey's counter. */
  lemma {:induction false} ThrowItemsKeeps(ms: seq<Monkey>, i: nat, items: seq<int>, boredom: bool)
    requires i < |ms|
    requires ThrowItems(ms, i, items, boredom).Ok?
    ensures var r := ThrowItems(ms, i, items, boredom).value;
      SameMonkeys(ms, r) && forall j :: 0 <= j < |ms| ==> r[j].inspected == ms[j].inspected
    decreases |items|
  {
    if items != [] {
      var w := Inspect(ms[i], items[0], boredom);
      var t := TargetOf(ms[i], w);
      ThrowItemsKeeps(ms[t := ms[t].(items := ms[t].items + [w])], i, items[1..], boredom);
    }
  }

  /** Each other monkey's queue gains, at the back and in order, exactly
      the items routed to it. */
  lemma {:induction false} ThrowItemsRoutes(ms: seq<Monkey>, i: nat, items: seq<int>, boredom: bool)
    requires i < |ms|
    requires ThrowItems(ms, i, items, boredom).Ok?
    ensures var r := ThrowItems(ms, i, items, boredom).value;
      forall j :: 0 <= j < |ms| && j != i ==> r[j].items == ms[j].items + Routed(ms[i], items, boredom, j)
    decreases |items|
  {
    if items != [] {
      var w := Inspect(ms[i], items[0], boredom);
      var t := TargetOf(ms[i], w);
      var next := ms[t := ms[t].(items := ms[t].items + [w])];
      ThrowItemsRoutes(next, i, items[1..], boredom);
      forall j | 0 <= j < |ms| && j != i
        ensures ThrowItems(ms, i, items, boredom).value[j].items == ms[j].items + Routed(ms[i], items, boredom, j)
      {
        RouteStep(ms, i, items, boredom, j);
      }
    }
  }

  /** One throw, seen from monkey `j`. */
  lemma RouteStep(ms: seq<Monkey>, i: nat, items: seq<int>, boredom: bool, j: int)
    requires i < |ms| && 0 <= j < |ms| && j != i && items != []
    requires CanThrow(ms, i, Inspect(ms[i], items[0], boredom))
    ensures var w := Inspect(ms[i], items[0], boredom);
      var t := TargetOf(ms[i], w);
      var next := ms[t := ms[t].(items := ms[t].items + [w])];
      ms[j].items + Routed(ms[i], items, boredom, j) == next[j].items + Routed(ms[i], items[1..], boredom, j)
  {
    var w := Inspect(ms[i], items[0], boredom);
    var t := TargetOf(ms[i], w);
    RoutedCons(ms[i], items, boredom, j);
    var next := ms[t := ms[t].(items := ms[t].items + [w])];
    AppendRegroup(ms[j].items, next[j].items, w, j == t, Routed(ms[i], items[1..], boredom, j));
  }

  lemma RoutedCons(m: Monkey, items: seq<int>, boredom: bool, j: int)
    requires items != [] && m.test.divider != 0
    ensures var w := Inspect(m, items[0], boredom);
      Routed(m, items, boredom, j) == (if TargetOf(m, w) == j then [w] else []) + Routed(m, items[1..], boredom, j)
  {
  }

  lemma AppendRegroup(held: seq<int>, after: seq<int>, w: int, hit: bool, rest: seq<int>)
    requires after == if hit then held + [w] else held
    ensures held + ((if hit then [w] else []) + rest) == after + rest
  {
  }

  /** Throwing `items` adds exactly `|items|` items to the group. */
  lemma {:induction false} ThrowItemsCount(ms: seq<Monkey>, i: nat, items: seq<int>, boredom: bool)
    requires i < |ms|
    requires ThrowItems(ms, i, items, boredom).Ok?
    ensures TotalItems(ThrowItems(ms, i, items, boredom).value) == TotalItems(ms) + |items|
    decreases |items|
  {
    if items != [] {
      var w := Inspect(ms[i], items[0], boredom);
      var t := TargetOf(ms[i], w);
      var next := ms[t := ms[t].(items := ms[t].items + [w])];
      TotalItemsUpdate(ms, t, next[t]);
      ThrowItemsCount(next, i, items[1..], boredom);
    }
  }

  /** Monkey `i`'s turn: it throws every item it holds, then its list is
      empty and its counter has grown by the number of items. */
  function Turn(ms: seq<Monkey>, i: nat, boredom: bool): (r: Result<seq<Monkey>, RoundError>)
    requires i < |ms|
    ensures r.Ok? <==> forall k :: 0 <= k < |ms[i].items| ==> CanThrow(ms, i, Inspect(ms[i], ms[i].items[k], boredom))
    ensures r.Ok? ==> SameMonkeys(ms, r.value)
    ensures r.Ok? ==> r.value[i].items == [] && r.value[i].inspected == ms[i].inspected + |ms[i].items|
    ensures r.Ok? ==> forall j :: 0 <= j < |ms| && j != i ==>
      r.value[j].items == ms[j].items + Routed(ms[i], ms[i].items, boredom, j) &&
      r.value[j].inspected == ms[j].inspected
    ensures r.Ok? ==> TotalItems(r.value) == TotalItems(ms)
  {
    ThrowItemsSucceeds(ms, i, ms[i].items, boredom);
    var thrown :- ThrowItems(ms, i, ms[i].items, boredom);
    ThrowItemsKeeps(ms, i, ms[i].items, boredom);
    ThrowItemsRoutes(ms, i, ms[i].items, boredom);
    ThrowItemsCount(ms, i, ms[i].items, boredom);
    var done := thrown[i].(inspected := thrown[i].inspected + |ms[i].items|, items := []);
    TotalItemsUpdate(thrown, i, done);
    Ok(thrown[i := done])
  }

  /** Turns of monkeys `i`, `i + 1`, ... in index order. */
  function RoundFrom(ms: seq<Monkey>, i: nat, boredom: bool): (r: Result<seq<Monkey>, RoundError>)
    ensures r.Ok? ==> SameMonkeys(ms, r.value)
    ensures r.Ok? ==> TotalItems(r.value) == TotalItems(ms)
    ensures r.Ok? ==> forall j :: 0 <= j < |ms| ==> r.value[j].inspected >= ms[j].inspected
    decreases |ms| - i
  {
    if i >= |ms| then Ok(ms)
    else
      var next :- Turn(ms, i, boredom);
      RoundFrom(next, i + 1, boredom)
  }

  /** A round: every monkey takes its turn, in index order. Items are
      neither lost nor created, and no counter goes down. */
  function Round(ms: seq<Monkey>, boredom: bool): (r: Result<seq<Monkey>, RoundError>)
    ensures r.Ok? ==> SameMonkeys(ms, r.value)
    ensures r.Ok? ==> TotalItems(r.value) == TotalItems(ms)
    ensures r.Ok? ==> forall j :: 0 <= j < |ms| ==> r.value[j].inspected >= ms[j].inspected
  {
    RoundFrom(ms, 0, boredom)
  }

  // ---------------------------------------------------------------------
  // The leaderboard
  // ---------------------------------------------------------------------

  /** (id, inspection count) pairs, sorted by count, largest first. */
  predicate Descending(s: seq<(int, nat)>) {
    forall k :: 0 <= k < |s| - 1 ==> s[k].1 >= s[k + 1].1
  }

  lemma {:induction false} DescendingOrdered(s: seq<(int, nat)>, a: int, b: int)
    requires Descending(s) && 0 <= a <= b < |s|
    ensures s[a].1 >= s[b].1
    decreases b - a
  {
    if a < b {
      DescendingOrdered(s, a + 1, b);
    }
  }

  /** Inserts `p` before the first pair with a count not above its own. */
  function Insert(p: (int, nat), s: seq<(int, nat)>): (r: seq<(int, nat)>)
    requires Descending(s)
    ensures Descending(r)
    ensures multiset(r) == multiset(s) + multiset{p}
    ensures |r| == |s| + 1 && r[0] == if s == [] || p.1 >= s[0].1 then p else s[0]
    decreases |s|
  {
    if s == [] || p.1 >= s[0].1 then [p] + s
    else
      assert s == [s[0]] + s[1..];
      [s[0]] + Insert(p, s[1..])
  }

  /** Stable sort by count, largest first (Rust's `sort_by` is stable). */
  function SortDescending(s: seq<(int, nat)>): (r: seq<(int, nat)>)
    ensures Descending(r)
    ensures multiset(r) == multiset(s)
    decreases |s|
  {
    if s == [] then []
    else
      assert s == [s[0]] + s[1..];
      Insert(s[0], SortDescending(s[1..]))
  }

  function Activity(ms: seq<Monkey>): (pairs: seq<(int, nat)>)
    ensures |pairs| == |ms|
    ensures forall j :: 0 <= j < |ms| ==> pairs[j] == (ms[j].id, ms[j].inspected)
  {
    seq(|ms|, j requires 0 <= j < |ms| => (ms[j].id, ms[j].inspected))
  }

  /** No pair in `others` has a higher count than any pair of `top`. */
  predicate Beats(top: seq<(int, nat)>, others: multiset<(int, nat)>) {
    forall k, p :: 0 <= k < |top| && p in others ==> p.1 <= top[k].1
  }

  lemma PrefixDescending(sorted: seq<(int, nat)>, m: nat)
    requires Descending(sorted) && m <= |sorted|
    ensures Descending(sorted[..m])
  {
    forall k | 0 <= k < m - 1
      ensures sorted[..m][k].1 >= sorted[..m][k + 1].1
    {
      assert sorted[..m][k] == sorted[k] && sorted[..m][k + 1] == sorted[k + 1];
    }
  }

  /** The first `m` pairs of a descending sequence are drawn from it, and
      nothing after them beats any of them. */
  lemma PrefixDominates(sorted: seq<(int, nat)>, m: nat)
    requires Descending(sorted) && m <= |sorted|
    ensures multiset(sorted[..m]) <= multiset(sorted)
    ensures Beats(sorted[..m], multiset(sorted) - multiset(sorted[..m]))
  {
    PrefixSplit(sorted, m);
    SuffixBelow(sorted, m);
  }

  lemma PrefixSplit(s: seq<(int, nat)>, m: nat)
    requires m <= |s|
    ensures multiset(s[..m]) <= multiset(s)
    ensures multiset(s) - multiset(s[..m]) == multiset(s[m..])
  {
    assert s == s[..m] + s[m..];
    assert multiset(s) == multiset(s[..m]) + multiset(s[m..]);
  }

  lemma SuffixBelow(sorted: seq<(int, nat)>, m: nat)
    requires Descending(sorted) && m <= |sorted|
    ensures Beats(sorted[..m], multiset(sorted[m..]))
  {
    forall k, p | 0 <= k < m && p in multiset(sorted[m..])
      ensures p.1 <= sorted[..m][k].1
    {
      var l :| 0 <= l < |sorted[m..]| && sorted[m..][l] == p;
      DescendingOrdered(sorted, k, m + l);
    }
  }

  /** The `n` busiest monkeys (all of them if there are fewer), busiest
      first; nobody left out was busier than anybody returned. */
  function GetMostActive(ms: seq<Monkey>, n: nat): (r: seq<(int, nat)>)
    ensures |r| == if |ms| < n then |ms| else n
    ensures Descending(r)
    ensures multiset(r) <= multiset(Activity(ms))
    ensures Beats(r, multiset(Activity(ms)) - multiset(r))
  {
    var sorted := SortDescending(Activity(ms));
    var m := if |sorted| < n then |sorted| else n;
    PrefixDescending(sorted, m);
    PrefixDominates(sorted, m);
    sorted[..m]
  }
}
