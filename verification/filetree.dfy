/** No space left on device: a terminal transcript of `cd` and `ls`
    commands, parsed into commands and replayed into a file tree held as
    a vector of nodes that refer to one another by index. */
module FileTree {
  import opened Wrappers
  import Text

  /** One line of `ls` output. */
  datatype ListType =
    | File(name: string, size: nat)
    | Dir(name: string)

  datatype Command =
    | ChangeDirectory(path: Option<string>)
    | List(list: seq<ListType>)

  datatype TreeError =
    | ParseListTypeError   // an `ls` line without a name or a `u32` size
    | ParseCommandError    // a command line that is not `$ cd` or `$ ls`
    | ListEntryPanic       // `unwrap` on a bad `ls` line
    | NoParentPanic        // `cd ..` at the root
    | NoDirectoryPanic     // `cd` to a name the current node does not list
    | NoPathPanic          // `cd` without an argument

  // ---------------------------------------------------------------------
  // Parsing one command
  // ---------------------------------------------------------------------

  /** "dir NAME" or "SIZE NAME"; words after the name are ignored. */
  function ParseListType(s: string): (r: Result<ListType, TreeError>)
    ensures r.Ok? <==>
      var ws := Text.Words(s);
      |ws| >= 2 && (ws[0] == "dir" || Text.ParseU32(ws[0]).Some?)
    ensures r.Ok? ==> r.value.name == Text.Words(s)[1]
    ensures r.Ok? ==> (r.value.Dir? <==> Text.Words(s)[0] == "dir")
    ensures r.Ok? && r.value.File? ==> Text.ParseU32(Text.Words(s)[0]) == Some(r.value.size)
    ensures r.Err? ==> r.error == ParseListTypeError
  {
    var ws := Text.Words(s);
    if |ws| == 0 then Err(ParseListTypeError)
    else if ws[0] == "dir" then
      if |ws| < 2 then Err(ParseListTypeError) else Ok(Dir(ws[1]))
    else
      var size :- OkOr(Text.ParseU32(ws[0]), ParseListTypeError);
      if |ws| < 2 then Err(ParseListTypeError)
      else
        assert size >= 0 by { NonNegativeU32(ws[0]); }
        Ok(File(ws[1], size))
  }

  lemma NonNegativeU32(s: string)
    ensures Text.ParseU32(s).Some? ==> 0 <= Text.ParseU32(s).value <= Text.U32_MAX
  {
  }

  /** The first line reads `$ OP ...`. */
  predicate Opens(lines: seq<string>, op: string) {
    |lines| >= 1 && var ws := Text.Words(lines[0]); |ws| >= 2 && ws[0] == "$" && ws[1] == op
  }

  /** `Commands::from_str` on the lines of `s`. */
  function ParseCommand(s: string): Result<Command, TreeError>
  {
    ParseCommandLines(Text.Lines(s))
  }

  /** The first line is `$ cd [PATH]` or `$ ls`; after `$ ls` every
      further line is one entry, and a bad entry panics. */
  function ParseCommandLines(lines: seq<string>): (r: Result<Command, TreeError>)
    ensures r.Ok? && r.value.ChangeDirectory? <==> Opens(lines, "cd")
    ensures r.Ok? && r.value.ChangeDirectory? ==>
      var ws := Text.Words(lines[0]);
      (r.value.path.Some? <==> |ws| >= 3) && (r.value.path.Some? ==> r.value.path.value == ws[2])
    ensures r.Ok? && r.value.List? ==> Opens(lines, "ls")
    ensures r.Ok? && r.value.List? ==>
      |r.value.list| == |lines| - 1 &&
      forall i :: 0 <= i < |r.value.list| ==> ParseListType(lines[i + 1]) == Ok(r.value.list[i])
    ensures r.Err? && !Opens(lines, "ls") ==> r.error == ParseCommandError
    ensures Opens(lines, "ls") ==> (r.Ok? <==> forall i :: 1 <= i < |lines| ==> ParseListType(lines[i]).Ok?)
  {
    if |lines| == 0 then Err(ParseCommandError)
    else
      var ws := Text.Words(lines[0]);
      if |ws| < 2 || ws[0] != "$" then Err(ParseCommandError)
      else if ws[1] == "cd" then
        Ok(ChangeDirectory(if |ws| >= 3 then Some(ws[2]) else None))
      else if ws[1] == "ls" then
        match TryMap(lines[1..], ParseListType)
        case Err(_) => Err(ListEntryPanic)
        case Ok(list) => Ok(List(list))
      else Err(ParseCommandError)
  }

  // ---------------------------------------------------------------------
  // Parsing the transcript
  // ---------------------------------------------------------------------

  predicate IsCommandLine(line: string) {
    |line| > 0 && line[0] == '$'
  }

  /** How many lines open `lines` before the next command line. */
  function RunLength(lines: seq<string>): (n: nat)
    ensures n <= |lines|
    ensures forall k :: 0 <= k < n ==> !IsCommandLine(lines[k])
    ensures n < |lines| ==> IsCommandLine(lines[n])
    decreases |lines|
  {
    if lines == [] || IsCommandLine(lines[0]) then 0 else 1 + RunLength(lines[1..])
  }

  /** Each line together with the lines after it up to the next command
      line. */
  function Groups(lines: seq<string>): (r: seq<seq<string>>)
    ensures forall i :: 0 <= i < |r| ==> |r[i]| >= 1
    ensures forall i, k :: 0 <= i < |r| && 1 <= k < |r[i]| ==> !IsCommandLine(r[i][k])
    ensures forall i :: 1 <= i < |r| ==> IsCommandLine(r[i][0])
    ensures lines != [] ==> |r| >= 1 && r[0][0] == lines[0]
    decreases |lines|
  {
    if lines == [] then []
    else
      var n := 1 + RunLength(lines[1..]);
      var rest := Groups(lines[n..]);
      assert n < |lines| ==> IsCommandLine(lines[n..][0]);
      [lines[..n]] + rest
  }

  function Flatten(xss: seq<seq<string>>): seq<string>
    decreases |xss|
  {
    if xss == [] then [] else xss[0] + Flatten(xss[1..])
  }

  /** Grouping loses and reorders no line. */
  lemma {:induction false} GroupsConcat(lines: seq<string>)
    ensures Flatten(Groups(lines)) == lines
    decreases |lines|
  {
    if lines != [] {
      var n := 1 + RunLength(lines[1..]);
      GroupsConcat(lines[n..]);
      assert lines == lines[..n] + lines[n..];
    }
  }

  /** `parse_input`: every group joined by line feeds and parsed as one
      command; the first failure is the result. */
  function ParseInput(input: string): (r: Result<seq<Command>, TreeError>)
    ensures r.Ok? ==> |r.value| == |Groups(Text.Lines(input))|
    ensures r.Ok? ==> forall i :: 0 <= i < |r.value| ==>
      ParseCommand(Text.Join(Groups(Text.Lines(input))[i], "\n")) == Ok(r.value[i])
    ensures input == [] ==> r == Ok([])
  {
    TryMap(Groups(Text.Lines(input)), (g: seq<string>) => ParseCommand(Text.Join(g, "\n")))
  }

  // ---------------------------------------------------------------------
  // Rendering, the partner of parsing
  // ---------------------------------------------------------------------

  function FormatListType(e: ListType): string
  {
    match e
    case Dir(name) => "dir " + name
    case File(name, size) => Text.NatToString(size) + " " + name
  }

  /** The lines a command occupies in a transcript. */
  function CommandLines(c: Command): (r: seq<string>)
    ensures |r| >= 1
  {
    match c
    case ChangeDirectory(None) => ["$ cd"]
    case ChangeDirectory(Some(path)) => ["$ cd " + path]
    case List(list) => ["$ ls"] + seq(|list|, i requires 0 <= i < |list| => FormatListType(list[i]))
  }

  function FormatInput(cs: seq<Command>): string
  {
    Text.Join(Flatten(seq(|cs|, i requires 0 <= i < |cs| => CommandLines(cs[i]))), "\n")
  }

  /** A name as a transcript can carry it: one word. */
  predicate GoodName(name: string) {
    name != [] && Text.IsWord(name)
  }

  predicate GoodEntry(e: ListType) {
    GoodName(e.name) && (e.File? ==> e.size <= Text.U32_MAX)
  }

  predicate GoodCommand(c: Command) {
    match c
    case ChangeDirectory(path) => path.Some? ==> GoodName(path.value)
    case List(list) => forall i :: 0 <= i < |list| ==> GoodEntry(list[i])
  }

  lemma ParseFormatListType(e: ListType)
    requires GoodEntry(e)
    ensures ParseListType(FormatListType(e)) == Ok(e)
  {
    match e
    case Dir(name) =>
      assert "dir " + name == "dir" + " " + name;
      Text.WordsCons("dir", name);
      Text.WordsOfWord(name);
    case File(name, size) =>
      var digits := Text.NatToString(size);
      Text.WordsCons(digits, name);
      Text.WordsOfWord(name);
      Text.ParseIntToString(size, false, 0, Text.U32_MAX);
      assert digits != "dir" by { assert Text.IsDigit(digits[0]); }
  }

  /** A word followed by a space and a good name is a line `Lines` keeps
      whole. */
  lemma PlainWithName(head: string, name: string)
    requires '\n' !in head && GoodName(name)
    ensures Text.PlainLine(head + " " + name)
  {
    var line := head + " " + name;
    assert line[|line| - 1] == name[|name| - 1];
    assert '\n' !in line by {
      forall k | 0 <= k < |line|
        ensures line[k] != '\n'
      {
        if k > |head| { assert line[k] == name[k - |head| - 1]; }
        else if k < |head| { assert line[k] == head[k]; }
      }
    }
  }

  /** The lines of a good command: a command line first, then entry
      lines, each one kept whole by `Lines`. */
  lemma CommandLinesShape(c: Command)
    requires GoodCommand(c)
    ensures IsCommandLine(CommandLines(c)[0])
    ensures forall k :: 1 <= k < |CommandLines(c)| ==> !IsCommandLine(CommandLines(c)[k])
    ensures forall k :: 0 <= k < |CommandLines(c)| ==> CommandLines(c)[k] != [] && Text.PlainLine(CommandLines(c)[k])
  {
    var lines := CommandLines(c);
    match c
    case ChangeDirectory(None) =>
    case ChangeDirectory(Some(path)) =>
      assert lines[0] == "$ cd" + " " + path;
      PlainWithName("$ cd", path);
    case List(list) =>
      forall k | 1 <= k < |lines|
        ensures !IsCommandLine(lines[k]) && lines[k] != [] && Text.PlainLine(lines[k])
      {
        var e := list[k - 1];
        assert lines[k] == FormatListType(e);
        match e
        case Dir(name) =>
          PlainWithName("dir", name);
        case File(name, size) =>
          PlainWithName(Text.NatToString(size), name);
          assert Text.IsDigit(Text.NatToString(size)[0]);
      }
  }

  /** A good command is read back from its lines. */
  lemma ParseFormatCommand(c: Command)
    requires GoodCommand(c)
    ensures ParseCommand(Text.Join(CommandLines(c), "\n")) == Ok(c)
  {
    var lines := CommandLines(c);
    CommandLinesShape(c);
    Text.LinesJoin(lines);
    if c.ChangeDirectory? {
      ParseFormatCd(c.path);
    } else {
      ParseFormatList(c.list);
    }
  }

  lemma ParseFormatCd(path: Option<string>)
    requires path.Some? ==> GoodName(path.value)
    ensures ParseCommandLines(CommandLines(ChangeDirectory(path))) == Ok(ChangeDirectory(path))
  {
    match path
    case None =>
      WordsOfCommand("cd");
      assert "$ " + "cd" == "$ cd";
    case Some(p) => WordsOfCdPath(p);
  }

  /** A command line without arguments splits into the prompt and the
      command word. */
  lemma WordsOfCommand(word: string)
    requires word == "cd" || word == "ls"
    ensures Text.Words("$ " + word) == ["$", word]
  {
    assert "$ " + word == "$" + " " + word;
    Text.WordsTwo("$", word);
  }

  lemma WordsOfCdPath(path: string)
    requires GoodName(path)
    ensures Text.Words("$ cd " + path) == ["$", "cd", path]
  {
    var tail := "cd" + " " + path;
    Text.WordsTwo("cd", path);
    assert "$ cd " + path == "$" + " " + tail;
    Text.WordsCons("$", tail);
  }

  lemma ParseFormatList(list: seq<ListType>)
    requires forall i :: 0 <= i < |list| ==> GoodEntry(list[i])
    ensures ParseCommandLines(CommandLines(List(list))) == Ok(List(list))
  {
    var lines := CommandLines(List(list));
    WordsOfCommand("ls");
    assert "$ " + "ls" == "$ ls";
    forall i | 0 <= i < |list|
      ensures ParseListType(lines[1..][i]) == Ok(list[i])
    {
      ParseFormatListType(list[i]);
    }
    TryMapAllOk(lines[1..], ParseListType, list);
  }

  // ---------------------------------------------------------------------
  // The transcript round trip
  // ---------------------------------------------------------------------

  function CommandsLines(cs: seq<Command>): (r: seq<seq<string>>)
    ensures |r| == |cs|
  {
    seq(|cs|, i requires 0 <= i < |cs| => CommandLines(cs[i]))
  }

  predicate GoodCommands(cs: seq<Command>) {
    forall i :: 0 <= i < |cs| ==> GoodCommand(cs[i])
  }

  /** A run of non-command lines before a command line, or before the
      end, is the run `RunLength` measures. */
  lemma {:induction false} RunLengthPrefix(a: seq<string>, b: seq<string>)
    requires forall k :: 0 <= k < |a| ==> !IsCommandLine(a[k])
    requires b != [] ==> IsCommandLine(b[0])
    ensures RunLength(a + b) == |a|
    decreases |a|
  {
    if a != [] {
      RunLengthPrefix(a[1..], b);
      assert (a + b)[1..] == a[1..] + b;
    }
  }

  /** A command line followed by non-command lines, then a command line
      or the end, makes one group. */
  lemma GroupsCons(first: seq<string>, rest: seq<string>)
    requires |first| >= 1
    requires forall k :: 1 <= k < |first| ==> !IsCommandLine(first[k])
    requires rest != [] ==> IsCommandLine(rest[0])
    ensures Groups(first + rest) == [first] + Groups(rest)
  {
    var lines := first + rest;
    RunLengthPrefix(first[1..], rest);
    assert lines[1..] == first[1..] + rest;
    assert lines[..|first|] == first;
    assert lines[|first|..] == rest;
  }

  /** The lines of good commands group back into the commands' lines. */
  lemma {:induction false} GroupsOfCommands(cs: seq<Command>)
    requires GoodCommands(cs)
    ensures Groups(Flatten(CommandsLines(cs))) == CommandsLines(cs)
    ensures cs != [] ==> Flatten(CommandsLines(cs)) != [] && IsCommandLine(Flatten(CommandsLines(cs))[0])
    decreases |cs|
  {
    if cs != [] {
      var first := CommandLines(cs[0]);
      assert CommandsLines(cs[1..]) == CommandsLines(cs)[1..];
      GroupsOfCommands(cs[1..]);
      var rest := Flatten(CommandsLines(cs[1..]));
      assert Flatten(CommandsLines(cs)) == first + rest;
      CommandLinesShape(cs[0]);
      GroupsCons(first, rest);
    }
  }

  /** Every line of good commands is one `Lines` keeps whole. */
  lemma {:induction false} CommandsLinesPlain(cs: seq<Command>)
    requires GoodCommands(cs)
    ensures forall k :: 0 <= k < |Flatten(CommandsLines(cs))| ==>
      Flatten(CommandsLines(cs))[k] != [] && Text.PlainLine(Flatten(CommandsLines(cs))[k])
    decreases |cs|
  {
    if cs != [] {
      var first := CommandLines(cs[0]);
      assert CommandsLines(cs[1..]) == CommandsLines(cs)[1..];
      CommandsLinesPlain(cs[1..]);
      CommandLinesShape(cs[0]);
      var rest := Flatten(CommandsLines(cs[1..]));
      var lines := Flatten(CommandsLines(cs));
      assert lines == first + rest;
      forall k | 0 <= k < |lines|
        ensures lines[k] != [] && Text.PlainLine(lines[k])
      {
        if k >= |first| { assert lines[k] == rest[k - |first|]; }
      }
    }
  }

  /** `parse_input` reads good commands back from their transcript. */
  lemma ParseFormatInput(cs: seq<Command>)
    requires GoodCommands(cs)
    ensures ParseInput(FormatInput(cs)) == Ok(cs)
  {
    var lines := Flatten(CommandsLines(cs));
    assert FormatInput(cs) == Text.Join(lines, "\n");
    GroupsOfCommands(cs);
    if cs != [] {
      CommandsLinesPlain(cs);
      Text.LinesJoin(lines);
      var groups := CommandsLines(cs);
      forall i | 0 <= i < |cs|
        ensures ParseCommand(Text.Join(groups[i], "\n")) == Ok(cs[i])
      {
        ParseFormatCommand(cs[i]);
      }
      TryMapAllOk(groups, (g: seq<string>) => ParseCommand(Text.Join(g, "\n")), cs);
    }
  }

  // ---------------------------------------------------------------------
  // Replaying the commands into a tree
  // ---------------------------------------------------------------------

  /** One file or directory; `children` maps a listed name to the index
      of its node, `parent` is the index of the directory it was listed
      in. */
  datatype Node = Node(name: string, size: nat, children: map<string, nat>, parent: Option<nat>)

  /** The vector starts with the root "/" of size 0. */
  const Root: Node := Node("/", 0, map[], None)

  /** Nodes other than the root have a parent listed before them. */
  predicate ParentsBefore(nodes: seq<Node>) {
    forall i :: 0 < i < |nodes| ==> nodes[i].parent.Some? && nodes[i].parent.value < i
  }

  /** Every child entry names a later node of that name whose parent is
      the node holding the entry. */
  predicate ChildrenPointBack(nodes: seq<Node>) {
    forall i, name :: 0 <= i < |nodes| && name in nodes[i].children ==>
      var j := nodes[i].children[name];
      i < j < |nodes| && nodes[j].parent == Some(i) && nodes[j].name == name
  }

  predicate WellFormed(nodes: seq<Node>) {
    |nodes| >= 1 && nodes[0].name == "/" && nodes[0].parent.None? &&
    ParentsBefore(nodes) && ChildrenPointBack(nodes)
  }

  /** Directories are recorded with size 0. */
  function EntrySize(e: ListType): nat {
    if e.File? then e.size else 0
  }

  /** One listed entry: a new node at the end, parented to `cur`, and an
      entry in `cur`'s children, replacing an earlier one of that name. */
  function AddEntry(nodes: seq<Node>, cur: nat, e: ListType): (r: seq<Node>)
    requires cur < |nodes|
    ensures |r| == |nodes| + 1
    ensures r[|nodes|] == Node(e.name, EntrySize(e), map[], Some(cur))
    ensures forall i :: 0 <= i < |nodes| && i != cur ==> r[i] == nodes[i]
    ensures r[cur] == nodes[cur].(children := nodes[cur].children[e.name := |nodes|])
    ensures WellFormed(nodes) ==> WellFormed(r)
  {
    var grown := nodes + [Node(e.name, EntrySize(e), map[], Some(cur))];
    grown[cur := grown[cur].(children := grown[cur].children[e.name := |nodes|])]
  }

  /** The name, size and parent of every node already present. */
  predicate SameShape(a: Node, b: Node) {
    a.name == b.name && a.size == b.size && a.parent == b.parent
  }

  /** All entries of one `ls`, in order. */
  function AddEntries(nodes: seq<Node>, cur: nat, list: seq<ListType>): (r: seq<Node>)
    requires cur < |nodes|
    ensures |r| == |nodes| + |list|
    ensures forall i :: 0 <= i < |nodes| ==> SameShape(r[i], nodes[i])
    ensures WellFormed(nodes) ==> WellFormed(r)
    decreases |list|
  {
    if list == [] then nodes else AddEntries(AddEntry(nodes, cur, list[0]), cur, list[1..])
  }

  /** The k-th entry becomes node `|nodes| + k`, parented to `cur`. */
  lemma {:induction false} AddEntriesNew(nodes: seq<Node>, cur: nat, list: seq<ListType>, k: nat)
    requires cur < |nodes| && k < |list|
    ensures SameShape(AddEntries(nodes, cur, list)[|nodes| + k], Node(list[k].name, EntrySize(list[k]), map[], Some(cur)))
    decreases |list|
  {
    var next := AddEntry(nodes, cur, list[0]);
    if k > 0 {
      AddEntriesNew(next, cur, list[1..], k - 1);
      assert list[1..][k - 1] == list[k];
    }
  }

  /** Only the listed directory gains children, and it gains exactly
      the listed names. */
  lemma {:induction false} AddEntriesChildren(nodes: seq<Node>, cur: nat, list: seq<ListType>)
    requires cur < |nodes|
    ensures forall i :: 0 <= i < |nodes| && i != cur ==> AddEntries(nodes, cur, list)[i] == nodes[i]
    ensures AddEntries(nodes, cur, list)[cur].children.Keys == nodes[cur].children.Keys + Names(list)
    ensures forall name :: name in Names(list) ==> AddEntries(nodes, cur, list)[cur].children[name] >= |nodes|
    ensures forall name :: name in nodes[cur].children && name !in Names(list) ==>
      AddEntries(nodes, cur, list)[cur].children[name] == nodes[cur].children[name]
    decreases |list|
  {
    if list != [] {
      var next := AddEntry(nodes, cur, list[0]);
      AddEntriesChildren(next, cur, list[1..]);
      NamesCons(list);
    }
  }

  function Names(list: seq<ListType>): set<string> {
    set k | 0 <= k < |list| :: list[k].name
  }

  lemma NamesCons(list: seq<ListType>)
    requires list != []
    ensures Names(list) == {list[0].name} + Names(list[1..])
  {
    forall name | name in Names(list)
      ensures name in {list[0].name} + Names(list[1..])
    {
      var k :| 0 <= k < |list| && list[k].name == name;
      if k > 0 { assert list[1..][k - 1] == list[k]; }
    }
  }

  /** One command. `cd /` leaves the current directory as it is. */
  function Step(nodes: seq<Node>, cur: nat, c: Command): (r: Result<(seq<Node>, nat), TreeError>)
    requires WellFormed(nodes) && cur < |nodes|
    ensures r.Ok? ==> WellFormed(r.value.0) && r.value.1 < |r.value.0|
    ensures c.ChangeDirectory? ==> (r.Ok? ==> r.value.0 == nodes)
    ensures c == ChangeDirectory(None) ==> r == Err(NoPathPanic)
    ensures c == ChangeDirectory(Some("/")) ==> r == Ok((nodes, cur))
    ensures c == ChangeDirectory(Some("..")) ==>
      (r.Ok? <==> cur != 0) && (r.Ok? ==> r.value.1 < cur && nodes[cur].parent == Some(r.value.1))
    ensures c.ChangeDirectory? && c.path.Some? && c.path.value != "/" && c.path.value != ".." ==>
      (r.Ok? <==> c.path.value in nodes[cur].children) &&
      (r.Ok? ==> nodes[r.value.1].name == c.path.value && nodes[r.value.1].parent == Some(cur))
    ensures c.List? ==> r.Ok? && r.value.1 == cur && |r.value.0| == |nodes| + |c.list|
  {
    match c
    case ChangeDirectory(None) => Err(NoPathPanic)
    case ChangeDirectory(Some(path)) =>
      if path == "/" then Ok((nodes, cur))
      else if path == ".." then
        match nodes[cur].parent
        case None => Err(NoParentPanic)
        case Some(p) => Ok((nodes, p))
      else if path in nodes[cur].children then Ok((nodes, nodes[cur].children[path]))
      else Err(NoDirectoryPanic)
    case List(list) => Ok((AddEntries(nodes, cur, list), cur))
  }

  /** How many entries the listings hold in all. */
  function EntryCount(cs: seq<Command>): nat
    decreases |cs|
  {
    if cs == [] then 0
    else (if cs[0].List? then |cs[0].list| else 0) + EntryCount(cs[1..])
  }

  /** The commands in order from `cur`; the first panic is the result. */
  function Run(nodes: seq<Node>, cur: nat, cs: seq<Command>): (r: Result<seq<Node>, TreeError>)
    requires WellFormed(nodes) && cur < |nodes|
    ensures r.Ok? ==> WellFormed(r.value) && |r.value| == |nodes| + EntryCount(cs)
    ensures r.Ok? ==> forall i :: 0 <= i < |nodes| ==> SameShape(r.value[i], nodes[i])
    decreases |cs|
  {
    if cs == [] then Ok(nodes)
    else
      var (next, at) :- Step(nodes, cur, cs[0]);
      Run(next, at, cs[1..])
  }

  /** `build_file_tree`: the commands replayed from the root. */
  function BuildFileTree(cs: seq<Command>): (r: Result<seq<Node>, TreeError>)
    ensures r.Ok? ==> WellFormed(r.value) && |r.value| == 1 + EntryCount(cs)
    ensures r.Ok? ==> SameShape(r.value[0], Root)
  {
    Run([Root], 0, cs)
  }

  // ---------------------------------------------------------------------
  // What the tree means
  // ---------------------------------------------------------------------

  /** The chain of parents from node `i` up to the root: every node of a
      well-formed vector hangs under "/". */
  function Ancestors(nodes: seq<Node>, i: nat): (path: seq<nat>)
    requires WellFormed(nodes) && i < |nodes|
    ensures |path| >= 1 && path[0] == i && path[|path| - 1] == 0
    ensures forall k :: 0 <= k < |path| ==> path[k] < |nodes|
    ensures forall k :: 0 <= k < |path| - 1 ==> path[k + 1] < path[k] && nodes[path[k]].parent == Some(path[k + 1])
    decreases i
  {
    if i == 0 then [0] else [i] + Ancestors(nodes, nodes[i].parent.value)
  }

  /** After a listing, `cd` into any listed name other than "/" and ".."
      succeeds and lands on a new node of that name under the listed
      directory. */
  lemma ListThenCd(nodes: seq<Node>, cur: nat, list: seq<ListType>, k: nat)
    requires WellFormed(nodes) && cur < |nodes| && k < |list|
    requires list[k].name != "/" && list[k].name != ".."
    ensures var next := AddEntries(nodes, cur, list);
      var r := Step(next, cur, ChangeDirectory(Some(list[k].name)));
      r.Ok? && r.value.1 >= |nodes| && next[r.value.1].name == list[k].name && next[r.value.1].parent == Some(cur)
  {
    AddEntriesChildren(nodes, cur, list);
    assert list[k].name in Names(list);
  }

  // ---------------------------------------------------------------------
  // Examples
  // ---------------------------------------------------------------------

  /** Listing the same directory twice adds its entries twice; the
      earlier node of a repeated name stays in the vector but its parent
      no longer lists it. */
  lemma RelistLeavesOrphan()
    ensures var r := BuildFileTree([List([Dir("a")]), List([Dir("a")])]);
      r.Ok? && |r.value| == 3 && r.value[0].children == map["a" := 2] &&
      r.value[1].parent == Some(0) && r.value[2].parent == Some(0)
  {
  }

  /** `cd ..` at the root panics. */
  lemma UpFromRootPanics()
    ensures BuildFileTree([ChangeDirectory(Some("/")), ChangeDirectory(Some(".."))]) == Err(NoParentPanic)
  {
  }

  /** `cd` into a name the current directory does not list panics. */
  lemma UnknownDirectoryPanics()
    ensures BuildFileTree([List([Dir("a")]), ChangeDirectory(Some("b"))]) == Err(NoDirectoryPanic)
  {
  }
}
