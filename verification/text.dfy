/** The handful of Rust `str` operations the puzzle parsers rely on, on
    strings as `seq<char>`: substring search, `split`, `split_once`,
    `lines`, `split_whitespace`, `trim`, `strip_prefix`/`strip_suffix`
    and integer `parse`.

    Whitespace is the ASCII set (space, tab, line feed, form feed,
    carriage return); the puzzle inputs contain no other white space.
 */
module Text {
  import opened Wrappers

  predicate IsSpace(c: char) {
    c == ' ' || c == '\t' || c == '\n' || c == '\r' || c == '\U{C}'
  }

  predicate IsDigit(c: char) {
    '0' <= c <= '9'
  }

  // ---------------------------------------------------------------------
  // Substring search and splitting
  // ---------------------------------------------------------------------

  /** `pat` occurs in `s` starting at index `k`. */
  predicate OccursAt(s: string, pat: string, k: int) {
    0 <= k && k + |pat| <= |s| && s[k..k + |pat|] == pat
  }

  /** The leftmost occurrence of `pat` in `s` at or after `from`. */
  function FindFrom(s: string, pat: string, from: nat): (r: Option<nat>)
    requires from <= |s|
    ensures r.Some? ==> from <= r.value && OccursAt(s, pat, r.value)
    ensures r.Some? ==> forall k :: from <= k < r.value ==> !OccursAt(s, pat, k)
    ensures r.None? ==> forall k :: from <= k ==> !OccursAt(s, pat, k)
    decreases |s| - from
  {
    if from + |pat| > |s| then None
    else if s[from..from + |pat|] == pat then Some(from)
    else FindFrom(s, pat, from + 1)
  }

  function Find(s: string, pat: string): (r: Option<nat>)
    ensures r.Some? ==> OccursAt(s, pat, r.value)
    ensures r.Some? ==> forall k :: 0 <= k < r.value ==> !OccursAt(s, pat, k)
    ensures r.None? ==> forall k :: !OccursAt(s, pat, k)
  {
    FindFrom(s, pat, 0)
  }

  /** `parts[0] + sep + parts[1] + sep + ... + parts[n-1]`. */
  function Join(parts: seq<string>, sep: string): string
  {
    if |parts| == 0 then []
    else if |parts| == 1 then parts[0]
    else parts[0] + sep + Join(parts[1..], sep)
  }

  /** Rust's `str::split` with a non-empty string pattern: the pieces
      between successive leftmost non-overlapping occurrences of `sep`. */
  function Split(s: string, sep: string): (parts: seq<string>)
    requires |sep| > 0
    ensures |parts| >= 1
    ensures Join(parts, sep) == s
    ensures forall i :: 0 <= i < |parts| ==> |parts[i]| <= |s| && Free(parts[i], sep)
    decreases |s|
  {
    match Find(s, sep)
    case None => [s]
    case Some(i) =>
      SplitAtOccurrence(s, sep, i);
      [s[..i]] + Split(s[i + |sep|..], sep)
  }

  /** Cutting `s` around its first occurrence of `sep`. */
  lemma SplitAtOccurrence(s: string, sep: string, i: nat)
    requires OccursAt(s, sep, i)
    requires forall k :: 0 <= k < i ==> !OccursAt(s, sep, k)
    ensures s == s[..i] + sep + s[i + |sep|..]
    ensures |sep| > 0 ==> Free(s[..i], sep)
  {
    assert s[i..i + |sep|] == sep;
    forall k | |sep| > 0 && 0 <= k <= i && OccursAt(s[..i], sep, k)
      ensures false
    {
      assert s[..i][k..k + |sep|] == s[k..k + |sep|];
      assert OccursAt(s, sep, k);
    }
  }

  /** Splitting at a first occurrence of `sep` that follows `a`. */
  lemma SplitFirst(a: string, sep: string, b: string)
    requires |sep| > 0
    requires forall k :: 0 <= k < |a| ==> !OccursAt(a + sep + b, sep, k)
    ensures Split(a + sep + b, sep) == [a] + Split(b, sep)
  {
    var s := a + sep + b;
    assert s[|a|..|a| + |sep|] == sep;
    assert OccursAt(s, sep, |a|);
    assert Find(s, sep) == Some(|a|);
    assert s[..|a|] == a;
    assert s[|a| + |sep|..] == b;
  }

  /** A string without `sep` is not split at all. */
  lemma SplitWhole(s: string, sep: string)
    requires |sep| > 0 && Free(s, sep)
    ensures Split(s, sep) == [s]
  {
    assert Find(s, sep).None?;
  }

  /** A one-character separator occurs exactly where that character is. */
  lemma FreeOfChar(s: string, c: char)
    requires c !in s
    ensures Free(s, [c])
  {
    forall k | 0 <= k <= |s|
      ensures !OccursAt(s, [c], k)
    {
      if k + 1 <= |s| {
        assert s[k..k + 1][0] == s[k];
        assert s[k] in s;
      }
    }
  }

  /** Splitting at a one-character separator absent from the first piece. */
  lemma SplitFirstChar(a: string, c: char, b: string)
    requires c !in a
    ensures Split(a + [c] + b, [c]) == [a] + Split(b, [c])
  {
    var s := a + [c] + b;
    forall k | 0 <= k < |a|
      ensures !OccursAt(s, [c], k)
    {
      assert s[k] == a[k];
    }
    SplitFirst(a, [c], b);
  }

  /** The last piece ends a joined string. */
  lemma {:induction false} JoinEndsWithLast(parts: seq<string>, sep: string)
    requires |parts| >= 1
    ensures var j := Join(parts, sep); var last := parts[|parts| - 1];
      |last| <= |j| && j[|j| - |last|..] == last
    decreases |parts|
  {
    if |parts| > 1 {
      JoinEndsWithLast(parts[1..], sep);
      var j := Join(parts, sep);
      var rest := Join(parts[1..], sep);
      assert j == parts[0] + sep + rest;
      assert j[|j| - |rest|..] == rest;
    }
  }

  /** Two pieces free of the separator, joined by it, split back apart. */
  lemma SplitTwo(a: string, c: char, b: string)
    requires c !in a && c !in b
    ensures Split(a + [c] + b, [c]) == [a, b]
  {
    SplitFirstChar(a, c, b);
    FreeOfChar(b, c);
    SplitWhole(b, [c]);
  }

  /** Splitting at a one-character separator undoes joining pieces
      that do not contain it. */
  lemma {:induction false} SplitJoinChar(parts: seq<string>, c: char)
    requires |parts| >= 1
    requires forall i :: 0 <= i < |parts| ==> c !in parts[i]
    ensures Split(Join(parts, [c]), [c]) == parts
    decreases |parts|
  {
    if |parts| == 1 {
      FreeOfChar(parts[0], c);
      SplitWhole(parts[0], [c]);
    } else {
      SplitJoinChar(parts[1..], c);
      SplitFirstChar(parts[0], c, Join(parts[1..], [c]));
      assert [parts[0]] + parts[1..] == parts;
    }
  }

  /** A line `Lines` hands back unchanged: no line feed, no final
      carriage return. */
  predicate PlainLine(line: string) {
    '\n' !in line && StripCr(line) == line
  }

  /** Lines undoes joining plain lines with line feeds, when the last
      one is not empty. */
  lemma LinesJoin(parts: seq<string>)
    requires |parts| >= 1 && parts[|parts| - 1] != []
    requires forall i :: 0 <= i < |parts| ==> PlainLine(parts[i])
    ensures Lines(Join(parts, "\n")) == parts
  {
    JoinEndsWithLast(parts, "\n");
    SplitJoinChar(parts, '\n');
    LinesOfPlain(Join(parts, "\n"), parts);
  }

  lemma LinesOfPlain(s: string, parts: seq<string>)
    requires s != [] && Split(s, "\n") == parts && parts[|parts| - 1] != []
    requires forall i :: 0 <= i < |parts| ==> PlainLine(parts[i])
    ensures Lines(s) == parts
  {
    var lines := Lines(s);
    forall i | 0 <= i < |parts|
      ensures lines[i] == parts[i]
    {
      assert PlainLine(parts[i]);
    }
  }

  /** `s` contains no occurrence of `pat`. */
  predicate Free(s: string, pat: string) {
    forall k :: 0 <= k <= |s| ==> !OccursAt(s, pat, k)
  }

  lemma FreeOfNewline(s: string)
    requires Free(s, "\n")
    ensures '\n' !in s
  {
    if '\n' in s {
      var k :| 0 <= k < |s| && s[k] == '\n';
      assert OccursAt(s, "\n", k);
    }
  }

  /** Rust's `str::split_once`: the text before and after the first
      occurrence of `sep`. */
  function SplitOnce(s: string, sep: string): (r: Option<(string, string)>)
    ensures r.Some? ==> r.value.0 + sep + r.value.1 == s
    ensures r.None? <==> forall k :: !OccursAt(s, sep, k)
  {
    match Find(s, sep)
    case None => None
    case Some(i) =>
      SplitAtOccurrence(s, sep, i);
      Some((s[..i], s[i + |sep|..]))
  }

  /** Rust's `str::lines`: pieces separated by line feeds, where a final
      line feed does not start a further (empty) line and a carriage
      return ending a line is dropped. */
  function Lines(s: string): (lines: seq<string>)
    ensures forall i :: 0 <= i < |lines| ==> '\n' !in lines[i]
    ensures s == [] ==> lines == []
    ensures s != [] && Split(s, "\n")[|Split(s, "\n")| - 1] != [] ==>
      |lines| == |Split(s, "\n")| && forall i :: 0 <= i < |lines| ==> lines[i] == StripCr(Split(s, "\n")[i])
  {
    if s == [] then []
    else
      var parts := Split(s, "\n");
      var kept := if parts[|parts| - 1] == [] then parts[..|parts| - 1] else parts;
      assert forall i :: 0 <= i < |kept| ==> '\n' !in StripCr(kept[i]) by {
        forall i | 0 <= i < |kept|
          ensures '\n' !in StripCr(kept[i])
        {
          FreeOfNewline(kept[i]);
        }
      }
      seq(|kept|, i requires 0 <= i < |kept| => StripCr(kept[i]))
  }

  function StripCr(line: string): string
  {
    if |line| > 0 && line[|line| - 1] == '\r' then line[..|line| - 1] else line
  }

  // ---------------------------------------------------------------------
  // White space
  // ---------------------------------------------------------------------

  /** Length of the longest prefix of `s` free of white space. */
  function WordLength(s: string): (n: nat)
    ensures n <= |s|
    ensures forall k :: 0 <= k < n ==> !IsSpace(s[k])
    ensures n < |s| ==> IsSpace(s[n])
  {
    if s == [] || IsSpace(s[0]) then 0 else 1 + WordLength(s[1..])
  }

  /** Rust's `split_whitespace` / `split_ascii_whitespace`: the maximal
      non-empty runs of non-white-space characters, in order. */
  function Words(s: string): (ws: seq<string>)
    ensures forall i :: 0 <= i < |ws| ==> ws[i] != [] && IsWord(ws[i])
    decreases |s|
  {
    if s == [] then []
    else if IsSpace(s[0]) then Words(s[1..])
    else
      var n := WordLength(s);
      [s[..n]] + Words(s[n..])
  }

  predicate IsWord(w: string) {
    forall k :: 0 <= k < |w| ==> !IsSpace(w[k])
  }

  /** The words of a word followed by a space and more text. */
  lemma WordsCons(w: string, rest: string)
    requires w != [] && IsWord(w)
    ensures Words(w + " " + rest) == [w] + Words(rest)
  {
    var s := w + " " + rest;
    var n := WordLength(s);
    assert s[|w|] == ' ';
    assert n == |w|;
    assert s[..n] == w;
    assert s[n..] == " " + rest;
    assert (" " + rest)[1..] == rest;
  }

  /** A single word is its own only word. */
  lemma WordsOfWord(w: string)
    requires w != [] && IsWord(w)
    ensures Words(w) == [w]
  {
    assert WordLength(w) == |w|;
    assert w[..|w|] == w;
    assert w[|w|..] == [];
    assert !IsSpace(w[0]);
  }

  /** Two words with a space between. */
  lemma WordsTwo(a: string, b: string)
    requires a != [] && IsWord(a) && b != [] && IsWord(b)
    ensures Words(a + " " + b) == [a, b]
  {
    WordsCons(a, b);
    WordsOfWord(b);
  }

  /** Trimming a string padded on the left by one space. */
  lemma TrimSpaceWord(w: string)
    requires w != [] && IsWord(w)
    ensures Trim(" " + w) == w
  {
    assert (" " + w)[1..] == w;
    assert TrimStart(" " + w) == w;
  }

  /** Leading white space is what `TrimStart` removes. */
  lemma {:induction false} TrimStartPadded(pad: string, s: string)
    requires forall k :: 0 <= k < |pad| ==> IsSpace(pad[k])
    requires s != [] ==> !IsSpace(s[0])
    ensures TrimStart(pad + s) == s
    decreases |pad|
  {
    if pad != [] {
      assert (pad + s)[1..] == pad[1..] + s;
      TrimStartPadded(pad[1..], s);
    }
  }

  /** Trimming `pad + prefix + rest` where only `pad` is white space at
      either end. */
  lemma TrimPrefixed(pad: string, prefix: string, rest: string)
    requires forall k :: 0 <= k < |pad| ==> IsSpace(pad[k])
    requires prefix != [] && !IsSpace(prefix[0])
    requires rest != [] && !IsSpace(rest[|rest| - 1])
    ensures Trim(pad + (prefix + rest)) == prefix + rest
  {
    var body := prefix + rest;
    TrimStartPadded(pad, body);
    assert body[|body| - 1] == rest[|rest| - 1];
    TrimUnpadded(body);
  }

  /** Trimming a string that neither starts nor ends with white space. */
  lemma TrimUnpadded(s: string)
    requires s != [] ==> !IsSpace(s[0]) && !IsSpace(s[|s| - 1])
    ensures Trim(s) == s
  {
  }

  function TrimStart(s: string): (r: string)
    ensures |r| <= |s|
    ensures r == s[|s| - |r|..]
    ensures r != [] ==> !IsSpace(r[0])
    ensures forall k :: 0 <= k < |s| - |r| ==> IsSpace(s[k])
  {
    if s != [] && IsSpace(s[0]) then TrimStart(s[1..]) else s
  }

  function TrimEnd(s: string): (r: string)
    ensures |r| <= |s|
    ensures r == s[..|r|]
    ensures r != [] ==> !IsSpace(r[|r| - 1])
    ensures forall k :: |r| <= k < |s| ==> IsSpace(s[k])
  {
    if s != [] && IsSpace(s[|s| - 1]) then TrimEnd(s[..|s| - 1]) else s
  }

  /** Rust's `str::trim`. */
  function Trim(s: string): string
  {
    TrimEnd(TrimStart(s))
  }

  /** Rust's `str::strip_prefix`. */
  function StripPrefix(s: string, prefix: string): (r: Option<string>)
    ensures r.Some? <==> prefix <= s
    ensures r.Some? ==> prefix + r.value == s
  {
    if prefix <= s then Some(s[|prefix|..]) else None
  }

  lemma StripPrefixConcat(prefix: string, rest: string)
    ensures StripPrefix(prefix + rest, prefix) == Some(rest)
  {
    assert (prefix + rest)[..|prefix|] == prefix;
    assert (prefix + rest)[|prefix|..] == rest;
  }

  /** Rust's `str::strip_suffix`. */
  function StripSuffix(s: string, suffix: string): (r: Option<string>)
    ensures r.Some? <==> |suffix| <= |s| && s[|s| - |suffix|..] == suffix
    ensures r.Some? ==> r.value + suffix == s
  {
    if |suffix| <= |s| && s[|s| - |suffix|..] == suffix then Some(s[..|s| - |suffix|]) else None
  }

  // ---------------------------------------------------------------------
  // Integers
  // ---------------------------------------------------------------------

  const I32_MIN: int := -0x8000_0000
  const I32_MAX: int := 0x7FFF_FFFF
  const U32_MAX: int := 0xFFFF_FFFF
  const USIZE_MAX: int := 0xFFFF_FFFF_FFFF_FFFF

  predicate AllDigits(s: string) {
    forall k :: 0 <= k < |s| ==> IsDigit(s[k])
  }

  /** Value of a run of decimal digits, most significant first. */
  function DigitsValue(s: string): nat
    requires AllDigits(s)
  {
    if s == [] then 0 else DigitsValue(s[..|s| - 1]) * 10 + (s[|s| - 1] as int - '0' as int)
  }

  /** Rust's `str::parse` for a primitive integer type whose values are
      `lo..=hi`: an optional `+` (or `-` when the type is signed) and at
      least one decimal digit, nothing else, and a value in range. */
  function ParseInteger(s: string, signed: bool, lo: int, hi: int): (r: Option<int>)
    ensures r.Some? ==> lo <= r.value <= hi
    ensures r.Some? ==> s != [] && (IsDigit(s[0]) || s[0] == '+' || (signed && s[0] == '-'))
    ensures r.Some? && s[0] != '-' ==> r.value >= 0
  {
    if s == [] then None
    else if (s[0] == '+' || s[0] == '-') && |s| == 1 then None
    else
      var negative := signed && s[0] == '-';
      var digits := if s[0] == '+' || negative then s[1..] else s;
      if !AllDigits(digits) then None
      else
        var v: int := if negative then 0 - DigitsValue(digits) else DigitsValue(digits);
        if lo <= v <= hi then Some(v) else None
  }

  function ParseI32(s: string): Option<int> {
    ParseInteger(s, true, I32_MIN, I32_MAX)
  }

  function ParseU32(s: string): Option<int> {
    ParseInteger(s, false, 0, U32_MAX)
  }

  function ParseUsize(s: string): Option<int> {
    ParseInteger(s, false, 0, USIZE_MAX)
  }

  /** Decimal rendering of a natural number, the inverse of `DigitsValue`. */
  function NatToString(n: nat): (s: string)
    ensures s != [] && AllDigits(s) && IsWord(s)
  {
    if n < 10 then ['0' + n as char]
    else NatToString(n / 10) + ['0' + (n % 10) as char]
  }

  /** Decimal rendering of an integer, with `-` for negative values. */
  function IntToString(v: int): (s: string)
    ensures s != [] && IsWord(s) && ',' !in s && ':' !in s && ' ' !in s
    ensures s[0] == '-' || IsDigit(s[0])
  {
    if v < 0 then "-" + NatToString(-v) else NatToString(v)
  }

  lemma {:induction false} DigitsValueOfNatToString(n: nat)
    ensures DigitsValue(NatToString(n)) == n
    decreases n
  {
    if n >= 10 {
      DigitsValueOfNatToString(n / 10);
      var s := NatToString(n);
      assert s[..|s| - 1] == NatToString(n / 10);
    }
  }

  /** Parsing undoes rendering for every value the integer type holds. */
  lemma ParseIntToString(v: int, signed: bool, lo: int, hi: int)
    requires lo <= v <= hi
    requires signed || v >= 0
    ensures ParseInteger(IntToString(v), signed, lo, hi) == Some(v)
  {
    var s := IntToString(v);
    if v < 0 {
      var ds := NatToString(-v);
      assert s == "-" + ds;
      assert s[1..] == ds;
      DigitsValueOfNatToString(-v);
      assert |s| > 1 && signed && s[0] == '-' && AllDigits(s[1..]);
    } else {
      DigitsValueOfNatToString(v);
      assert IsDigit(s[0]) && AllDigits(s);
    }
  }
}
