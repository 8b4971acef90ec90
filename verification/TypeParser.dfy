/** The ClickHouse type parser (src/clickhouse_types.cpp, "Parsing"). */
module TypeParser {
  import opened Options
  import opened Text

  /** What ParseInternal makes of a type's text: a name, the types among its arguments and its other arguments. */
  datatype TypeNode = TypeNode(
    name: string,
    children: seq<TypeNode>,   // arguments that are types
    fieldNames: seq<string>,   // one per child, "" when unnamed
    literals: seq<string>,     // numbers, quoted strings and ENUM entries, verbatim
    text: string)              // what the node was parsed from

  // ---------------------------------------------------------------- splitting an argument list

  /** Where a scan of an argument list has got to. */
  datatype Scan = Scan(parts: seq<string>, current: string, depth: nat, quote: Option<char>, escaped: bool, bad: bool)
  {
    predicate Ready() {
      !bad && quote.None? && !escaped
    }

    function Append(text: string): Scan {
      this.(current := current + text)
    }
  }

  const SCAN_START := Scan([], "", 0, None, false, false)

  predicate IsQuote(c: char) {
    c == '\'' || c == '`' || c == '"'
  }

  /** One character of the scan. */
  function Step(s: Scan, c: char): Scan {
    if s.bad then s
    else if s.quote.Some? then
      if s.escaped then s.Append([c]).(escaped := false)
      else if c == '\\' then s.Append([c]).(escaped := true)
      else if c == s.quote.value then s.Append([c]).(quote := None)
      else s.Append([c])
    else if IsQuote(c) then s.Append([c]).(quote := Some(c))
    else if c == '(' then s.Append([c]).(depth := s.depth + 1)
    else if c == ')' then if s.depth == 0 then s.(bad := true) else s.Append([c]).(depth := s.depth - 1)
    else if c == ',' && s.depth == 0 then s.(parts := s.parts + [Trim(s.current)], current := "")
    else s.Append([c])
  }

  function Run(text: string, s: Scan): Scan {
    if text == [] then s else Run(text[1..], Step(s, text[0]))
  }

  /** The top-level comma-separated arguments of `text`, trimmed; None for unbalanced text. */
  function Split(text: string): Option<seq<string>> {
    var s := Run(text, SCAN_START);
    if s.bad || s.depth != 0 || s.quote.Some? then None else Some(s.parts + [Trim(s.current)])
  }

  lemma {:induction false} RunAppend(a: string, b: string, s: Scan)
    ensures Run(a + b, s) == Run(b, Run(a, s))
  {
    if a == [] {
      assert a + b == b;
    } else {
      assert (a + b)[1..] == a[1..] + b;
      RunAppend(a[1..], b, Step(s, a[0]));
    }
  }

  lemma {:induction false} RunBad(text: string, s: Scan)
    requires s.bad
    ensures Run(text, s) == s
  {
    if text != [] {
      RunBad(text[1..], s);
    }
  }

  lemma RunSnoc(text: string, c: char, s: Scan)
    ensures Run(text + [c], s) == Step(Run(text, s), c)
  {
    RunAppend(text, [c], s);
    assert [c][1..] == [];
    assert Run([c], Run(text, s)) == Run([], Step(Run(text, s), c));
  }

  /** The scan with its index and mutable buffers; a backslash inside quotes takes the next character with it. */
  method SplitArguments(text: string) returns (result: Option<seq<string>>)
    ensures result == Split(text)
  {
    var parts: seq<string> := [];
    var depth := 0;
    var quote: Option<char> := None;
    var current := "";
    var i := 0;
    while i < |text|
      invariant 0 <= i <= |text|
      invariant quote.Some? ==> IsQuote(quote.value)
      invariant Run(text[..i], SCAN_START) == Scan(parts, current, depth, quote, false, false) ||
                (i == |text| && quote.Some? && Run(text, SCAN_START).quote.Some?)
    {
      var c := text[i];
      ghost var before := Scan(parts, current, depth, quote, false, false);
      assert text[..i + 1] == text[..i] + [c];
      RunSnoc(text[..i], c, SCAN_START);
      if quote.Some? {
        current := current + [c];
        if c == '\\' && i + 1 < |text| {
          assert text[..i + 2] == text[..i + 1] + [text[i + 1]];
          RunSnoc(text[..i + 1], text[i + 1], SCAN_START);
          i := i + 1;
          current := current + [text[i]];
        } else if c == quote.value {
          quote := None;
        } else if c == '\\' {
          assert text[..i + 1] == text;
          assert Run(text, SCAN_START).quote.Some?;
        }
        i := i + 1;
        continue;
      }
      if IsQuote(c) {
        quote := Some(c);
        current := current + [c];
      } else if c == '(' {
        depth := depth + 1;
        current := current + [c];
      } else if c == ')' {
        if depth == 0 {
          assert text == text[..i + 1] + text[i + 1..];
          RunAppend(text[..i + 1], text[i + 1..], SCAN_START);
          RunBad(text[i + 1..], Run(text[..i + 1], SCAN_START));
          return None;
        }
        depth := depth - 1;
        current := current + [c];
      } else if c == ',' && depth == 0 {
        parts := parts + [Trim(current)];
        current := "";
      } else {
        current := current + [c];
      }
      i := i + 1;
    }
    assert text[..i] == text;
    if depth != 0 || quote.Some? {
      return None;
    }
    return Some(parts + [Trim(current)]);
  }

  // ---------------------------------------------------------------- field names

  predicate IsLiteralArgument(argument: string)
    requires argument != ""
  {
    argument[0] == '\'' || argument[0] == '-' || argument[0] == '+' || IsDigit(argument[0])
  }

  /** The rest of a quoted name, unescaped, and what follows its closing quote. */
  function ReadName(s: string, quote: char): (r: (string, string))
    ensures |r.1| <= |s|
  {
    if s == [] then ("", "")
    else if s[0] == '\\' && |s| > 1 then
      var (name, rest) := ReadName(s[2..], quote);
      ([s[1]] + name, rest)
    else if s[0] == quote then ("", s[1..])
    else
      var (name, rest) := ReadName(s[1..], quote);
      ([s[0]] + name, rest)
  }

  /** An unquoted "name Type": the text before the first white space and the trimmed text after it. */
  function SplitPlainName(argument: string, i: nat): (string, string)
    requires i <= |argument|
    decreases |argument| - i
  {
    if i == |argument| || argument[i] == '(' then ("", argument)
    else if IsSpace(argument[i]) then
      var rest := Trim(argument[i + 1..]);
      if rest == "" then ("", argument) else (argument[..i], rest)
    else SplitPlainName(argument, i + 1)
  }

  /** "name Type" into (name, Type); the name stays empty when there is none. */
  function SplitFieldName(argument: string): (string, string)
    requires argument != ""
  {
    if argument[0] == '`' || argument[0] == '"' then
      var (name, after) := ReadName(argument[1..], argument[0]);
      var rest := Trim(after);
      if rest == "" then ("", argument) else (name, rest)
    else SplitPlainName(argument, 0)
  }

  /** The loop over a quoted name: its unescaped text, and the index after its closing quote. */
  method ScanQuotedName(argument: string) returns (name: string, next: nat)
    requires argument != "" && argument[0] != '\\'
    ensures name == ReadName(argument[1..], argument[0]).0
    ensures ReadName(argument[1..], argument[0]).1 == if next < |argument| then argument[next..] else ""
  {
    ghost var whole := ReadName(argument[1..], argument[0]);
    name := "";
    var i := 1;
    while i < |argument|
      invariant 1 <= i <= |argument|
      invariant whole.0 == name + ReadName(argument[i..], argument[0]).0
      invariant whole.1 == ReadName(argument[i..], argument[0]).1
    {
      ghost var rest := argument[i..];
      assert rest[1..] == argument[i + 1..];
      if argument[i] == '\\' && i + 1 < |argument| {
        assert rest[2..] == argument[i + 2..];
        i := i + 1;
        name := name + [argument[i]];
      } else if argument[i] == argument[0] {
        return name, i + 1;
      } else {
        name := name + [argument[i]];
      }
      i := i + 1;
    }
    next := i + 1;
  }

  /** SplitFieldName with its indices and buffers. */
  method SplitField(argument: string) returns (fieldName: string, typeText: string)
    requires argument != ""
    ensures (fieldName, typeText) == SplitFieldName(argument)
  {
    fieldName, typeText := "", argument;
    if argument[0] == '`' || argument[0] == '"' {
      var name, next := ScanQuotedName(argument);
      var rest := if next < |argument| then Trim(argument[next..]) else "";
      if rest != "" {
        fieldName, typeText := name, rest;
      }
      return;
    }
    var i := 0;
    while i < |argument|
      invariant 0 <= i <= |argument|
      invariant SplitPlainName(argument, 0) == SplitPlainName(argument, i)
    {
      if argument[i] == '(' {
        return;
      }
      if IsSpace(argument[i]) {
        var rest := Trim(argument[i + 1..]);
        if rest != "" {
          fieldName, typeText := argument[..i], rest;
        }
        return;
      }
      i := i + 1;
    }
  }

  // ---------------------------------------------------------------- the parser

  const MAX_TYPE_NESTING_DEPTH := 64

  function IndexOf(s: string, c: char): (r: Option<nat>)
    ensures r.Some? ==> r.value < |s| && s[r.value] == c && c !in s[..r.value]
    ensures r.None? ==> c !in s
  {
    if s == [] then None
    else if s[0] == c then Some(0)
    else
      var i := IndexOf(s[1..], c);
      if i.None? then None else
        assert s[..i.value + 1] == [s[0]] + s[1..][..i.value];
        Some(i.value + 1)
  }

  datatype Arguments = Arguments(children: seq<TypeNode>, names: seq<string>, literals: seq<string>)

  /** ParseInternal: None for malformed text and beyond the nesting limit. */
  function ParseAt(typeText: string, depth: nat): Option<TypeNode>
    decreases MAX_TYPE_NESTING_DEPTH + 1 - depth, 1, 0
  {
    if depth > MAX_TYPE_NESTING_DEPTH then None
    else
      var text := Trim(typeText);
      if text == "" then None
      else
        var paren := IndexOf(text, '(');
        if paren.None? then Some(TypeNode(text, [], [], [], text))
        else if text[|text| - 1] != ')' then None
        else
          var name := Trim(text[..paren.value]);
          var inner := text[paren.value + 1..|text| - 1];
          if Trim(inner) == "" then Some(TypeNode(name, [], [], [], text))
          else
            var arguments :- Split(inner);
            var parsed :- ParseArguments(arguments, depth);
            Some(TypeNode(name, parsed.children, parsed.names, parsed.literals, text))
  }

  function ParseArguments(arguments: seq<string>, depth: nat): (r: Option<Arguments>)
    requires depth <= MAX_TYPE_NESTING_DEPTH
    ensures r.Some? ==> |r.value.children| == |r.value.names|
    decreases MAX_TYPE_NESTING_DEPTH + 1 - depth, 0, arguments
  {
    if arguments == [] then Some(Arguments([], [], []))
    else if arguments[0] == "" then None
    else if IsLiteralArgument(arguments[0]) then
      var rest :- ParseArguments(arguments[1..], depth);
      Some(rest.(literals := [arguments[0]] + rest.literals))
    else
      var (name, text) := SplitFieldName(arguments[0]);
      var child :- ParseAt(text, depth + 1);
      var rest :- ParseArguments(arguments[1..], depth);
      Some(Arguments([child] + rest.children, [name] + rest.names, rest.literals))
  }

  function Parse(typeText: string): Option<TypeNode> {
    ParseAt(typeText, 0)
  }
}
