/** How the parser's scans (src/clickhouse_types.cpp) treat the texts the printer (src/clickhouse_ddl_types.cpp) makes:
    which texts the argument scan passes over whole, that it undoes joining with commas, that quoted names are read
    back, and how one word, one call and one ENUM entry are scanned. TypeRoundTrip builds on these, type by type. */
module PrintedText {
  import opened Options
  import opened Text
  import opened DdlTypes
  import opened TypeParser

  // ---------------------------------------------------------------- texts the argument scan passes over

  /** Text the scan copies without splitting, wherever it stands outside quotes. */
  ghost predicate Neutral(text: string) {
    forall s: Scan {:trigger Run(text, s)} :: s.Ready() ==> Run(text, s) == s.Append(text)
  }

  /** Text the scan copies without splitting inside parentheses, where commas do not separate. */
  ghost predicate Deep(text: string) {
    forall s: Scan {:trigger Run(text, s)} :: s.Ready() && s.depth > 0 ==> Run(text, s) == s.Append(text)
  }

  predicate IsPlain(c: char) {
    !IsQuote(c) && c != '(' && c != ')' && c != ',' && c != '\\'
  }

  predicate Plain(text: string) {
    forall k :: 0 <= k < |text| ==> IsPlain(text[k])
  }

  lemma AppendAppend(s: Scan, a: string, b: string)
    ensures s.Append(a).Append(b) == s.Append(a + b)
  {
    assert s.current + a + b == s.current + (a + b);
  }

  lemma RunTwo(a: char, b: char, s: Scan)
    ensures Run([a, b], s) == Step(Step(s, a), b)
  {
    assert [a, b][1..] == [b];
    assert [b][1..] == [];
    assert Run([b], Step(s, a)) == Run([], Step(Step(s, a), b));
  }

  lemma NeutralConcat(a: string, b: string)
    requires Neutral(a) && Neutral(b)
    ensures Neutral(a + b)
  {
    forall s: Scan {:trigger Run(a + b, s)} | s.Ready() ensures Run(a + b, s) == s.Append(a + b) {
      RunAppend(a, b, s);
      AppendAppend(s, a, b);
    }
  }

  lemma DeepConcat(a: string, b: string)
    requires Deep(a) && Deep(b)
    ensures Deep(a + b)
  {
    forall s: Scan {:trigger Run(a + b, s)} | s.Ready() && s.depth > 0 ensures Run(a + b, s) == s.Append(a + b) {
      RunAppend(a, b, s);
      AppendAppend(s, a, b);
    }
  }

  lemma {:induction false} RunPlain(text: string, s: Scan)
    requires Plain(text) && s.Ready()
    ensures Run(text, s) == s.Append(text)
  {
    if text == [] {
      assert s.current + [] == s.current;
    } else {
      RunPlain(text[1..], Step(s, text[0]));
      AppendAppend(s, [text[0]], text[1..]);
      assert [text[0]] + text[1..] == text;
    }
  }

  lemma PlainNeutral(text: string)
    requires Plain(text)
    ensures Neutral(text)
  {
    forall s: Scan {:trigger Run(text, s)} | s.Ready() ensures Run(text, s) == s.Append(text) {
      RunPlain(text, s);
    }
  }

  lemma CommaDeep()
    ensures Deep(", ")
  {
    forall s: Scan {:trigger Run(", ", s)} | s.Ready() && s.depth > 0 ensures Run(", ", s) == s.Append(", ") {
      RunTwo(',', ' ', s);
      AppendAppend(s, ",", " ");
    }
  }

  lemma {:induction false} RunQuoteBody(text: string, quote: char, s: Scan)
    requires IsQuote(quote) && s.quote == Some(quote) && !s.bad && !s.escaped
    ensures Run(QuoteBody(text, quote), s) == s.Append(QuoteBody(text, quote))
  {
    if text == [] {
      assert s.current + [] == s.current;
    } else {
      var head, tail := QuoteChar(text[0], quote), QuoteBody(text[1..], quote);
      RunAppend(head, tail, s);
      if text[0] == '\\' || text[0] == quote {
        RunTwo('\\', text[0], s);
        AppendAppend(s, ['\\'], [text[0]]);
        assert ['\\'] + [text[0]] == head;
      } else {
        assert head[1..] == [];
      }
      assert Run(head, s) == s.Append(head);
      RunQuoteBody(text[1..], quote, s.Append(head));
      AppendAppend(s, head, tail);
    }
  }

  /** Whatever a quoted text holds, the scan passes over it. */
  lemma QuotedNeutral(text: string, quote: char)
    requires IsQuote(quote)
    ensures Neutral(QuoteWith(text, quote))
  {
    var body := QuoteBody(text, quote);
    forall s: Scan {:trigger Run(QuoteWith(text, quote), s)} | s.Ready()
      ensures Run(QuoteWith(text, quote), s) == s.Append(QuoteWith(text, quote))
    {
      RunAppend([quote] + body, [quote], s);
      RunAppend([quote], body, s);
      assert [quote][1..] == [];
      var entered := s.Append([quote]).(quote := Some(quote));
      assert Run([quote], s) == entered;
      RunQuoteBody(text, quote, entered);
      AppendAppend(s, [quote], body);
      AppendAppend(s, [quote] + body, [quote]);
    }
  }

  /** name(inner) hides the commas of `inner`. */
  lemma ParenthesesNeutral(name: string, inner: string)
    requires Plain(name) && Deep(inner)
    ensures Neutral(name + "(" + inner + ")")
  {
    var whole := name + "(" + inner + ")";
    forall s: Scan {:trigger Run(whole, s)} | s.Ready() ensures Run(whole, s) == s.Append(whole) {
      RunAppend(name + "(" + inner, ")", s);
      RunAppend(name + "(", inner, s);
      RunAppend(name, "(", s);
      RunPlain(name, s);
      assert "("[1..] == "" && ")"[1..] == "";
      AppendAppend(s, name, "(");
      var inside := s.Append(name + "(").(depth := s.depth + 1);
      assert Run(name + "(", s) == inside;
      assert Run(inner, inside) == inside.Append(inner);
      AppendAppend(s, name + "(", inner);
      AppendAppend(s, name + "(" + inner, ")");
      assert Step(inside.Append(inner), ')') == inside.Append(inner).Append(")").(depth := s.depth);
    }
  }

  ghost predicate AllNeutral(parts: seq<string>) {
    forall k :: 0 <= k < |parts| ==> Neutral(parts[k]) && Trimmed(parts[k])
  }

  lemma {:induction false} JoinDeep(parts: seq<string>)
    requires AllNeutral(parts)
    ensures Deep(Join(parts, ", "))
  {
    if parts == [] {
      PlainNeutral("");
    } else if |parts| > 1 {
      JoinDeep(parts[1..]);
      CommaDeep();
      DeepConcat(parts[0], ", ");
      DeepConcat(parts[0] + ", ", Join(parts[1..], ", "));
    }
  }

  lemma SeparatorSteps(part: string, s: Scan)
    requires Trimmed(part) && s.Ready() && s.depth == 0 && (s.current == "" || s.current == " ")
    ensures Step(Step(s.Append(part), ','), ' ') == Scan(s.parts + [part], " ", 0, None, false, false)
  {
    hide Trim, Trimmed;
    TrimKeeps(part);
    TrimDropsLeadingSpace(part);
    assert "" + part == part && "" + " " == " ";
  }

  lemma RunPart(part: string, s: Scan)
    requires Neutral(part) && Trimmed(part)
    requires s.Ready() && s.depth == 0 && (s.current == "" || s.current == " ")
    ensures Run(part + ", ", s) == Scan(s.parts + [part], " ", 0, None, false, false)
  {
    hide Trim, Run, Trimmed, Step;
    RunAppend(part, ", ", s);
    RunTwo(',', ' ', s.Append(part));
    SeparatorSteps(part, s);
  }

  /** Splitting what was joined gives the parts back. */
  lemma {:induction false} RunJoin(parts: seq<string>, s: Scan)
    requires AllNeutral(parts) && parts != []
    requires s.Ready() && s.depth == 0 && (s.current == "" || s.current == " ")
    ensures var r := Run(Join(parts, ", "), s);
      r.Ready() && r.depth == 0 && r.parts + [Trim(r.current)] == s.parts + parts
  {
    hide Trim, Step;
    var first := parts[0];
    assert Run(first, s) == s.Append(first);
    hide Run, Neutral;
    if |parts| == 1 {
      TrimKeeps(first);
      TrimDropsLeadingSpace(first);
      assert "" + first == first;
    } else {
      var next := Scan(s.parts + [first], " ", 0, None, false, false);
      RunPart(first, s);
      RunAppend(first + ", ", Join(parts[1..], ", "), s);
      RunJoin(parts[1..], next);
      assert s.parts + [first] + parts[1..] == s.parts + parts;
    }
  }

  lemma SplitJoin(parts: seq<string>)
    requires AllNeutral(parts) && parts != []
    ensures Split(Join(parts, ", ")) == Some(parts)
  {
    RunJoin(parts, SCAN_START);
    assert SCAN_START.parts + parts == parts;
  }

  // ---------------------------------------------------------------- parsing one printed text

  predicate IsLetter(c: char) {
    'A' <= c <= 'Z' || 'a' <= c <= 'z'
  }

  /** A type name as it is printed: letters and digits, starting with a letter. */
  predicate Word(name: string) {
    name != "" && IsLetter(name[0]) && forall k :: 0 <= k < |name| ==> IsLetter(name[k]) || IsDigit(name[k])
  }

  /** A text that stands for an unnamed type wherever an argument is expected. */
  ghost predicate TypeLike(text: string) {
    Neutral(text) && Trimmed(text) && !IsLiteralArgument(text) && SplitFieldName(text) == ("", text)
  }

  lemma WordPlain(name: string)
    requires Word(name)
    ensures Plain(name) && Trimmed(name)
  {
  }

  lemma {:induction false} HeadWordUnnamed(name: string, rest: string, i: nat)
    requires Word(name) && (rest == "" || rest[0] == '(') && i <= |name|
    ensures SplitPlainName(name + rest, i) == ("", name + rest)
    decreases |name| - i
  {
    if i < |name| {
      assert (name + rest)[i] == name[i];
      HeadWordUnnamed(name, rest, i + 1);
    } else if rest != "" {
      assert (name + rest)[i] == rest[0];
    }
  }

  /** A bare name parses as itself. */
  lemma ParseWord(name: string, depth: nat)
    requires Word(name) && depth <= MAX_TYPE_NESTING_DEPTH
    ensures TypeLike(name)
    ensures ParseAt(name, depth) == Some(TypeNode(name, [], [], [], name))
  {
    WordPlain(name);
    PlainNeutral(name);
    HeadWordUnnamed(name, "", 0);
    assert name + "" == name;
    TrimKeeps(name);
  }

  /** name(parts) parses into its name and its arguments. */
  lemma ParseCall(name: string, parts: seq<string>, depth: nat)
    requires Word(name) && AllNeutral(parts) && parts != [] && depth <= MAX_TYPE_NESTING_DEPTH
    ensures var text := name + "(" + Join(parts, ", ") + ")";
      TypeLike(text) &&
      ParseAt(text, depth) ==
        match ParseArguments(parts, depth)
        case None => None
        case Some(a) => Some(TypeNode(name, a.children, a.names, a.literals, text))
  {
    var inner := Join(parts, ", ");
    var text := name + "(" + inner + ")";
    WordPlain(name);
    JoinDeep(parts);
    ParenthesesNeutral(name, inner);
    HeadWordUnnamed(name, "(" + inner + ")", 0);
    assert name + ("(" + inner + ")") == text;
    TrimKeeps(text);
    assert text[|name|] == '(';
    var paren := IndexOf(text, '(').value;
    assert paren <= |name|;
    assert text[..paren] == name;
    TrimKeeps(name);
    assert text[paren + 1..|text| - 1] == inner;
    JoinNotBlank(parts);
    SplitJoin(parts);
  }

  lemma JoinNotBlank(parts: seq<string>)
    requires AllNeutral(parts) && parts != []
    ensures Trim(Join(parts, ", ")) != ""
  {
    var text := Join(parts, ", ");
    assert text[0] == parts[0][0];
    assert TrimLeft(text) == text;
    NotBlank(text);
  }

  lemma {:induction false} NotBlank(text: string)
    requires text != "" && !IsSpace(text[0])
    ensures TrimRight(text) != ""
  {
    if IsSpace(text[|text| - 1]) {
      NotBlank(text[..|text| - 1]);
    }
  }

  // ---------------------------------------------------------------- named fields

  /** Unescaping undoes escaping, for any name. */
  lemma {:induction false} ReadQuotedName(name: string, rest: string, quote: char)
    requires IsQuote(quote)
    ensures ReadName(QuoteBody(name, quote) + [quote] + rest, quote) == (name, rest)
  {
    var whole := QuoteBody(name, quote) + [quote] + rest;
    if name == "" {
      assert whole[1..] == rest;
    } else {
      var after := QuoteBody(name[1..], quote) + [quote] + rest;
      assert whole == QuoteChar(name[0], quote) + after;
      ReadQuotedName(name[1..], rest, quote);
      if name[0] == '\\' || name[0] == quote {
        assert whole[2..] == after;
      } else {
        assert whole[1..] == after;
      }
      assert [name[0]] + name[1..] == name;
    }
  }

  lemma FieldText(name: string, text: string)
    requires name != "" && TypeLike(text)
    ensures var field := QuoteIdentifier(name) + " " + text;
      Neutral(field) && Trimmed(field) && !IsLiteralArgument(field) && SplitFieldName(field) == (name, text)
  {
    var field := QuoteIdentifier(name) + " " + text;
    QuotedNeutral(name, '`');
    PlainNeutral(" ");
    NeutralConcat(QuoteIdentifier(name), " ");
    NeutralConcat(QuoteIdentifier(name) + " ", text);
    assert field[|field| - 1] == text[|text| - 1];
    ReadQuotedName(name, " " + text, '`');
    assert field[1..] == QuoteBody(name, '`') + ['`'] + (" " + text);
    TrimDropsLeadingSpace(text);
  }

  // ---------------------------------------------------------------- scalars

  lemma NumberNeutral(n: nat)
    ensures var text := NatText(n); Neutral(text) && Trimmed(text) && IsLiteralArgument(text)
  {
    PlainNeutral(NatText(n));
  }

  lemma UtcNeutral()
    ensures Neutral("'UTC'") && Trimmed("'UTC'")
  {
    PlainNeutral("UTC");
    assert QuoteBody("UTC", '\'') == "UTC" by {
      assert "UTC"[1..] == "TC" && "TC"[1..] == "C" && "C"[1..] == "";
      assert QuoteBody("C", '\'') == "C";
      assert QuoteBody("TC", '\'') == "TC";
    }
    assert QuoteWith("UTC", '\'') == "'UTC'";
    QuotedNeutral("UTC", '\'');
  }

  lemma EntryNeutral(text: string, number: nat)
    ensures var entry := EnumEntryText(text, number); Neutral(entry) && Trimmed(entry) && IsLiteralArgument(entry)
  {
    QuotedNeutral(text, '\'');
    PlainNeutral(" = ");
    PlainNeutral(NatText(number));
    NeutralConcat(QuoteLiteral(text), " = ");
    NeutralConcat(QuoteLiteral(text) + " = ", NatText(number));
  }

  ghost predicate AllLiterals(parts: seq<string>) {
    forall k :: 0 <= k < |parts| ==> parts[k] != "" && IsLiteralArgument(parts[k])
  }

  lemma {:induction false} EntriesNeutral(labels: seq<string>, first: nat)
    ensures AllNeutral(EnumEntryTexts(labels, first)) && AllLiterals(EnumEntryTexts(labels, first))
  {
    if labels != [] {
      EntryNeutral(labels[0], first);
      EntriesNeutral(labels[1..], first + 1);
    }
  }

  lemma LiteralPair(a: string, b: string)
    requires Neutral(a) && Trimmed(a) && IsLiteralArgument(a)
    requires Neutral(b) && Trimmed(b) && IsLiteralArgument(b)
    ensures AllNeutral([a]) && AllLiterals([a]) && AllNeutral([a, b]) && AllLiterals([a, b])
  {
    hide Neutral;
  }
}
