/** Character-level helpers: decimal numbers, trimming, joining, and ClickHouse quoting. */
module Text {
  import opened Options

  // ---------------------------------------------------------------- characters

  /** StringUtil::CharacterIsSpace */
  predicate IsSpace(c: char) {
    c == ' ' || c == '\t' || c == '\n' || c == '\U{0B}' || c == '\U{0C}' || c == '\r'
  }

  predicate IsDigit(c: char) {
    '0' <= c <= '9'
  }

  // ---------------------------------------------------------------- trimming

  function TrimLeft(s: string): (r: string)
    ensures |r| <= |s|
    ensures r != [] ==> !IsSpace(r[0])
  {
    if s == [] then [] else if IsSpace(s[0]) then TrimLeft(s[1..]) else s
  }

  function TrimRight(s: string): (r: string)
    ensures r <= s
    ensures r != [] ==> !IsSpace(r[|r| - 1])
  {
    if s == [] then [] else if IsSpace(s[|s| - 1]) then TrimRight(s[..|s| - 1]) else s
  }

  function Trim(s: string): string {
    TrimRight(TrimLeft(s))
  }

  /** Text that starts and ends with something else than white space. */
  predicate Trimmed(s: string) {
    s != [] && !IsSpace(s[0]) && !IsSpace(s[|s| - 1])
  }

  lemma TrimKeeps(s: string)
    requires Trimmed(s)
    ensures Trim(s) == s
  {
  }

  lemma TrimDropsLeadingSpace(s: string)
    requires Trimmed(s)
    ensures Trim(" " + s) == s
  {
    assert (" " + s)[1..] == s;
    assert TrimLeft(" " + s) == TrimLeft(s);
  }

  // ---------------------------------------------------------------- joining

  function Join(parts: seq<string>, separator: string): string {
    if parts == [] then ""
    else if |parts| == 1 then parts[0]
    else parts[0] + separator + Join(parts[1..], separator)
  }

  // ---------------------------------------------------------------- numbers

  function DigitText(d: nat): string
    requires d < 10
  {
    ["0123456789"[d]]
  }

  /** to_string of an unsigned number */
  function NatText(n: nat): (r: string)
    ensures r != [] && forall k :: 0 <= k < |r| ==> IsDigit(r[k])
  {
    if n < 10 then DigitText(n) else NatText(n / 10) + DigitText(n % 10)
  }

  function DigitValue(c: char): nat
    requires IsDigit(c)
  {
    (c as int) - ('0' as int)
  }

  /** The number the longest prefix of digits of `s` denotes, read after `seen`. */
  function ReadDigits(s: string, seen: nat): nat {
    if s == [] || !IsDigit(s[0]) then seen
    else ReadDigits(s[1..], 10 * seen + DigitValue(s[0]))
  }

  /** std::stoll: white space, a sign, digits; anything after them is ignored. None stands for the exceptions
      invalid_argument and out_of_range. */
  function ParseInteger(s: string): Option<int> {
    var t := TrimLeft(s);
    var negative := t != [] && t[0] == '-';
    var u := if t != [] && (t[0] == '-' || t[0] == '+') then t[1..] else t;
    if u == [] || !IsDigit(u[0]) then None
    else
      var n := if negative then -(ReadDigits(u, 0) as int) else ReadDigits(u, 0);
      if -0x8000_0000_0000_0000 <= n < 0x8000_0000_0000_0000 then Some(n) else None
  }

  lemma {:induction false} ReadDigitsAppend(s: string, t: string, seen: nat)
    requires forall k :: 0 <= k < |s| ==> IsDigit(s[k])
    ensures ReadDigits(s + t, seen) == ReadDigits(t, ReadDigits(s, seen))
  {
    if s == [] {
      assert s + t == t;
    } else {
      assert (s + t)[1..] == s[1..] + t;
      ReadDigitsAppend(s[1..], t, 10 * seen + DigitValue(s[0]));
    }
  }

  lemma {:induction false} ReadNatText(n: nat)
    ensures ReadDigits(NatText(n), 0) == n
  {
    if n < 10 {
      assert DigitText(n)[1..] == [];
    } else {
      ReadNatText(n / 10);
      ReadDigitsAppend(NatText(n / 10), DigitText(n % 10), 0);
      assert DigitText(n % 10)[1..] == [];
      assert ReadDigits(DigitText(n % 10), n / 10) == 10 * (n / 10) + n % 10;
    }
  }

  /** Numbers are printed and parsed back unchanged. */
  lemma ParseNatText(n: nat)
    requires n < 0x8000_0000_0000_0000
    ensures ParseInteger(NatText(n)) == Some(n)
  {
    ReadNatText(n);
    assert IsDigit(NatText(n)[0]);
    assert TrimLeft(NatText(n)) == NatText(n);
  }

  // ---------------------------------------------------------------- quoting

  /** One character of a quoted text, escaped if need be. */
  function QuoteChar(c: char, quote: char): string {
    if c == '\\' || c == quote then ['\\', c] else [c]
  }

  function QuoteBody(text: string, quote: char): string {
    if text == [] then [] else QuoteChar(text[0], quote) + QuoteBody(text[1..], quote)
  }

  function QuoteWith(text: string, quote: char): string {
    [quote] + QuoteBody(text, quote) + [quote]
  }

  function QuoteIdentifier(identifier: string): string {
    QuoteWith(identifier, '`')
  }

  function QuoteLiteral(literal: string): string {
    QuoteWith(literal, '\'')
  }

  lemma {:induction false} QuoteBodySnoc(text: string, c: char, quote: char)
    ensures QuoteBody(text + [c], quote) == QuoteBody(text, quote) + QuoteChar(c, quote)
  {
    if text == [] {
      assert text + [c] == [c];
      assert [c][1..] == [];
      assert QuoteBody([c], quote) == QuoteChar(c, quote) + QuoteBody([], quote);
    } else {
      assert (text + [c])[1..] == text[1..] + [c];
      QuoteBodySnoc(text[1..], c, quote);
    }
  }

  /** The loop of QuoteWith: escape backslashes and the quote itself, character by character. */
  method QuoteText(text: string, quote: char) returns (result: string)
    ensures result == QuoteWith(text, quote)
  {
    result := [quote];
    for i := 0 to |text|
      invariant result == [quote] + QuoteBody(text[..i], quote)
    {
      var c := text[i];
      assert text[..i + 1] == text[..i] + [c];
      QuoteBodySnoc(text[..i], c, quote);
      if c == '\\' || c == quote {
        result := result + ['\\'];
      }
      result := result + [c];
    }
    assert text[..|text|] == text;
    result := result + [quote];
  }
}
