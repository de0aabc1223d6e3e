/**
 Values in the configuration file format: how `configutl` prints one, and what the
 configuration parser makes of the printed line.
 */
module ConfText {
  import opened Wrappers

  // ----- printing (print_escaped_value) -----

  /** How a character is printed: as it is, after a backslash, or as a quoted space. */
  datatype Kind = Plain | Escaped(shown: char) | QuotedSpace

  /** The kind of a character; `edge` holds for the first and the last one. */
  function TokenKind(c: char, edge: bool): (k: Kind)
    ensures k.Plain? ==>
      c != '\\' && c != '#' && c != '"' && c != '\'' && c != '$' && !Control(c) && (edge ==> c != ' ')
    ensures k.Escaped? ==> Unescape(k.shown) == c && c != '`' && k.shown != '`' && k.shown != ' ' && !Control(k.shown)
    ensures k.Escaped? && k.shown == '\\' ==> c == '\\'
    ensures k.QuotedSpace? ==> c == ' '
  {
    if c == '"' || c == '\'' || c == '#' || c == '\\' || c == '$' then Escaped(c)
    else if c == '\n' then Escaped('n')
    else if c == '\r' then Escaped('r')
    else if c == '\U{8}' then Escaped('b')
    else if c == '\t' then Escaped('t')
    else if c == ' ' && edge then QuotedSpace
    else Plain
  }

  /** The text of one character. */
  function Token(c: char, edge: bool): string {
    match TokenKind(c, edge)
    case Plain => [c]
    case Escaped(d) => ['\\', d]
    case QuotedSpace => "\" \""
  }

  /** Characters that must not appear as they are. */
  predicate Control(c: char) {
    c == '\n' || c == '\r' || c == '\t' || c == '\U{8}'
  }

  predicate Edge(value: string, i: nat) {
    i == 0 || i + 1 == |value|
  }

  /** The printed form of the value from position `i` on. */
  function EscapeFrom(value: string, i: nat): string
    requires i <= |value|
    decreases |value| - i
  {
    if i == |value| then "" else Token(value[i], Edge(value, i)) + EscapeFrom(value, i + 1)
  }

  function Escape(value: string): string {
    EscapeFrom(value, 0)
  }

  /** The switch of the printer. */
  method PrintChar(c: char, edge: bool) returns (t: string)
    ensures t == Token(c, edge)
  {
    match c {
      case '"' => t := ['\\', c];
      case '\'' => t := ['\\', c];
      case '#' => t := ['\\', c];
      case '\\' => t := ['\\', c];
      case '$' => t := ['\\', c];
      case '\n' => t := "\\n";
      case '\r' => t := "\\r";
      case '\U{8}' => t := "\\b";
      case '\t' => t := "\\t";
      case ' ' => t := if edge then "\" \"" else [c];
      case _ => t := [c];
    }
  }

  lemma MoveToken(out: string, t: string, rest: string)
    ensures out + (t + rest) == out + t + rest
  {
  }

  method PrintEscapedValue(value: string) returns (out: string)
    ensures out == Escape(value)
  {
    out := "";
    var p := 0;
    while p < |value|
      invariant 0 <= p <= |value|
      invariant out + EscapeFrom(value, p) == Escape(value)
    {
      var t := PrintChar(value[p], p == 0 || p + 1 == |value|);
      MoveToken(out, t, EscapeFrom(value, p + 1));
      out := out + t;
      p := p + 1;
    }
  }

  // ----- parsing (conf_def.c with the default character table) -----

  predicate IsWs(c: char) { c == ' ' || c == '\t' || c == '\n' || c == '\r' }
  predicate IsQuote(c: char) { c == '"' || c == '\'' || c == '`' }

  /** `clear_comments`: cut at the first '#' outside quotes; a backslash protects one character. */
  function ClearComments(s: string, quote: Option<char>): string
    decreases |s|
  {
    if s == "" then ""
    else if s[0] == '\\' then (if |s| == 1 then s else s[..2] + ClearComments(s[2..], quote))
    else if quote.Some? then [s[0]] + ClearComments(s[1..], if s[0] == quote.value then None else quote)
    else if s[0] == '#' then ""
    else [s[0]] + ClearComments(s[1..], if IsQuote(s[0]) then Some(s[0]) else None)
  }

  function EatWs(s: string): string {
    if s != "" && IsWs(s[0]) then EatWs(s[1..]) else s
  }

  function TrimWs(s: string): string {
    if s != "" && IsWs(s[|s| - 1]) then TrimWs(s[..|s| - 1]) else s
  }

  function Unescape(c: char): char {
    if c == 'r' then '\r' else if c == 'n' then '\n' else if c == 'b' then '\U{8}' else if c == 't' then '\t' else c
  }

  function Prepend(c: char, rest: Option<string>): Option<string> {
    if rest.None? then None else Some([c] + rest.value)
  }

  /** `str_copy`: quotes are dropped, escapes are resolved, inside quotes only to the
      character itself. None stands for a variable reference. The parser's table counts
      the backquote among the quotes; `bq` tells whether to follow it. */
  function StrCopy(s: string, quote: Option<char>, bq: bool): Option<string>
    decreases |s|
  {
    if s == "" then Some("")
    else if s[0] == '\\' then
      if |s| == 1 then Some("")
      else Prepend(if quote.Some? then s[1] else Unescape(s[1]), StrCopy(s[2..], quote, bq))
    else if quote.Some? then
      if s[0] == quote.value then StrCopy(s[1..], None, bq) else Prepend(s[0], StrCopy(s[1..], quote, bq))
    else if IsQuote(s[0]) && (bq || s[0] != '`') then StrCopy(s[1..], Some(s[0]), bq)
    else if s[0] == '$' then None
    else Prepend(s[0], StrCopy(s[1..], None, bq))
  }

  /** The value of an assignment, from the text after the equals sign. */
  function ParseValue(s: string): Option<string> {
    StrCopy(TrimWs(EatWs(s)), None, true)
  }

  // ----- what the printed form looks like -----

  lemma TokenShape(c: char, edge: bool)
    ensures var t := Token(c, edge);
      && 1 <= |t| <= 3
      && (forall k :: 0 <= k < |t| ==> !Control(t[k]))
      && (edge ==> !IsWs(t[0]) && !IsWs(t[|t| - 1]))
      && (t[|t| - 1] == '\\' ==> |t| == 2 && t[0] == '\\')
  {
  }

  /** No raw newline, carriage return, tab or backspace. */
  lemma {:induction false} PrintedIsOneLine(value: string, i: nat)
    requires i <= |value|
    ensures forall k :: 0 <= k < |EscapeFrom(value, i)| ==> !Control(EscapeFrom(value, i)[k])
    decreases |value| - i
  {
    if i < |value| {
      PrintedIsOneLine(value, i + 1);
      TokenShape(value[i], Edge(value, i));
      var t, rest := Token(value[i], Edge(value, i)), EscapeFrom(value, i + 1);
      assert EscapeFrom(value, i) == t + rest;
      assert forall k :: |t| <= k < |t + rest| ==> (t + rest)[k] == rest[k - |t|];
    }
  }

  /** The end of a printed text: no white space, and no lone backslash that would join the next line. */
  ghost predicate EndsWell(e: string) {
    e != "" && !IsWs(e[|e| - 1]) && (e[|e| - 1] == '\\' ==> |e| >= 2 && e[|e| - 2] == '\\')
  }

  lemma EndsWellAfter(t: string, rest: string)
    requires EndsWell(rest)
    ensures EndsWell(t + rest)
  {
    var e := t + rest;
    assert e[|e| - 1] == rest[|rest| - 1];
    if |rest| >= 2 { assert e[|e| - 2] == rest[|rest| - 2]; }
  }

  lemma {:induction false} PrintedEnd(value: string, i: nat)
    requires i < |value|
    ensures EndsWell(EscapeFrom(value, i))
    decreases |value| - i
  {
    if i + 1 < |value| {
      PrintedEnd(value, i + 1);
      EndsWellAfter(Token(value[i], Edge(value, i)), EscapeFrom(value, i + 1));
    } else {
      LastToken(value[i]);
      assert EscapeFrom(value, i) == Token(value[i], true) + "" == Token(value[i], true);
    }
  }

  lemma LastToken(c: char)
    ensures EndsWell(Token(c, true))
  {
    TokenShape(c, true);
  }

  /** No leading or trailing white space. */
  lemma PrintedEdges(value: string)
    ensures var e := Escape(value);
      if value == "" then e == "" else !IsWs(e[0]) && EndsWell(e)
  {
    if value != "" {
      PrintedEnd(value, 0);
      TokenShape(value[0], true);
    }
  }

  // ----- what the parser makes of it -----

  /** The quote state between two printed characters: none, or inside backquotes. */
  predicate Between(quote: Option<char>) {
    quote == None || quote == Some('`')
  }

  function Toggle(c: char, quote: Option<char>): Option<char> {
    if c != '`' then quote else if quote == None then Some('`') else None
  }

  lemma ClearPlain(c: char, rest: string, quote: Option<char>)
    requires Between(quote) && c != '\\' && c != '#' && c != '"' && c != '\''
    ensures ClearComments([c] + rest, quote) == [c] + ClearComments(rest, Toggle(c, quote))
  {
    assert ([c] + rest)[1..] == rest;
  }

  lemma ClearEscaped(c: char, rest: string, quote: Option<char>)
    ensures ClearComments(['\\', c] + rest, quote) == ['\\', c] + ClearComments(rest, quote)
  {
    var s := ['\\', c] + rest;
    assert s[2..] == rest && s[..2] == ['\\', c];
  }

  lemma ClearToken(c: char, edge: bool, rest: string, quote: Option<char>)
    requires Between(quote)
    ensures ClearComments(Token(c, edge) + rest, quote) == Token(c, edge) + ClearComments(rest, Toggle(c, quote))
  {
    match TokenKind(c, edge)
    case Plain => ClearPlain(c, rest, quote);
    case Escaped(d) => ClearEscaped(d, rest, quote);
    case QuotedSpace => ClearQuotedSpace(rest, quote);
  }

  lemma ClearQuotedSpace(rest: string, quote: Option<char>)
    requires Between(quote)
    ensures ClearComments("\" \"" + rest, quote) == "\" \"" + ClearComments(rest, quote)
  {
    var s1, s2, s3 := ['"'] + rest, [' '] + (['"'] + rest), ['"'] + ([' '] + (['"'] + rest));
    assert "\" \"" + rest == s3 && s3[1..] == s2 && s2[1..] == s1 && s1[1..] == rest;
    var inner := if quote == None then Some('"') else quote;
    var done := ClearComments(rest, quote);
    assert ClearComments(s1, inner) == ['"'] + done;
    assert ClearComments(s2, inner) == [' '] + (['"'] + done);
    assert ClearComments(s3, quote) == ['"'] + ([' '] + (['"'] + done));
  }

  /** Nothing in a printed value is taken for a comment. */
  lemma {:induction false} ClearPrinted(value: string, i: nat, quote: Option<char>)
    requires i <= |value| && Between(quote)
    ensures ClearComments(EscapeFrom(value, i), quote) == EscapeFrom(value, i)
    decreases |value| - i
  {
    if i < |value| {
      ClearPrinted(value, i + 1, Toggle(value[i], quote));
      ClearToken(value[i], Edge(value, i), EscapeFrom(value, i + 1), quote);
    }
  }

  /** What one printed character is read as: itself, or, inside backquotes, its raw text. */
  function Reading(c: char, edge: bool, quote: Option<char>, bq: bool): string {
    if c == '`' && bq then ""
    else if quote == None then [c]
    else match TokenKind(c, edge)
      case Plain => [c]
      case Escaped(d) => [d]
      case QuotedSpace => "\" \""
  }

  /** The quote state after a character. */
  function After(c: char, quote: Option<char>, bq: bool): Option<char> {
    if bq then Toggle(c, quote) else quote
  }

  function Append(a: string, rest: Option<string>): Option<string> {
    if rest.None? then None else Some(a + rest.value)
  }

  lemma CopyToken(c: char, edge: bool, rest: string, quote: Option<char>, bq: bool)
    requires Between(quote) && (!bq ==> quote == None)
    ensures StrCopy(Token(c, edge) + rest, quote, bq)
         == Append(Reading(c, edge, quote, bq), StrCopy(rest, After(c, quote, bq), bq))
  {
    match TokenKind(c, edge)
    case Plain => CopyPlain(c, rest, quote, bq);
    case Escaped(d) => assert (['\\', d] + rest)[2..] == rest;
    case QuotedSpace => CopyQuotedSpace(rest, quote, bq);
  }

  lemma CopyPlain(c: char, rest: string, quote: Option<char>, bq: bool)
    requires Between(quote) && (!bq ==> quote == None)
    requires c != '\\' && c != '"' && c != '\'' && c != '$'
    ensures StrCopy([c] + rest, quote, bq)
         == Append(if c == '`' && bq then "" else [c], StrCopy(rest, After(c, quote, bq), bq))
  {
    assert ([c] + rest)[1..] == rest;
    var done := StrCopy(rest, After(c, quote, bq), bq);
    if done.Some? { assert "" + done.value == done.value; }
  }

  lemma CopyQuotedSpace(rest: string, quote: Option<char>, bq: bool)
    requires Between(quote)
    ensures StrCopy("\" \"" + rest, quote, bq)
         == Append(if quote == None then " " else "\" \"", StrCopy(rest, quote, bq))
  {
    var s1, s2, s3 := ['"'] + rest, [' '] + (['"'] + rest), ['"'] + ([' '] + (['"'] + rest));
    assert "\" \"" + rest == s3 && s3[1..] == s2 && s2[1..] == s1 && s1[1..] == rest;
    var done := StrCopy(rest, quote, bq);
    if quote == None {
      assert StrCopy(s1, Some('"'), bq) == done;
      assert StrCopy(s2, Some('"'), bq) == Prepend(' ', done);
    } else {
      assert StrCopy(s1, quote, bq) == Prepend('"', done);
      assert StrCopy(s2, quote, bq) == Prepend(' ', Prepend('"', done));
      if done.Some? { assert ['"'] + ([' '] + (['"'] + done.value)) == "\" \"" + done.value; }
    }
  }

  function Readings(value: string, i: nat, quote: Option<char>, bq: bool): string
    requires i <= |value|
    decreases |value| - i
  {
    if i == |value| then ""
    else Reading(value[i], Edge(value, i), quote, bq) + Readings(value, i + 1, After(value[i], quote, bq), bq)
  }

  lemma {:induction false} CopyPrinted(value: string, i: nat, quote: Option<char>, bq: bool)
    requires i <= |value| && Between(quote) && (!bq ==> quote == None)
    ensures StrCopy(EscapeFrom(value, i), quote, bq) == Some(Readings(value, i, quote, bq))
    decreases |value| - i
  {
    if i < |value| {
      CopyPrinted(value, i + 1, After(value[i], quote, bq), bq);
      CopyNext(value, i, quote, bq);
    }
  }

  lemma CopyNext(value: string, i: nat, quote: Option<char>, bq: bool)
    requires i < |value| && Between(quote) && (!bq ==> quote == None)
    ensures StrCopy(EscapeFrom(value, i), quote, bq)
         == Append(Reading(value[i], Edge(value, i), quote, bq),
                   StrCopy(EscapeFrom(value, i + 1), After(value[i], quote, bq), bq))
  {
    CopyToken(value[i], Edge(value, i), EscapeFrom(value, i + 1), quote, bq);
  }

  lemma {:induction false} ReadingsAreValue(value: string, i: nat, bq: bool)
    requires i <= |value| && (bq ==> '`' !in value[i..])
    ensures Readings(value, i, None, bq) == value[i..]
    decreases |value| - i
  {
    if i < |value| {
      assert value[i..] == [value[i]] + value[i + 1..];
      ReadingsAreValue(value, i + 1, bq);
    }
  }

  lemma {:induction false} ReadingsHaveNoBackquote(value: string, i: nat, quote: Option<char>)
    requires i <= |value| && Between(quote)
    ensures '`' !in Readings(value, i, quote, true)
    decreases |value| - i
  {
    if i < |value| { ReadingsHaveNoBackquote(value, i + 1, Toggle(value[i], quote)); }
  }

  /** The parser reads a printed value back exactly when it holds no backquote, which the
      parser takes for a quotation mark and the printer does not escape. */
  lemma PrintedValueReadsBack(value: string)
    ensures ParseValue(" " + Escape(value)) == Some(value) <==> '`' !in value
  {
    var e := Escape(value);
    assert (" " + e)[1..] == e;
    PrintedEdges(value);
    assert EatWs(" " + e) == EatWs(e) == e;
    assert TrimWs(e) == e;
    CopyPrinted(value, 0, None, true);
    ReadingsHaveNoBackquote(value, 0, None);
    assert value[0..] == value;
    if '`' !in value { ReadingsAreValue(value, 0, true); }
  }

  /** A reader without backquotes among its quotation marks recovers every value, so
      different values never print alike. */
  lemma PrintedValuesDiffer(a: string, b: string)
    ensures StrCopy(Escape(a), None, false) == Some(a)
    ensures Escape(a) == Escape(b) ==> a == b
  {
    CopyPrinted(a, 0, None, false);
    CopyPrinted(b, 0, None, false);
    ReadingsAreValue(a, 0, false);
    ReadingsAreValue(b, 0, false);
    assert a[0..] == a && b[0..] == b;
  }

  // ----- the whole line -----

  /** The characters of a name (letters, digits, underscore and the table's punctuation). */
  predicate IsNameChar(c: char) {
    || 'a' <= c <= 'z' || 'A' <= c <= 'Z' || '0' <= c <= '9' || c == '_'
    || c == '!' || c == '%' || c == '&' || '*' <= c <= '/' || c == ';' || c == '?' || c == '@'
    || c == '^' || c == '|' || c == '~'
  }

  /** `eat_alpha_numeric`: the end of the name; a backslash protects one character. */
  function NameEnd(s: string, i: nat): (e: nat)
    requires i <= |s|
    ensures i <= e <= |s|
    decreases |s| - i
  {
    if i == |s| then i
    else if s[i] == '\\' then (if i + 1 == |s| then i + 1 else NameEnd(s, i + 2))
    else if IsNameChar(s[i]) then NameEnd(s, i + 1)
    else i
  }

  predicate StartsWith(s: string, p: string) {
    |s| >= |p| && s[..|p|] == p
  }

  /** An assignment line without a section prefix: the name and the value. None for anything else. */
  function ParseLine(line: string): Option<(string, string)> {
    var s := EatWs(ClearComments(line, None));
    if s == "" || s[0] == '[' then None
    else
      var e := NameEnd(s, 0);
      var rest := EatWs(s[e..]);
      if StartsWith(s[e..], "::") || StartsWith(s, ".pragma") || StartsWith(s, ".include") then None
      else if rest == "" || rest[0] != '=' then None
      else match ParseValue(rest[1..])
        case None => None
        case Some(v) => Some((s[..e], v))
  }

  /** The line `print_section` writes, without its newline. */
  function PrintedLine(name: string, value: string): string {
    name + " = " + Escape(value)
  }

  /** Name characters, and any character after a backslash. */
  predicate NameText(s: string)
    decreases |s|
  {
    if s == "" then true
    else if s[0] == '\\' then |s| >= 2 && NameText(s[2..])
    else IsNameChar(s[0]) && NameText(s[1..])
  }

  /** The names that a line can assign to; the empty one is among them. */
  predicate ReadableName(name: string) {
    NameText(name) && !StartsWith(name, ".pragma") && !StartsWith(name, ".include")
  }

  lemma {:induction false} ClearName(name: string, rest: string)
    requires NameText(name)
    ensures ClearComments(name + rest, None) == name + ClearComments(rest, None)
    decreases |name|
  {
    if name == "" {
      assert name + rest == rest && name + ClearComments(rest, None) == ClearComments(rest, None);
    } else if name[0] == '\\' {
      assert name == ['\\', name[1]] + name[2..];
      assert name + rest == ['\\', name[1]] + (name[2..] + rest);
      ClearEscaped(name[1], name[2..] + rest, None);
      ClearName(name[2..], rest);
    } else {
      assert name + rest == [name[0]] + (name[1..] + rest);
      ClearPlain(name[0], name[1..] + rest, None);
      ClearName(name[1..], rest);
    }
  }

  lemma {:induction false} NameEndsAt(name: string, rest: string, i: nat)
    requires i <= |name| && NameText(name[i..]) && rest != "" && rest[0] == ' '
    ensures NameEnd(name + rest, i) == |name|
    decreases |name| - i
  {
    if i < |name| {
      if name[i] == '\\' {
        assert name[i..][2..] == name[i + 2..];
        NameEndsAt(name, rest, i + 2);
      } else {
        assert name[i..][1..] == name[i + 1..];
        NameEndsAt(name, rest, i + 1);
      }
    }
  }

  /** What the parser takes for a name is one, unless the line ends with it. */
  lemma {:induction false} NameEndIsText(s: string, i: nat)
    requires i <= |s| && NameEnd(s, i) < |s|
    ensures NameText(s[i..NameEnd(s, i)])
    decreases |s| - i
  {
    var e := NameEnd(s, i);
    if s[i] == '\\' {
      NameEndIsText(s, i + 2);
      assert s[i..e][2..] == s[i + 2..e];
    } else if IsNameChar(s[i]) {
      NameEndIsText(s, i + 1);
      assert s[i..e][1..] == s[i + 1..e];
    }
  }

  /** Whatever line is read: the name it assigns to is readable. */
  lemma ParsedNameIsReadable(line: string)
    requires ParseLine(line).Some?
    ensures ReadableName(ParseLine(line).value.0)
  {
    var s := EatWs(ClearComments(line, None));
    var e := NameEnd(s, 0);
    assert e < |s|;
    NameEndIsText(s, 0);
    assert s[0..e] == s[..e];
    PrefixOfLine(s, e, ".pragma");
    PrefixOfLine(s, e, ".include");
  }

  lemma PrefixOfLine(s: string, e: nat, p: string)
    requires e <= |s| && !StartsWith(s, p)
    ensures !StartsWith(s[..e], p)
  {
    if e >= |p| { assert s[..e][..|p|] == s[..|p|]; }
  }

  lemma NotDirective(name: string, rest: string, p: string)
    requires rest != "" && rest[0] == ' ' && ' ' !in p && !StartsWith(name, p)
    ensures !StartsWith(name + rest, p)
  {
    var s := name + rest;
    if |p| <= |name| {
      assert s[..|p|] == name[..|p|];
    } else {
      assert |s| >= |p| ==> s[..|p|][|name|] == ' ';
    }
  }

  lemma ClearLine(name: string, value: string)
    requires NameText(name)
    ensures ClearComments(name + (" = " + Escape(value)), None) == name + (" = " + Escape(value))
  {
    var e := Escape(value);
    ClearName(name, " = " + e);
    assert " = " + e == [' '] + (['='] + ([' '] + e));
    ClearPlain(' ', ['='] + ([' '] + e), None);
    ClearPlain('=', [' '] + e, None);
    ClearPlain(' ', e, None);
    ClearPrinted(value, 0, None);
  }

  /** The line from its name on, or, with an empty name, from the equals sign on. */
  lemma LineStart(name: string, e: string)
    requires NameText(name)
    ensures EatWs(name + (" = " + e)) == if name == "" then "= " + e else name + (" = " + e)
  {
    var line := name + (" = " + e);
    if name == "" {
      assert line == " = " + e && line[1..] == "= " + e;
    } else {
      assert line[0] == name[0];
    }
  }

  lemma ParseClearedLine(name: string, e: string)
    requires ReadableName(name) && ClearComments(name + (" = " + e), None) == name + (" = " + e)
    ensures var v := ParseValue(" " + e);
      ParseLine(name + (" = " + e)) == if v.None? then None else Some((name, v.value))
  {
    LineStart(name, e);
    if name == "" { ParseBareEquals(e); } else { ParseNamed(name, e); }
  }

  lemma ParseNamed(name: string, e: string)
    requires ReadableName(name) && name != ""
    requires EatWs(name + (" = " + e)) == name + (" = " + e)
    requires ClearComments(name + (" = " + e), None) == name + (" = " + e)
    ensures var v := ParseValue(" " + e);
      ParseLine(name + (" = " + e)) == if v.None? then None else Some((name, v.value))
  {
    var rest := " = " + e;
    var line := name + rest;
    assert rest[1..] == "= " + e && ("= " + e)[1..] == " " + e;
    assert EatWs(rest) == "= " + e;
    assert name[0..] == name;
    NameEndsAt(name, rest, 0);
    assert line[|name|..] == rest && line[..|name|] == name;
    NotDirective(name, rest, ".pragma");
    NotDirective(name, rest, ".include");
  }

  lemma ParseBareEquals(e: string)
    requires EatWs("" + (" = " + e)) == "= " + e && ClearComments("" + (" = " + e), None) == "" + (" = " + e)
    ensures var v := ParseValue(" " + e);
      ParseLine("" + (" = " + e)) == if v.None? then None else Some(("", v.value))
  {
    var s := "= " + e;
    StartsOtherwise(s, ".pragma");
    StartsOtherwise(s, ".include");
    StartsOtherwise(s, "::");
    assert NameEnd(s, 0) == 0 && s[0..] == s && s[..0] == "";
    assert s[1..] == " " + e && EatWs(s) == s;
  }

  lemma StartsOtherwise(s: string, p: string)
    requires s != "" && p != "" && s[0] != p[0]
    ensures !StartsWith(s, p)
  {
    if |s| >= |p| { assert s[..|p|][0] == s[0]; }
  }

  /** Printing a name and a value and parsing the line gives both back exactly when the name is
      one that a line can assign to and the value holds no backquote. The printed line holds no
      newline unless the name does, and does not end in a backslash that would continue it. */
  lemma PrintedLineReadsBack(name: string, value: string)
    ensures ParseLine(PrintedLine(name, value)) == Some((name, value)) <==> ReadableName(name) && '`' !in value
    ensures '\n' in PrintedLine(name, value) <==> '\n' in name
    ensures value != "" ==> EndsWell(PrintedLine(name, value))
  {
    var e := Escape(value);
    var line := PrintedLine(name, value);
    assert line == name + (" = " + e);
    LineShape(name, value);
    PrintedValueReadsBack(value);
    if ReadableName(name) {
      ClearLine(name, value);
      ParseClearedLine(name, e);
    } else if ParseLine(line).Some? {
      ParsedNameIsReadable(line);
    }
  }

  lemma LineShape(name: string, value: string)
    ensures '\n' in PrintedLine(name, value) <==> '\n' in name
    ensures value != "" ==> EndsWell(PrintedLine(name, value))
  {
    PrintedIsOneLine(value, 0);
    assert forall k :: 0 <= k < |Escape(value)| ==> Escape(value)[k] != '\n';
    if value != "" {
      PrintedEnd(value, 0);
      EndsWellAfter(name + " = ", Escape(value));
    }
  }

  /** The smallest value that is lost: a single backquote is read as an empty value. */
  lemma BackquoteIsLost()
    ensures ParseValue(" " + Escape("`")) == Some("")
  {
    var value := "`";
    var e := Escape(value);
    assert e == "`" by { assert EscapeFrom(value, 1) == ""; assert e == Token('`', true) + ""; }
    assert (" " + e)[1..] == e && EatWs(" " + e) == e && TrimWs(e) == e;
    assert e[1..] == "";
    assert StrCopy(e[1..], Some('`'), true) == Some("");
  }

  /** No '#', '$' or single quote stands unescaped. */
  predicate AllEscaped(e: string)
    decreases |e|
  {
    if e == "" then true
    else if e[0] == '\\' then |e| >= 2 && AllEscaped(e[2..])
    else e[0] != '#' && e[0] != '$' && e[0] != '\'' && AllEscaped(e[1..])
  }

  lemma {:induction false} PrintedIsEscaped(value: string, i: nat)
    requires i <= |value|
    ensures AllEscaped(EscapeFrom(value, i))
    decreases |value| - i
  {
    if i < |value| {
      PrintedIsEscaped(value, i + 1);
      EscapedToken(value[i], Edge(value, i), EscapeFrom(value, i + 1));
    }
  }

  lemma EscapedToken(c: char, edge: bool, rest: string)
    requires AllEscaped(rest)
    ensures AllEscaped(Token(c, edge) + rest)
  {
    match TokenKind(c, edge)
    case Plain => assert ([c] + rest)[1..] == rest;
    case Escaped(d) => assert (['\\', d] + rest)[2..] == rest;
    case QuotedSpace =>
      var s1, s2, s3 := ['"'] + rest, [' '] + (['"'] + rest), ['"'] + ([' '] + (['"'] + rest));
      assert "\" \"" + rest == s3 && s3[1..] == s2 && s2[1..] == s1 && s1[1..] == rest;
      assert AllEscaped(s1) && AllEscaped(s2);
  }
}
