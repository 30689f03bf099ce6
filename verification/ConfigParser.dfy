/**
The cursor parser. Every method advances `pos` and is proved to read what the grammar says is at the old
position.
*/
module ConfigParser {
  import opened Common
  import opened ConfigGrammar
  import opened ConfigLines

  class Parser {
    const text: string
    var pos: nat

    constructor (text: string)
      ensures this.text == text && pos == 0
    {
      this.text := text;
      pos := 0;
    }

    function Peek(): Option<char>
      reads this
    {
      if pos < |text| then Some(text[pos]) else None
    }

    method Bump() returns (c: Option<char>)
      requires pos <= |text|
      modifies this
      ensures c == old(Peek())
      ensures pos == old(pos) + (if c.None? then 0 else 1) <= |text|
    {
      c := Peek();
      if c.Some? {
        pos := pos + 1;
      }
    }

    method SkipSpaces()
      requires pos <= |text|
      modifies this
      ensures pos == BlankEnd(text, old(pos))
    {
      while Peek() == Some(' ') || Peek() == Some('\t')
        invariant pos <= |text| && BlankEnd(text, pos) == BlankEnd(text, old(pos))
        decreases |text| - pos
      {
        var _ := Bump();
      }
    }

    /** Advance past the next newline, or to the end of the text. */
    method ConsumeLine()
      requires pos <= |text|
      modifies this
      ensures pos == LineEnd(text, old(pos))
    {
      var c := Bump();
      while c.Some? && c != Some('\n')
        invariant pos <= |text| && (c.None? ==> pos == |text|)
        invariant LineEnd(text, old(pos)) == if c == Some('\n') then pos else LineEnd(text, pos)
        decreases |text| - pos, c.Some?
      {
        c := Bump();
      }
    }

    /** `[section]`, `[section "subsection"]` or `[section.subsection]`, through the closing bracket. */
    method ParseSectionHeader() returns (r: Result<(string, Option<string>), ParseError>)
      requires pos < |text|
      modifies this
      ensures pos <= |text|
      ensures match Header(text, old(pos))
              case Err(e) => r == Err(e)
              case Ok(Read(header, next)) => r == Ok(header) && pos == next
    {
      hide QuotedSubsection, BlankEnd, Lower, IndexOfDot;
      ghost var start := pos + 1;
      var _ := Bump();
      var section := "";
      while Peek().Some? && NameChar(Peek().value, true)
        invariant old(pos) < pos <= |text| && NameEnd(text, pos, true) == NameEnd(text, old(pos) + 1, true)
        invariant section == text[old(pos) + 1..pos]
        decreases |text| - pos
      {
        section := section + [Peek().value];
        var _ := Bump();
      }
      ghost var nameEnd := pos;
      assert nameEnd == NameEnd(text, start, true);
      hide NameEnd;
      SkipSpaces();
      var subsection: Option<string> := None;
      if Peek() == Some('"') {
        var quoted := ParseQuotedSubsection();
        if quoted.Err? {
          return Err(quoted.error);
        }
        subsection := Some(quoted.value);
      } else {
        var dot := IndexOfDot(section);
        if dot < |section| {
          subsection := Some(Lower(section[dot + 1..]));
          section := section[..dot];
        }
      }
      SkipSpaces();
      var close := Bump();
      if close != Some(']') {
        return Err(ExpectedBracket);
      }
      return Ok((Lower(section), subsection));
    }

    method ParseQuotedSubsection() returns (r: Result<string, ParseError>)
      requires pos < |text|
      modifies this
      ensures pos <= |text|
      ensures match QuotedSubsection(text, old(pos) + 1, "")
              case Err(e) => r == Err(e)
              case Ok(Read(subsection, next)) => r == Ok(subsection) && pos == next
    {
      var _ := Bump();
      var out := "";
      while true
        invariant pos <= |text| && QuotedSubsection(text, pos, out) == QuotedSubsection(text, old(pos) + 1, "")
        decreases |text| - pos
      {
        var c := Bump();
        if c == None || c == Some('\n') {
          return Err(UnterminatedSubsection);
        } else if c == Some('"') {
          return Ok(out);
        } else if c == Some('\\') {
          var next := Bump();
          if next == None {
            return Err(UnterminatedSubsection);
          }
          out := out + [next.value];
        } else {
          out := out + [c.value];
        }
      }
    }

    /** Name and, after an `=`, value with its absolute span; consumes the line end. */
    method ParseVariable() returns (r: Result<(string, Option<(string, Span)>), ParseError>)
      requires pos <= |text|
      modifies this
      ensures pos <= |text|
      ensures match VariableLine(text, old(pos))
              case Err(e) => r == Err(e)
              case Ok(Read(variable, next)) => r == Ok(variable) && pos == next
    {
      var name := "";
      while Peek().Some? && NameChar(Peek().value, false)
        invariant old(pos) <= pos <= |text| && NameEnd(text, pos, false) == NameEnd(text, old(pos), false)
        invariant name == text[old(pos)..pos]
        decreases |text| - pos
      {
        name := name + [Peek().value];
        var _ := Bump();
      }
      SkipSpaces();
      var value: Option<(string, Span)> := None;
      var next := Peek();
      if next == Some('=') {
        var _ := Bump();
        var v := ParseValue();
        if v.Err? {
          return Err(v.error);
        }
        value := Some(v.value);
      } else if next == Some('#') || next == Some(';') {
        ConsumeLine();
      } else if next == Some('\n') || next == None {
        var _ := Bump();
      } else if next == Some('\r') {
        ConsumeLine();
      } else {
        return Err(ExpectedEquals(next.value));
      }
      return Ok((Lower(name), value));
    }

    /** What an escape stands for, after its backslash: nothing for a continuation, LF or CRLF. */
    method ParseEscape() returns (r: Result<string, ParseError>)
      requires 0 < pos <= |text|
      modifies this
      ensures pos <= |text|
      ensures match Escape(text, old(pos) - 1)
              case Err(e) => r == Err(e)
              case Ok(Read(decoded, next)) => r == Ok(decoded) && pos == next
    {
      var escaped := Bump();
      if escaped == Some('\n') {
        return Ok("");
      } else if escaped == Some('\r') && Peek() == Some('\n') {
        var _ := Bump();
        return Ok("");
      } else if escaped == Some('"') {
        return Ok("\"");
      } else if escaped == Some('\\') {
        return Ok("\\");
      } else if escaped == Some('n') {
        return Ok("\n");
      } else if escaped == Some('t') {
        return Ok("\t");
      } else if escaped == Some('b') {
        return Ok("\U{8}");
      }
      return Err(InvalidEscape(if escaped.Some? then escaped.value else ' '));
    }

    /** The decoded value and its absolute span; consumes the line end and any comment. */
    method ParseValue() returns (r: Result<(string, Span), ParseError>)
      requires pos <= |text|
      modifies this
      ensures pos <= |text|
      ensures match Value(text, old(pos))
              case Err(e) => r == Err(e)
              case Ok(Read(value, next)) => r == Ok(value) && pos == next
    {
      hide LineEnd, BlankEnd, ScanValue, Escape;
      SkipSpaces();
      var valueStart, valueEnd := pos, pos;
      var value := "";
      var quoted, pendingSpaces := false, 0;
      while pos < |text|
        invariant valueStart <= valueEnd <= pos <= |text|
        invariant ScanValue(text, pos, Partial(value, valueEnd, quoted, pendingSpaces)) ==
                  ScanValue(text, valueStart, Partial("", valueStart, false, 0))
        decreases |text| - pos
      {
        ghost var turn := Step(text, pos, Partial(value, valueEnd, quoted, pendingSpaces));
        ScanTurn(text, pos, Partial(value, valueEnd, quoted, pendingSpaces));
        var bumped := Bump();
        var c := bumped.value;
        if c == '\n' && !quoted {
          return Ok((value, Span(valueStart, valueEnd)));
        } else if c == '\n' {
          return Err(UnterminatedQuote);
        } else if c == '\r' && !quoted && Peek() == Some('\n') {
          var _ := Bump();
          return Ok((value, Span(valueStart, valueEnd)));
        } else if IsBlank(c) && !quoted {
          pendingSpaces := pendingSpaces + 1;
          continue;
        } else if (c == '#' || c == ';') && !quoted {
          ConsumeLine();
          return Ok((value, Span(valueStart, valueEnd)));
        }
        value := value + Spaces(pendingSpaces);
        pendingSpaces := 0;
        if c == '\\' {
          var escaped := ParseEscape();
          if escaped.Err? {
            return Err(escaped.error);
          }
          value := value + escaped.value;
        } else if c == '"' {
          quoted := !quoted;
        } else {
          value := value + [c];
        }
        valueEnd := pos;
        assert turn == More(pos, Partial(value, valueEnd, quoted, 0));
      }
      ScanEnds(text, Partial(value, valueEnd, quoted, pendingSpaces));
      return Ok((value, Span(valueStart, valueEnd)));
    }
  }

  lemma ScanTurn(text: string, pos: nat, p: Partial)
    requires p.end <= pos < |text|
    ensures ScanValue(text, pos, p) ==
            match Step(text, pos, p)
            case Stop(next) => Ok(Read((p.value, p.end), next))
            case Fail(e) => Err(e)
            case More(next, p') => ScanValue(text, next, p')
  {
  }

  lemma ScanEnds(text: string, p: Partial)
    requires p.end <= |text|
    ensures ScanValue(text, |text|, p) == Ok(Read((p.value, p.end), |text|))
  {
  }

  /** A text parses to its lines, or is rejected at its first bad line. */
  method Parse(text: string) returns (r: Result<seq<Element>, ParseError>)
    ensures forall es :: r == Ok(es) <==> Lines(text, 0, None, es, |text|)
    ensures forall e :: r == Err(e) <==> Rejected(text, e)
    ensures r == Elements(text, 0, None)
  {
    hide Lines, Rejected, Elements;
    r := ParseElements(text);
    forall es ensures r == Ok(es) <==> Lines(text, 0, None, es, |text|) { ParsesIffLines(text, es); }
    forall e ensures r == Err(e) <==> Rejected(text, e) { RejectsIffBadLine(text, e); }
  }

  /** The loop over lines: classifies each by its first character that is no blank, and keeps its text. */
  method ParseElements(text: string) returns (r: Result<seq<Element>, ParseError>)
    ensures r == Elements(text, 0, None)
  {
    hide LineEnd, VariableLine, Header, Elements, Continued;
    var parser := new Parser(text);
    var elements: seq<Element> := [];
    var section: Scope := None;
    ContinuedNothing(Elements(text, 0, None));
    while parser.pos < |text|
      invariant parser.text == text && parser.pos <= |text|
      invariant Elements(text, 0, None) == Continued(elements, Elements(text, parser.pos, section))
      decreases |text| - parser.pos
    {
      ghost var scope := section;
      var lineStart := parser.pos;
      ContinuedError(text, lineStart, section, elements);
      var probe := parser.pos;
      while probe < |text| && IsBlank(text[probe])
        invariant lineStart <= probe <= |text| && BlankEnd(text, probe) == BlankEnd(text, lineStart)
      {
        probe := probe + 1;
      }
      if probe == |text| || text[probe] in "\n\r#;" {
        parser.ConsumeLine();
        elements := elements + [Filler(text[lineStart..parser.pos])];
      } else if text[probe] == '[' {
        parser.pos := probe;
        var header := parser.ParseSectionHeader();
        if header.Err? {
          return Err(header.error);
        }
        parser.ConsumeLine();
        var (sec, sub) := header.value;
        section := Some((sec, sub));
        elements := elements + [Section(sec, sub, text[lineStart..parser.pos])];
      } else if IsAlpha(text[probe]) {
        parser.pos := probe;
        var variable := parser.ParseVariable();
        if variable.Err? {
          return Err(variable.error);
        }
        var (name, value) := variable.value;
        if section.None? {
          return Err(VariableBeforeSection);
        }
        var (sec, sub) := section.value;
        var raw := text[lineStart..parser.pos];
        if value.Some? {
          var (v, span) := value.value;
          elements := elements + [Variable(sec, sub, name, Some(v), raw, Some(Span(span.start - lineStart, span.end - lineStart)))];
        } else {
          elements := elements + [Variable(sec, sub, name, None, raw, None)];
        }
      } else {
        return Err(UnexpectedCharacter(text[probe]));
      }
      ghost var last := elements[|elements| - 1];
      assert ElementAt(text, lineStart, scope) == Ok(Read(last, parser.pos)) && section == ScopeAfter(last, scope);
      ContinuedOne(text, lineStart, scope, elements[..|elements| - 1]);
    }
    ContinuedToEnd(text, section, elements);
    return Ok(elements);
  }

  lemma ContinuedError(text: string, pos: nat, scope: Scope, elements: seq<Element>)
    requires pos < |text|
    ensures ElementAt(text, pos, scope).Err? ==>
              Continued(elements, Elements(text, pos, scope)) == Err(ElementAt(text, pos, scope).error)
  {
  }

  lemma ContinuedToEnd(text: string, scope: Scope, elements: seq<Element>)
    ensures Continued(elements, Elements(text, |text|, scope)) == Ok(elements)
  {
    assert elements + [] == elements;
  }

  lemma ContinuedNothing(r: Result<seq<Element>, ParseError>)
    ensures Continued([], r) == r
  {
    if r.Ok? { assert [] + r.value == r.value; }
  }

  lemma ContinuedOne(text: string, pos: nat, scope: Scope, elements: seq<Element>)
    requires pos < |text| && ElementAt(text, pos, scope).Ok?
    ensures var Read(first, next) := ElementAt(text, pos, scope).value;
            Continued(elements, Elements(text, pos, scope)) ==
            Continued(elements + [first], Elements(text, next, ScopeAfter(first, scope)))
  {
    var Read(first, next) := ElementAt(text, pos, scope).value;
    var rest := Elements(text, next, ScopeAfter(first, scope));
    if rest.Ok? { assert elements + ([first] + rest.value) == elements + [first] + rest.value; }
  }

  /** A parse whose first elements are already read. */
  ghost function Continued(elements: seq<Element>, rest: Result<seq<Element>, ParseError>): Result<seq<Element>, ParseError> {
    match rest
    case Err(e) => Err(e)
    case Ok(more) => Ok(elements + more)
  }
}
