/**
The git-config grammar as functions from a text and a position in it to what is read there and the position
after it.
*/
module ConfigGrammar {
  import opened Common

  datatype ParseError =
    | UnexpectedCharacter(c: char)
    | VariableBeforeSection
    | ExpectedBracket
    | UnterminatedSubsection
    | ExpectedEquals(c: char)
    | UnterminatedQuote
    | InvalidEscape(c: char)

  /** Half-open range of positions. */
  datatype Span = Span(start: nat, end: nat)

  type Scope = Option<(string, Option<string>)>

  /** One structural piece of a config file with the exact text it was read from. */
  datatype Element =
    | Filler(raw: string)
    | Section(section: string, subsection: Option<string>, raw: string)
    | Variable(section: string, subsection: Option<string>, name: string, value: Option<string>, raw: string,
               span: Option<Span>)

  // ----- Characters -----

  predicate IsBlank(c: char) { c == ' ' || c == '\t' }

  predicate IsAlpha(c: char) { 'a' <= c <= 'z' || 'A' <= c <= 'Z' }

  predicate IsAlnum(c: char) { IsAlpha(c) || '0' <= c <= '9' }

  function LowerChar(c: char): char { if 'A' <= c <= 'Z' then c - 'A' + 'a' else c }

  function Lower(s: string): string { seq(|s|, i requires 0 <= i < |s| => LowerChar(s[i])) }

  function Spaces(n: nat): string { seq(n, _ => ' ') }

  // ----- Runs -----

  /** The first position that is not a space or tab. */
  function BlankEnd(text: string, pos: nat): (end: nat)
    requires pos <= |text|
    ensures pos <= end <= |text|
    ensures end < |text| ==> !IsBlank(text[end])
    decreases |text| - pos
  {
    if pos < |text| && IsBlank(text[pos]) then BlankEnd(text, pos + 1) else pos
  }

  predicate NameChar(c: char, dots: bool) { IsAlnum(c) || c == '-' || (dots && c == '.') }

  /** The end of a variable or (with dots) section name. */
  function NameEnd(text: string, pos: nat, dots: bool): (end: nat)
    requires pos <= |text|
    ensures pos <= end <= |text|
    ensures end < |text| ==> !NameChar(text[end], dots)
    decreases |text| - pos
  {
    if pos < |text| && NameChar(text[pos], dots) then NameEnd(text, pos + 1, dots) else pos
  }

  /** The position after the next newline, or the end of the text. */
  function LineEnd(text: string, pos: nat): (end: nat)
    requires pos <= |text|
    ensures pos <= end <= |text|
    ensures pos < |text| ==> pos < end
    decreases |text| - pos
  {
    if pos == |text| then pos else if text[pos] == '\n' then pos + 1 else LineEnd(text, pos + 1)
  }

  // ----- Section headers -----

  /** What was read and the position after it. */
  datatype Read<T> = Read(value: T, next: nat)

  /** A quoted subsection after its opening quote: a backslash keeps the next character, whatever it is. */
  function QuotedSubsection(text: string, pos: nat, out: string): (r: Result<Read<string>, ParseError>)
    requires pos <= |text|
    ensures r.Ok? ==> pos < r.value.next <= |text|
    decreases |text| - pos
  {
    if pos == |text| || text[pos] == '\n' then Err(UnterminatedSubsection)
    else if text[pos] == '"' then Ok(Read(out, pos + 1))
    else if text[pos] == '\\' then
      if pos + 1 == |text| then Err(UnterminatedSubsection)
      else QuotedSubsection(text, pos + 2, out + [text[pos + 1]])
    else QuotedSubsection(text, pos + 1, out + [text[pos]])
  }

  function IndexOfDot(s: string): (n: nat)
    ensures n <= |s|
    ensures n < |s| ==> s[n] == '.'
    ensures '.' !in s[..n]
  {
    if s == "" || s[0] == '.' then 0 else 1 + IndexOfDot(s[1..])
  }

  /** A header from its opening bracket through the closing one. */
  function Header(text: string, pos: nat): (r: Result<Read<(string, Option<string>)>, ParseError>)
    requires pos < |text|
    ensures r.Ok? ==> pos < r.value.next <= |text| && text[r.value.next - 1] == ']'
  {
    var nameEnd := NameEnd(text, pos + 1, true);
    HeaderTail(text, BlankEnd(text, nameEnd), text[pos + 1..nameEnd])
  }

  /** The subsection after the name and blanks, quoted or from the first dot of the name, and the bracket. */
  function HeaderTail(text: string, open: nat, name: string): (r: Result<Read<(string, Option<string>)>, ParseError>)
    requires open <= |text|
    ensures r.Ok? ==> open < r.value.next <= |text| && text[r.value.next - 1] == ']'
  {
    if open < |text| && text[open] == '"' then
      match QuotedSubsection(text, open + 1, "")
      case Err(e) => Err(e)
      case Ok(Read(subsection, next)) => CloseHeader(text, next, name, Some(subsection))
    else
      var dot := IndexOfDot(name);
      if dot < |name| then CloseHeader(text, open, name[..dot], Some(Lower(name[dot + 1..])))
      else CloseHeader(text, open, name, None)
  }

  function CloseHeader(text: string, pos: nat, section: string, subsection: Option<string>)
    : (r: Result<Read<(string, Option<string>)>, ParseError>)
    requires pos <= |text|
    ensures r.Ok? ==> pos < r.value.next <= |text| && text[r.value.next - 1] == ']'
  {
    var close := BlankEnd(text, pos);
    if close < |text| && text[close] == ']' then Ok(Read((Lower(section), subsection), close + 1))
    else Err(ExpectedBracket)
  }

  // ----- Values -----

  /** The position after an escape and what it decodes to. */
  function Escape(text: string, pos: nat): (r: Result<Read<string>, ParseError>)
    requires pos < |text|
    ensures r.Ok? ==> pos + 2 <= r.value.next <= |text|
  {
    if pos + 1 == |text| then Err(InvalidEscape(' '))
    else
      var c := text[pos + 1];
      if c == '\n' then Ok(Read("", pos + 2))
      else if c == '\r' && pos + 2 < |text| && text[pos + 2] == '\n' then Ok(Read("", pos + 3))
      else if c == '"' then Ok(Read("\"", pos + 2))
      else if c == '\\' then Ok(Read("\\", pos + 2))
      else if c == 'n' then Ok(Read("\n", pos + 2))
      else if c == 't' then Ok(Read("\t", pos + 2))
      else if c == 'b' then Ok(Read("\U{8}", pos + 2))
      else Err(InvalidEscape(c))
  }

  /** The state of the value loop: what is decoded, where its text ends, quoting, and blanks held back. */
  datatype Partial = Partial(value: string, end: nat, quoted: bool, pending: nat) {
    /** The held-back blanks turn out to be inside the value. */
    function Flushed(): string { value + Spaces(pending) }
  }

  /** What one turn of the value loop does: stop after the line end, fail, or go on. */
  datatype ValueStep = Stop(next: nat) | Fail(error: ParseError) | More(next: nat, p: Partial)

  function Step(text: string, pos: nat, p: Partial): (r: ValueStep)
    requires p.end <= pos < |text|
    ensures r.Stop? ==> pos < r.next <= |text|
    ensures r.More? ==> pos < r.next <= |text| && p.end <= r.p.end <= r.next && (r.p.end == p.end || r.p.end == r.next)
  {
    var c := text[pos];
    if c == '\n' then (if p.quoted then Fail(UnterminatedQuote) else Stop(pos + 1))
    else if !p.quoted && c == '\r' && pos + 1 < |text| && text[pos + 1] == '\n' then Stop(pos + 2)
    else if !p.quoted && IsBlank(c) then More(pos + 1, p.(pending := p.pending + 1))
    else if !p.quoted && (c == '#' || c == ';') then Stop(LineEnd(text, pos + 1))
    else if c == '\\' then
      match Escape(text, pos)
      case Err(e) => Fail(e)
      case Ok(Read(decoded, next)) => More(next, Partial(p.Flushed() + decoded, next, p.quoted, 0))
    else if c == '"' then More(pos + 1, Partial(p.Flushed(), pos + 1, !p.quoted, 0))
    else More(pos + 1, Partial(p.Flushed() + [c], pos + 1, p.quoted, 0))
  }

  /** The decoded value and the end of its text, from a loop state on; the position is after the line end. */
  function ScanValue(text: string, pos: nat, p: Partial): (r: Result<Read<(string, nat)>, ParseError>)
    requires p.end <= pos <= |text|
    ensures r.Ok? ==> p.end <= r.value.value.1 <= r.value.next <= |text| && pos <= r.value.next
    ensures r.Ok? && pos < |text| ==> pos < r.value.next
    decreases |text| - pos
  {
    if pos == |text| then Ok(Read((p.value, p.end), pos))
    else match Step(text, pos, p)
      case Stop(next) => Ok(Read((p.value, p.end), next))
      case Fail(e) => Err(e)
      case More(next, p') => ScanValue(text, next, p')
  }

  /** A value after its `=`: leading blanks are skipped; the span excludes trailing blanks and comment. */
  function Value(text: string, pos: nat): (r: Result<Read<(string, Span)>, ParseError>)
    requires pos <= |text|
    ensures r.Ok? ==> pos <= r.value.value.1.start <= r.value.value.1.end <= r.value.next <= |text|
  {
    var start := BlankEnd(text, pos);
    match ScanValue(text, start, Partial("", start, false, 0))
    case Err(e) => Err(e)
    case Ok(Read((value, end), next)) => Ok(Read((value, Span(start, end)), next))
  }

  /** A variable from its name through its line end. */
  function VariableLine(text: string, pos: nat): (r: Result<Read<(string, Option<(string, Span)>)>, ParseError>)
    requires pos <= |text|
    ensures r.Ok? ==> NameEnd(text, pos, false) <= r.value.next <= |text|
    ensures r.Ok? && r.value.value.1.Some? ==>
              pos <= r.value.value.1.value.1.start <= r.value.value.1.value.1.end <= r.value.next
  {
    var nameEnd := NameEnd(text, pos, false);
    var name := Lower(text[pos..nameEnd]);
    var at := BlankEnd(text, nameEnd);
    if at == |text| then Ok(Read((name, None), at))
    else if text[at] == '=' then
      match Value(text, at + 1)
      case Err(e) => Err(e)
      case Ok(Read((value, span), next)) => Ok(Read((name, Some((value, span))), next))
    else if text[at] == '#' || text[at] == ';' || text[at] == '\r' || text[at] == '\n' then
      Ok(Read((name, None), LineEnd(text, at)))
    else Err(ExpectedEquals(text[at]))
  }

  // ----- Elements -----

  /** A blank or comment line. */
  function FillerAt(text: string, pos: nat): (r: Read<Element>)
    requires pos < |text|
    ensures pos < r.next <= |text| && r.value.raw == text[pos..r.next]
  {
    var next := LineEnd(text, pos);
    Read(Filler(text[pos..next]), next)
  }

  /** A header whose bracket is at `probe`, with the rest of its line. */
  function SectionAt(text: string, pos: nat, probe: nat): (r: Result<Read<Element>, ParseError>)
    requires pos <= probe < |text|
    ensures r.Ok? ==> probe < r.value.next <= |text| && r.value.value.raw == text[pos..r.value.next]
    ensures r.Ok? ==> r.value.value.Section?
  {
    match Header(text, probe)
    case Err(e) => Err(e)
    case Ok(Read((section, subsection), close)) =>
      var next := LineEnd(text, close);
      Ok(Read(Section(section, subsection, text[pos..next]), next))
  }

  /** A variable whose name starts at `probe`. */
  function VariableAt(text: string, pos: nat, probe: nat, scope: Scope): (r: Result<Read<Element>, ParseError>)
    requires pos <= probe < |text| && IsAlpha(text[probe])
    ensures r.Ok? ==> probe < r.value.next <= |text| && r.value.value.raw == text[pos..r.value.next]
    ensures r.Ok? ==> r.value.value.Variable?
    ensures r.Ok? && r.value.value.span.Some? ==>
              r.value.value.span.value.start <= r.value.value.span.value.end <= |r.value.value.raw|
  {
    match VariableLine(text, probe)
    case Err(e) => Err(e)
    case Ok(Read((name, value), next)) =>
      if scope.None? then Err(VariableBeforeSection)
      else
        var (section, subsection) := scope.value;
        var raw := text[pos..next];
        match value
        case None => Ok(Read(Variable(section, subsection, name, None, raw, None), next))
        case Some((v, span)) =>
          Ok(Read(Variable(section, subsection, name, Some(v), raw, Some(Span(span.start - pos, span.end - pos))), next))
  }

  /** The element on the line starting at `pos`; its raw text is everything up to the next position. */
  function ElementAt(text: string, pos: nat, scope: Scope): (r: Result<Read<Element>, ParseError>)
    requires pos < |text|
    ensures r.Ok? ==> pos < r.value.next <= |text| && r.value.value.raw == text[pos..r.value.next]
  {
    var probe := BlankEnd(text, pos);
    if probe == |text| || text[probe] in "\n\r#;" then Ok(FillerAt(text, pos))
    else if text[probe] == '[' then SectionAt(text, pos, probe)
    else if IsAlpha(text[probe]) then VariableAt(text, pos, probe, scope)
    else Err(UnexpectedCharacter(text[probe]))
  }

  /** The section in scope after an element. */
  function ScopeAfter(e: Element, scope: Scope): Scope {
    if e.Section? then Some((e.section, e.subsection)) else scope
  }

  /** All elements of a text from a line start on. */
  function Elements(text: string, pos: nat, scope: Scope): Result<seq<Element>, ParseError>
    requires pos <= |text|
    decreases |text| - pos
  {
    if pos == |text| then Ok([])
    else match ElementAt(text, pos, scope)
      case Err(e) => Err(e)
      case Ok(Read(first, next)) =>
        match Elements(text, next, ScopeAfter(first, scope))
        case Err(e) => Err(e)
        case Ok(rest) => Ok([first] + rest)
  }

  /** The text of a list of elements: their raw texts in order. */
  function Render(elements: seq<Element>): string {
    if elements == [] then "" else elements[0].raw + Render(elements[1..])
  }
}
