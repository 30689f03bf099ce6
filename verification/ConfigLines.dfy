/**
The lines of a config file, said by its text alone, and the answer to every text: the elements are its lines, and a
text is rejected at its first bad line, for what is wrong there.
*/
module ConfigLines {
  import opened Common
  import opened ConfigGrammar
  import opened ConfigWindows
  import opened ConfigLaws
  import opened ConfigEdits
  import opened ConfigForms
  import opened ConfigValues

  // ----- Good lines -----

  /** A name from `i`, blanks from `j`, and what follows at `k`. */
  ghost predicate Named(t: string, i: nat, j: nat, k: nat) {
    NameRun(t, i, j, false) && Begins(t, j, k)
  }

  /** After the name: nothing, a comment, a line end, or `=` and a value. Spans count from the line's start. */
  ghost predicate Assigned(t: string, pos: nat, k: nat, value: Option<string>, span: Option<Span>, next: nat) {
    k <= |t|
    && (if k == |t| then value == None && span == None && next == k
        else if t[k] == '=' then
          value.Some? && span.Some?
          && ValueAt(t, k + 1, value.value, Span(pos + span.value.start, pos + span.value.end), next)
        else t[k] in "#;\r\n" && value == None && span == None && LineTo(t, k, next))
  }

  ghost predicate VariableFrom(t: string, pos: nat, i: nat, name: string, value: Option<string>, span: Option<Span>,
                               next: nat)
  {
    i < |t| && IsLetter(t[i])
    && exists j: nat, k: nat :: Named(t, i, j, k) && Folds(t[i..j], name) && Assigned(t, pos, k, value, span, next)
  }

  ghost predicate SectionFrom(t: string, i: nat, section: string, subsection: Option<string>, next: nat) {
    i < |t| && t[i] == '['
    && exists close: nat :: HeaderAt(t, i, section, subsection, close) && LineTo(t, close, next)
  }

  ghost predicate FillerFrom(t: string, i: nat, next: nat) {
    i <= |t| && (i < |t| ==> t[i] in "\n\r#;") && LineTo(t, i, next)
  }

  /** The line from `pos` on is this element: its whole text with the indentation, and its meaning. */
  ghost predicate LineAt(t: string, pos: nat, scope: Scope, e: Element, next: nat) {
    pos < next <= |t| && e.raw == t[pos..next]
    && exists i: nat :: Begins(t, pos, i) && LineFrom(t, pos, i, scope, e, next)
  }

  ghost predicate LineFrom(t: string, pos: nat, i: nat, scope: Scope, e: Element, next: nat) {
    if e.Filler? then FillerFrom(t, i, next)
    else if e.Section? then SectionFrom(t, i, e.section, e.subsection, next)
    else scope == Some((e.section, e.subsection)) && VariableFrom(t, pos, i, e.name, e.value, e.span, next)
  }

  // ----- Bad lines -----

  ghost predicate NoHeader(t: string, i: nat) {
    forall section: string, subsection: Option<string>, next: nat :: !HeaderAt(t, i, section, subsection, next)
  }

  ghost predicate GoodVariable(t: string, i: nat) {
    exists name: string, value: Option<string>, span: Option<Span>, next: nat ::
      VariableFrom(t, 0, i, name, value, span, next)
  }

  /** What is wrong with the variable line from `i` on, wherever it stands. */
  ghost predicate BadVariable(t: string, i: nat, e: ParseError) {
    exists j: nat, k: nat :: Named(t, i, j, k) && k < |t| &&
                             (if t[k] == '=' then ValueBreaks(t, k + 1, e) else t[k] !in "#;\r\n" && e == ExpectedEquals(t[k]))
  }

  /** The line from `pos` on is none, for this reason. */
  ghost predicate BadLine(t: string, pos: nat, scope: Scope, e: ParseError) {
    exists i: nat :: Begins(t, pos, i) && i < |t| &&
      if t[i] == '[' then
        NoHeader(t, i) && e == if OpenQuoted(t, i) then UnterminatedSubsection else ExpectedBracket
      else if IsLetter(t[i]) then
        BadVariable(t, i, e) || (GoodVariable(t, i) && scope == None && e == VariableBeforeSection)
      else t[i] !in "\n\r#;" && e == UnexpectedCharacter(t[i])
  }

  // ----- The grammar reads lines -----

  lemma NamedIs(t: string, i: nat, j: nat, k: nat)
    requires i <= |t|
    ensures Named(t, i, j, k) <==> j == NameEnd(t, i, false) && k == BlankEnd(t, j)
  {
    hide NameEnd, BlankEnd, Begins;
    NameRunEnd(t, i, j, false);
    if j <= |t| { BeginsIs(t, j, k); }
  }

  /** The span of a line's value, counted from its start. */
  function Relative(value: Option<(string, Span)>, pos: nat): (Option<string>, Option<Span>)
    requires value.Some? ==> pos <= value.value.1.start <= value.value.1.end
  {
    match value
    case None => (None, None)
    case Some((v, span)) => (Some(v), Some(Span(span.start - pos, span.end - pos)))
  }

  lemma VariableIff(t: string, pos: nat, i: nat, name: string, value: Option<string>, span: Option<Span>, next: nat)
    requires pos <= i < |t| && IsLetter(t[i])
    ensures var r := VariableLine(t, i);
            VariableFrom(t, pos, i, name, value, span, next) <==>
            r.Ok? && r.value.value.0 == name && (value, span) == Relative(r.value.value.1, pos) && r.value.next == next
  {
    hide NameEnd, BlankEnd, LineEnd, Lower, Value, Folds, ValueAt, Named, IsLetter;
    var j := NameEnd(t, i, false);
    var k := BlankEnd(t, j);
    NamedIs(t, i, j, k);
    forall a: nat, b: nat | Named(t, i, a, b) ensures a == j && b == k { NamedIs(t, i, a, b); }
    LowerFolds(t[i..j], name);
    if k < |t| {
      if t[k] == '=' {
        if span.Some? && value.Some? {
          ValueIff(t, k + 1, value.value, Span(pos + span.value.start, pos + span.value.end), next);
        }
      } else {
        LineToEnd(t, k, next);
      }
    }
  }

  lemma VariableErrIff(t: string, i: nat, e: ParseError)
    requires i < |t| && IsLetter(t[i])
    ensures VariableLine(t, i) == Err(e) <==> BadVariable(t, i, e)
  {
    hide NameEnd, BlankEnd, LineEnd, Lower, Value, ValueBreaks, Named, IsLetter;
    var j := NameEnd(t, i, false);
    var k := BlankEnd(t, j);
    NamedIs(t, i, j, k);
    forall a: nat, b: nat | Named(t, i, a, b) ensures a == j && b == k { NamedIs(t, i, a, b); }
    if k < |t| && t[k] == '=' { ValueErrIff(t, k + 1, e); }
  }

  lemma GoodVariableIs(t: string, i: nat)
    requires i < |t| && IsLetter(t[i])
    ensures GoodVariable(t, i) <==> VariableLine(t, i).Ok?
  {
    hide VariableFrom, VariableLine;
    var r := VariableLine(t, i);
    if r.Ok? {
      var (name, value) := r.value.value;
      var (v, span) := Relative(value, 0);
      VariableIff(t, 0, i, name, v, span, r.value.next);
    }
    forall name: string, value: Option<string>, span: Option<Span>, next: nat
      | VariableFrom(t, 0, i, name, value, span, next)
      ensures r.Ok?
    {
      VariableIff(t, 0, i, name, value, span, next);
    }
  }

  lemma NoHeaderIs(t: string, i: nat)
    requires i < |t|
    ensures NoHeader(t, i) <==> Header(t, i).Err?
  {
    hide HeaderAt, Header;
    var r := Header(t, i);
    if r.Ok? { HeaderIff(t, i, r.value.value.0, r.value.value.1, r.value.next); }
    forall section: string, subsection: Option<string>, next: nat | HeaderAt(t, i, section, subsection, next)
      ensures r.Ok?
    {
      HeaderIff(t, i, section, subsection, next);
    }
  }

  lemma SectionIff(t: string, i: nat, section: string, subsection: Option<string>, next: nat)
    requires i < |t| && t[i] == '['
    ensures SectionFrom(t, i, section, subsection, next) <==>
            Header(t, i).Ok? && Header(t, i).value.value == (section, subsection)
            && LineEnd(t, Header(t, i).value.next) == next
  {
    hide HeaderAt, Header, LineEnd, LineTo;
    var r := Header(t, i);
    if r.Ok? {
      HeaderIff(t, i, section, subsection, r.value.next);
      LineToEnd(t, r.value.next, next);
    }
    forall close: nat | HeaderAt(t, i, section, subsection, close) ensures r == Ok(Read((section, subsection), close)) {
      HeaderIff(t, i, section, subsection, close);
    }
  }

  /** A blank stretch before a filler's own text has no newline, so both give the same line. */
  lemma FillerIff(t: string, pos: nat, i: nat, next: nat)
    requires pos < |t| && Begins(t, pos, i)
    ensures FillerFrom(t, i, next) <==> (i < |t| ==> t[i] in "\n\r#;") && LineEnd(t, pos) == next
  {
    hide LineEnd;
    LineToEnd(t, pos, next);
    assert forall k :: pos <= k < i ==> t[k] != '\n';
  }

  /** The grammar gives an element exactly where there is such a line. */
  lemma ElementIff(t: string, pos: nat, scope: Scope, e: Element, next: nat)
    requires pos < |t|
    ensures ElementAt(t, pos, scope) == Ok(Read(e, next)) <==> LineAt(t, pos, scope, e, next)
  {
    hide BlankEnd, LineEnd, Header, VariableLine, Begins, FillerFrom, SectionFrom, VariableFrom, IsLetter, IsAlpha;
    var i := BlankEnd(t, pos);
    BeginsIs(t, pos, i);
    forall k: nat | Begins(t, pos, k) ensures k == i { BeginsIs(t, pos, k); }
    FillerIff(t, pos, i, next);
    if i < |t| {
      KindsAreApart(t[i]);
      if t[i] == '[' {
        if e.Section? { SectionIff(t, i, e.section, e.subsection, next); }
      } else if IsLetter(t[i]) {
        if e.Variable? { VariableIff(t, pos, i, e.name, e.value, e.span, next); }
      }
    }
    OtherKinds(t, i);
    if scope.Some? { assert scope.value == (scope.value.0, scope.value.1); }
  }

  lemma KindsAreApart(c: char)
    ensures !(c in "\n\r#;" && c == '[') && !(IsLetter(c) && (c in "\n\r#;" || c == '['))
    ensures IsLetter(c) <==> IsAlpha(c)
  {
  }

  lemma OtherKinds(t: string, i: nat)
    ensures i >= |t| || t[i] != '[' ==>
              forall section, subsection, next: nat :: !SectionFrom(t, i, section, subsection, next)
    ensures i >= |t| || !IsLetter(t[i]) ==>
              forall pos: nat, name, value, span, next: nat :: !VariableFrom(t, pos, i, name, value, span, next)
  {
  }

  /** And an error exactly where the line is bad, for that reason. */
  lemma ElementErrIff(t: string, pos: nat, scope: Scope, e: ParseError)
    requires pos < |t|
    ensures ElementAt(t, pos, scope) == Err(e) <==> BadLine(t, pos, scope, e)
  {
    hide BlankEnd, LineEnd, Header, VariableLine, Begins, NoHeader, OpenQuoted, BadVariable, GoodVariable, IsLetter, IsAlpha;
    var i := BlankEnd(t, pos);
    BeginsIs(t, pos, i);
    forall k: nat | Begins(t, pos, k) ensures k == i { BeginsIs(t, pos, k); }
    if i < |t| {
      KindsAreApart(t[i]);
      if t[i] == '[' {
        NoHeaderIs(t, i);
        if Header(t, i).Err? { HeaderErrs(t, i); }
      } else if IsLetter(t[i]) {
        VariableErrIff(t, i, e);
        GoodVariableIs(t, i);
      }
    }
  }

  // ----- Whole texts -----

  /** The text from `pos` to `to` is these lines, each in the scope the ones before it leave. */
  ghost predicate Lines(t: string, pos: nat, scope: Scope, es: seq<Element>, to: nat)
    decreases |es|
  {
    if es == [] then pos == to <= |t|
    else exists next: nat :: LineAt(t, pos, scope, es[0], next) && Lines(t, next, ScopeAfter(es[0], scope), es[1..], to)
  }

  /** Good lines up to `to`, and a bad one there. */
  ghost predicate BadAt(t: string, pos: nat, scope: Scope, es: seq<Element>, to: nat, e: ParseError) {
    Lines(t, pos, scope, es, to) && to < |t| && BadLine(t, to, ScopeAfterAll(es, scope), e)
  }

  lemma {:induction false} LinesParse(t: string, pos: nat, scope: Scope, es: seq<Element>, to: nat)
    requires pos <= |t| && Lines(t, pos, scope, es, to)
    ensures pos <= to <= |t|
    ensures Elements(t, pos, scope) ==
            var rest := Elements(t, to, ScopeAfterAll(es, scope));
            if rest.Ok? then Ok(es + rest.value) else rest
    decreases |es|
  {
    hide ElementAt, LineAt;
    if es != [] {
      var next: nat :| LineAt(t, pos, scope, es[0], next) && Lines(t, next, ScopeAfter(es[0], scope), es[1..], to);
      LineIsLonger(t, pos, scope, es[0], next);
      ElementIff(t, pos, scope, es[0], next);
      LinesParse(t, next, ScopeAfter(es[0], scope), es[1..], to);
      var rest := Elements(t, to, ScopeAfterAll(es, scope));
      if rest.Ok? { assert [es[0]] + (es[1..] + rest.value) == es + rest.value; }
    } else {
      var rest := Elements(t, to, scope);
      if rest.Ok? { assert [] + rest.value == rest.value; }
    }
  }

  lemma LineIsLonger(t: string, pos: nat, scope: Scope, e: Element, next: nat)
    requires LineAt(t, pos, scope, e, next)
    ensures pos < next <= |t|
  {
  }

  /** The lines of a text up to its end or its first bad line. */
  lemma {:induction false} ParsedLines(t: string, pos: nat, scope: Scope) returns (es: seq<Element>, to: nat)
    requires pos <= |t|
    ensures match Elements(t, pos, scope)
            case Ok(all) => es == all && to == |t| && Lines(t, pos, scope, es, to)
            case Err(e) => BadAt(t, pos, scope, es, to, e)
    decreases |t| - pos
  {
    hide ElementAt, LineAt, BadLine;
    if pos == |t| {
      es, to := [], pos;
    } else {
      var r := ElementAt(t, pos, scope);
      if r.Err? {
        es, to := [], pos;
        ElementErrIff(t, pos, scope, r.error);
      } else {
        var Read(first, next) := r.value;
        ElementIff(t, pos, scope, first, next);
        es, to := ParsedLines(t, next, ScopeAfter(first, scope));
        PrependLine(t, pos, scope, first, next, es, to);
        es := [first] + es;
      }
    }
  }

  lemma PrependLine(t: string, pos: nat, scope: Scope, e: Element, next: nat, es: seq<Element>, to: nat)
    requires LineAt(t, pos, scope, e, next) && Lines(t, next, ScopeAfter(e, scope), es, to)
    ensures Lines(t, pos, scope, [e] + es, to)
    ensures ScopeAfterAll([e] + es, scope) == ScopeAfterAll(es, ScopeAfter(e, scope))
  {
    var all := [e] + es;
    assert all[1..] == es && LineAt(t, pos, scope, all[0], next);
  }

  /** A text parses to exactly its lines, if all of it is lines. */
  lemma ParsesIffLines(t: string, es: seq<Element>)
    ensures Elements(t, 0, None) == Ok(es) <==> Lines(t, 0, None, es, |t|)
  {
    hide Lines, Elements;
    if Elements(t, 0, None) == Ok(es) { var all, to := ParsedLines(t, 0, None); }
    if Lines(t, 0, None, es, |t|) {
      LinesParse(t, 0, None, es, |t|);
      NothingLeft(t, ScopeAfterAll(es, None));
      assert es + [] == es;
    }
  }

  lemma NothingLeft(t: string, scope: Scope)
    ensures Elements(t, |t|, scope) == Ok([])
  {
  }

  ghost predicate Rejected(t: string, e: ParseError) {
    exists es: seq<Element>, to: nat :: BadAt(t, 0, None, es, to, e)
  }

  /** And is rejected for exactly what is wrong with its first bad line, if it has one. */
  lemma RejectsIffBadLine(t: string, e: ParseError)
    ensures Elements(t, 0, None) == Err(e) <==> Rejected(t, e)
  {
    hide Lines, BadLine, ElementAt;
    if Elements(t, 0, None) == Err(e) {
      var all, to := ParsedLines(t, 0, None);
    }
    if Rejected(t, e) {
      var es: seq<Element>, to: nat :| BadAt(t, 0, None, es, to, e);
      LinesParse(t, 0, None, es, to);
      ElementErrIff(t, to, ScopeAfterAll(es, None), e);
    }
  }

  // ----- Header lines -----

  lemma HeaderLineParses(line: string, section: string, subsection: Option<string>, close: nat)
    requires line != "" && line[0] == '[' && HeaderAt(line, 0, section, subsection, close) && LineTo(line, close, |line|)
    ensures Elements(line, 0, None) == Ok([Section(section, subsection, line)])
  {
    hide HeaderAt, Elements;
    var e := Section(section, subsection, line);
    assert Begins(line, 0, 0) && SectionFrom(line, 0, section, subsection, |line|);
    assert line[0..|line|] == line && LineAt(line, 0, None, e, |line|);
    assert Lines(line, |line|, ScopeAfter(e, None), [], |line|);
    assert [e][1..] == [] && Lines(line, 0, None, [e], |line|) by { assert LineAt(line, 0, None, [e][0], |line|); }
    ParsesIffLines(line, [e]);
  }

  function EscapedSub(sub: string): string {
    if sub == "" then ""
    else (if sub[0] == '"' || sub[0] == '\\' then ['\\', sub[0]] else [sub[0]]) + EscapedSub(sub[1..])
  }

  lemma {:induction false} EscapedSubSnoc(sub: string, c: char)
    ensures EscapedSub(sub + [c]) == EscapedSub(sub) + (if c == '"' || c == '\\' then ['\\', c] else [c])
  {
    if sub == "" {
      assert [c][1..] == "";
    } else {
      assert (sub + [c])[1..] == sub[1..] + [c];
      EscapedSubSnoc(sub[1..], c);
    }
  }

  /** The subsection as it is written between quotes. */
  method EscapeSubsection(sub: string) returns (out: string)
    ensures out == EscapedSub(sub)
  {
    out := "";
    for i := 0 to |sub|
      invariant out == EscapedSub(sub[..i])
    {
      EscapedSubSnoc(sub[..i], sub[i]);
      assert sub[..i + 1] == sub[..i] + [sub[i]];
      out := out + (if sub[i] == '"' || sub[i] == '\\' then ['\\', sub[i]] else [sub[i]]);
    }
    assert sub[..|sub|] == sub;
  }

  lemma {:induction false} EscapedSubIsQuoted(sub: string)
    ensures QuotedAs(EscapedSub(sub), sub) <==> '\n' !in sub
  {
    if sub != "" {
      EscapedSubIsQuoted(sub[1..]);
      var raw := EscapedSub(sub);
      var skip := if sub[0] == '"' || sub[0] == '\\' then 2 else 1;
      assert raw[skip..] == EscapedSub(sub[1..]);
      assert '\n' in sub <==> sub[0] == '\n' || '\n' in sub[1..] by { assert sub == [sub[0]] + sub[1..]; }
    }
  }

  function QuotedLine(name: string, sub: string): string { "[" + name + " \"" + EscapedSub(sub) + "\"]\n" }

  predicate AllName(name: string) { forall i :: 0 <= i < |name| ==> InName(name[i], true) }

  lemma NameOpens(line: string, name: string, gap: string, rest: string)
    requires AllName(name) && (gap == "" || gap == " ") && line == "[" + name + gap + rest
    requires rest != "" && (rest[0] == '"' || rest[0] == ']')
    ensures Opens(line, 0, 1 + |name|, 1 + |name| + |gap|) && line[1..1 + |name|] == name
    ensures line[1 + |name| + |gap|] == rest[0]
  {
    assert forall i :: 1 <= i < 1 + |name| ==> line[i] == name[i - 1];
    assert gap != "" ==> line[1 + |name|] == ' ';
    assert line[1 + |name| + |gap|] == rest[0];
  }

  /**
  A written header gives the folded name and exactly the subsection, if that has no newline; otherwise the line is
  rejected, because its quote is not closed.
  */
  lemma QuotedLineReads(name: string, sub: string, folded: string)
    requires AllName(name) && Folds(name, folded)
    ensures Elements(QuotedLine(name, sub), 0, None) ==
            if '\n' in sub then Err(UnterminatedSubsection) else Ok([Section(folded, Some(sub), QuotedLine(name, sub))])
  {
    hide Elements, Opens, Folds;
    QuotedLineParts(name, sub);
    if '\n' in sub { QuotedLineIsBad(name, sub); } else { QuotedLineIsHeader(name, sub, folded); }
  }

  /** Where the parts of a written header are. */
  lemma QuotedLineParts(name: string, sub: string)
    requires AllName(name)
    ensures var line, raw, open := QuotedLine(name, sub), EscapedSub(sub), 2 + |name|;
            var mid := open + 2 + |raw|;
            |line| == mid + 2 && line[0] == '[' && Opens(line, 0, 1 + |name|, open) && line[1..1 + |name|] == name
            && line[open] == '"' && Window(raw, line, open + 1) && line[open + 1..mid - 1] == raw
            && line[mid - 1] == '"' && line[mid] == ']' && line[mid + 1] == '\n'
  {
    hide InName, Opens, EscapedSub;
    var line, raw := QuotedLine(name, sub), EscapedSub(sub);
    assert line == "[" + name + " " + ("\"" + raw + "\"]\n");
    NameOpens(line, name, " ", "\"" + raw + "\"]\n");
  }

  lemma QuotedLineIsBad(name: string, sub: string)
    requires AllName(name) && '\n' in sub
    ensures Elements(QuotedLine(name, sub), 0, None) == Err(UnterminatedSubsection)
  {
    hide Elements, InName, Opens, QuotedAs, EscapedSub, Unclosed, NoHeader, Rejected;
    var line, open := QuotedLine(name, sub), 2 + |name|;
    QuotedLineParts(name, sub);
    NewlineUnclosed(line, open + 1, sub);
    assert OpenQuoted(line, 0);
    OpenQuotedIsNoHeader(line, 0);
    assert Begins(line, 0, 0) && BadLine(line, 0, None, UnterminatedSubsection);
    FirstLineBad(line, UnterminatedSubsection);
    RejectsIffBadLine(line, UnterminatedSubsection);
  }

  lemma FirstLineBad(line: string, e: ParseError)
    requires line != "" && BadLine(line, 0, None, e)
    ensures Rejected(line, e)
  {
    assert Lines(line, 0, None, [], 0) && BadAt(line, 0, None, [], 0, e);
  }

  lemma QuotedLineIsHeader(name: string, sub: string, folded: string)
    requires AllName(name) && Folds(name, folded) && '\n' !in sub
    ensures Elements(QuotedLine(name, sub), 0, None) == Ok([Section(folded, Some(sub), QuotedLine(name, sub))])
  {
    hide Elements, InName, Opens, QuotedAs, Folds, EscapedSub;
    var line, open := QuotedLine(name, sub), 2 + |name|;
    var mid := open + 2 + |EscapedSub(sub)|;
    QuotedLineParts(name, sub);
    EscapedSubIsQuoted(sub);
    assert QuoteAndBracket(line, open, sub, mid, mid + 1);
    assert QuotedHeader(line, 0, folded, Some(sub), mid + 1);
    HeaderLineParses(line, folded, Some(sub), mid + 1);
  }

  lemma OpenQuotedIsNoHeader(t: string, i: nat)
    requires i < |t| && OpenQuoted(t, i)
    ensures NoHeader(t, i)
  {
    hide Opens, QuotedTo, BareHeader;
    var n: nat, o: nat :| Opens(t, i, n, o) && o < |t| && t[o] == '"' && Unclosed(t, o + 1);
    OpensIs(t, i, n, o);
    forall a: nat, b: nat | Opens(t, i, a, b) ensures a == n && b == o { OpensIs(t, i, a, b); }
    forall section, subsection, next: nat ensures !BareHeader(t, i, section, subsection, next) {
      BareHasNoQuote(t, i, n, o, section, subsection, next);
    }
  }

  lemma BareHasNoQuote(t: string, i: nat, n: nat, o: nat, section: string, subsection: Option<string>, next: nat)
    requires i < |t| && Opens(t, i, n, o) && o < |t| && t[o] == '"'
    ensures !BareHeader(t, i, section, subsection, next)
  {
    hide Opens;
    forall a: nat, b: nat | Opens(t, i, a, b) ensures b == o { OpensIs(t, i, a, b); OpensIs(t, i, n, o); }
  }

  /** A newline inside the quotes ends the line before the closing one. */
  lemma {:induction false} NewlineUnclosed(t: string, pos: nat, sub: string)
    requires '\n' in sub && Window(EscapedSub(sub), t, pos)
    ensures Unclosed(t, pos)
  {
    hide QuotedTo;
    UnclosedErrs(t, pos);
    NewlineFails(t, pos, sub, "");
  }

  lemma {:induction false} NewlineFails(t: string, pos: nat, sub: string, out: string)
    requires '\n' in sub && Window(EscapedSub(sub), t, pos)
    ensures QuotedSubsection(t, pos, out).Err?
    decreases |sub|
  {
    var raw := EscapedSub(sub);
    assert t[pos + 0] == raw[0];
    if sub[0] != '\n' {
      var head := if sub[0] == '"' || sub[0] == '\\' then ['\\', sub[0]] else [sub[0]];
      WindowParts(head, EscapedSub(sub[1..]), t, pos);
      if |head| == 2 { assert t[pos + 1] == raw[1]; }
      assert sub == [sub[0]] + sub[1..];
      NewlineFails(t, pos + |head|, sub[1..], out + [sub[0]]);
    }
  }

  /** A header without quotes or dots has no subsection. */
  lemma BareLineReads(name: string, folded: string)
    requires AllName(name) && '.' !in name && Folds(name, folded)
    ensures Elements("[" + name + "]\n", 0, None) == Ok([Section(folded, None, "[" + name + "]\n")])
  {
    hide Elements, InName, Opens, Folds;
    var line := "[" + name + "]\n";
    assert line == "[" + name + "" + "]\n";
    NameOpens(line, name, "", "]\n");
    assert BareHeader(line, 0, folded, None, 2 + |name|);
    HeaderLineParses(line, folded, None, 2 + |name|);
  }

  /** A dotted header is split at its first dot, and both sides are folded. */
  lemma DottedLineReads(head: string, tail: string, folded: string, foldedTail: string)
    requires AllName(head) && '.' !in head && AllName(tail) && Folds(head, folded) && Folds(tail, foldedTail)
    ensures var line := "[" + head + "." + tail + "]\n";
            Elements(line, 0, None) == Ok([Section(folded, Some(foldedTail), line)])
  {
    hide Elements, Opens, Folds;
    var name := head + "." + tail;
    var line := "[" + name + "]\n";
    assert line == "[" + name + "" + "]\n" == "[" + head + "." + tail + "]\n";
    NameOpens(line, name, "", "]\n");
    assert FirstDot(name, |head|) && name[..|head|] == head && name[|head| + 1..] == tail;
    assert BareHeader(line, 0, folded, Some(foldedTail), 2 + |name|);
    HeaderLineParses(line, folded, Some(foldedTail), 2 + |name|);
  }
}
