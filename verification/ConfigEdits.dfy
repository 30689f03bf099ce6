/**
Editing one value in place. A value's span reads back on its own, and replacing it by a quoted new value gives a
file that parses to the edited elements, except for one family of values the quoting rule overlooks.
*/
module ConfigEdits {
  import opened Common
  import opened ConfigGrammar
  import opened ConfigWindows
  import opened ConfigLaws

  // ----- The value loop, from the end of the value's text on -----

  /** The value's end moves only past the cursor, and the value changes only with it. */
  lemma {:induction false} EndGrows(text: string, pos: nat, p: Partial)
    requires p.end <= pos <= |text|
    ensures var r := ScanValue(text, pos, p);
            r.Ok? ==> r.value.value == (p.value, p.end) || pos < r.value.value.1
    decreases |text| - pos
  {
    if pos < |text| {
      var step := Step(text, pos, p);
      if step.More? { EndGrows(text, step.next, step.p); }
    }
  }

  /** Outside quotes the scan could have started afresh at the end of the value so far. */
  ghost predicate Resumes(text: string, pos: nat, p: Partial)
    requires p.end <= pos <= |text|
  {
    if p.quoted then p.end == pos && p.pending == 0
    else ScanValue(text, p.end, Partial(p.value, p.end, false, 0)) == ScanValue(text, pos, p)
  }

  lemma StepResumes(text: string, pos: nat, p: Partial)
    requires p.end <= pos < |text| && Resumes(text, pos, p) && Step(text, pos, p).More?
    ensures Resumes(text, Step(text, pos, p).next, Step(text, pos, p).p)
  {
    hide Escape;
  }

  /** What follows the value contributes nothing to it. */
  lemma {:induction false} RestIsEmpty(text: string, pos: nat, p: Partial)
    requires p.end <= pos <= |text| && Resumes(text, pos, p) && ScanValue(text, pos, p).Ok?
    ensures var Read((value, end), next) := ScanValue(text, pos, p).value;
            ScanValue(text, end, Partial(value, end, false, 0)) == ScanValue(text, pos, p)
    decreases |text| - pos
  {
    hide Resumes, Step;
    if pos < |text| {
      var step := Step(text, pos, p);
      if step.More? {
        StepResumes(text, pos, p);
        RestIsEmpty(text, step.next, step.p);
      } else {
        StopsOutsideQuotes(text, pos, p);
      }
    } else {
      AtTheEnd(text, p);
    }
  }

  lemma StopsOutsideQuotes(text: string, pos: nat, p: Partial)
    requires p.end <= pos < |text| && Resumes(text, pos, p) && Step(text, pos, p).Stop?
    ensures ScanValue(text, p.end, Partial(p.value, p.end, false, 0)) == ScanValue(text, pos, p)
  {
  }

  lemma AtTheEnd(text: string, p: Partial)
    requires p.end <= |text| && Resumes(text, |text|, p)
    ensures ScanValue(text, p.end, Partial(p.value, p.end, false, 0)) == ScanValue(text, |text|, p)
  {
  }

  /** The value so far does not steer the loop: if it stays as it is, any other one would. */
  lemma {:induction false} RestIgnoresValue(text: string, pos: nat, p: Partial, value: string)
    requires p.end <= pos <= |text| && ScanValue(text, pos, p).Ok?
    requires ScanValue(text, pos, p).value.value == (p.value, p.end)
    ensures ScanValue(text, pos, p.(value := value)) == Ok(Read((value, p.end), ScanValue(text, pos, p).value.next))
    decreases |text| - pos
  {
    if pos < |text| {
      var step := Step(text, pos, p);
      if step.More? {
        EndGrows(text, step.next, step.p);
        RestIgnoresValue(text, step.next, step.p, value);
      }
    }
  }

  // ----- A span reads back on its own -----

  lemma {:induction false} ScanOfSpan(slice: string, text: string, off: nat, pos: nat, p: Partial)
    requires Window(slice, text, off) && Trailing(slice, pos, p)
    requires var r := ScanValue(text, off + pos, Shifted(p, off)); r.Ok? && r.value.value.1 == off + |slice|
    ensures var value := ScanValue(text, off + pos, Shifted(p, off)).value.value.0;
            ScanValue(slice, pos, p) == Ok(Read((value, |slice|), |slice|))
    decreases |slice| - pos
  {
    hide Step;
    EndGrows(text, off + pos, Shifted(p, off));
    if pos < |slice| {
      var step := Step(text, off + pos, Shifted(p, off));
      EndGrows(text, step.next, step.p);
      StepWindow(slice, text, off, pos, p);
      var inner := Step(slice, pos, p);
      ScanOfSpan(slice, text, off, inner.next, inner.p);
    }
  }

  /** Parsing just the text of a value's span gives the value again, with the whole slice as its span. */
  lemma SpanReparses(text: string, pos: nat)
    requires pos <= |text| && Value(text, pos).Ok?
    ensures var Read((value, span), _) := Value(text, pos).value;
            var slice := text[span.start..span.end];
            Value(slice, 0) == Ok(Read((value, Span(0, |slice|)), |slice|))
  {
    var Read((value, span), _) := Value(text, pos).value;
    var slice := text[span.start..span.end];
    SliceIsWindow(text, span.start, span.end);
    assert slice != "" ==> slice[0] == text[span.start];
    ScanOfSpan(slice, text, span.start, 0, Partial("", 0, false, 0));
  }

  /** The position after the `=` of a variable line. */
  function ValueStart(raw: string): nat {
    BlankEnd(raw, NameEnd(raw, BlankEnd(raw, 0), false)) + 1
  }

  /** A variable with a value is its name, an `=` and the value, read from its own text. */
  lemma VariableReadsItsValue(e: Element, scope: Scope)
    requires StandsAlone(e, scope) && e.Variable?
    ensures e.span.Some? <==> e.value.Some?
    ensures e.span.Some? ==>
              ValueStart(e.raw) <= |e.raw|
              && Value(e.raw, ValueStart(e.raw)) == Ok(Read((e.value.value, e.span.value), |e.raw|))
  {
    hide BlankEnd, NameEnd, LineEnd, Value;
  }

  ghost predicate SpanHolds(e: Element) {
    e.Variable? && e.span.Some? ==>
      e.value.Some? && e.span.value.start <= e.span.value.end <= |e.raw|
      && var slice := e.raw[e.span.value.start..e.span.value.end];
         Value(slice, 0) == Ok(Read((e.value.value, Span(0, |slice|)), |slice|))
  }

  /** In a parsed file every value's span, read on its own, is that value and nothing else. */
  lemma ParsedSpansHold(text: string)
    ensures var r := Elements(text, 0, None);
            r.Ok? ==> forall i :: 0 <= i < |r.value| ==> SpanHolds(r.value[i])
  {
    hide SpanHolds, WellFormed, Elements, Render;
    var r := Elements(text, 0, None);
    if r.Ok? {
      ParseInvertsRender(text, None, r.value);
      WellFormedSpansHold(r.value, None);
    }
  }

  lemma {:induction false} WellFormedSpansHold(es: seq<Element>, scope: Scope)
    requires WellFormed(es, scope)
    ensures forall i :: 0 <= i < |es| ==> SpanHolds(es[i])
  {
    hide SpanHolds, StandsAlone, Closed;
    if es != [] {
      WellFormedSpansHold(es[1..], ScopeAfter(es[0], scope));
      StandingSpanHolds(es[0], scope);
      assert forall i :: 0 < i < |es| ==> es[i] == es[1..][i - 1];
    }
  }

  lemma StandingSpanHolds(e: Element, scope: Scope)
    requires StandsAlone(e, scope)
    ensures SpanHolds(e)
  {
    hide StandsAlone, Value;
    if e.Variable? && e.span.Some? {
      VariableReadsItsValue(e, scope);
      SpanReparses(e.raw, ValueStart(e.raw));
    }
  }

  // ----- Quoting -----

  predicate NeedsQuote(w: string) {
    w == "" || IsBlank(w[0]) || IsBlank(w[|w| - 1])
    || exists i :: 0 <= i < |w| && w[i] in "\"\\#;\n\t"
  }

  function EscapedChar(c: char): string {
    if c == '"' then "\\\"" else if c == '\\' then "\\\\" else if c == '\n' then "\\n" else if c == '\t' then "\\t"
    else [c]
  }

  function Escaped(w: string): string {
    if w == "" then "" else EscapedChar(w[0]) + Escaped(w[1..])
  }

  function Quote(w: string): string { if NeedsQuote(w) then "\"" + Escaped(w) + "\"" else w }

  lemma {:induction false} EscapedSnoc(w: string, c: char)
    ensures Escaped(w + [c]) == Escaped(w) + EscapedChar(c)
  {
    if w == "" {
      assert [c][1..] == "";
    } else {
      assert (w + [c])[1..] == w[1..] + [c];
      EscapedSnoc(w[1..], c);
    }
  }

  /** The value as it is written into a file. */
  method QuoteValue(value: string) returns (out: string)
    ensures out == Quote(value)
  {
    if !NeedsQuote(value) {
      return value;
    }
    out := "\"";
    for i := 0 to |value|
      invariant out == "\"" + Escaped(value[..i])
    {
      EscapedSnoc(value[..i], value[i]);
      assert value[..i + 1] == value[..i] + [value[i]];
      out := out + EscapedChar(value[i]);
    }
    assert value[..|value|] == value;
    out := out + "\"";
  }

  lemma WindowParts(a: string, b: string, u: string, off: nat)
    ensures Window(a + b, u, off) <==> Window(a, u, off) && Window(b, u, off + |a|)
  {
    if Window(a, u, off) && Window(b, u, off + |a|) {
      forall i | 0 <= i < |a + b| ensures (a + b)[i] == u[off + i] {
        if |a| <= i { assert u[off + i] == u[off + |a| + (i - |a|)] == b[i - |a|]; }
      }
    }
    if Window(a + b, u, off) {
      forall i | 0 <= i < |a| ensures a[i] == u[off + i] { assert (a + b)[i] == a[i]; }
      forall i | 0 <= i < |b| ensures b[i] == u[off + |a| + i] { assert (a + b)[|a| + i] == b[i]; }
    }
  }

  lemma {:induction false} QuotedScan(text: string, pos: nat, p: Partial, w: string)
    requires Window(Escaped(w), text, pos) && p.end == pos && p.quoted && p.pending == 0
    ensures var next := pos + |Escaped(w)|;
            ScanValue(text, pos, p) == ScanValue(text, next, Partial(p.value + w, next, true, 0))
    decreases |w|
  {
    hide Window, Step, EscapedChar;
    if w == "" {
      assert p.value + w == p.value;
      assert p == Partial(p.value + w, pos, true, 0);
    } else {
      var c := EscapedChar(w[0]);
      var next := pos + |c|;
      var p' := Partial(p.value + [w[0]], next, true, 0);
      WindowParts(c, Escaped(w[1..]), text, pos);
      QuotedStep(text, pos, p, w[0]);
      assert ScanValue(text, pos, p) == ScanValue(text, next, p');
      QuotedScan(text, next, p', w[1..]);
      assert p.value + [w[0]] + w[1..] == p.value + w;
    }
  }

  lemma QuotedStep(text: string, pos: nat, p: Partial, c: char)
    requires Window(EscapedChar(c), text, pos) && p.end == pos && p.quoted && p.pending == 0
    ensures var next := pos + |EscapedChar(c)|;
            pos < next <= |text| && Step(text, pos, p) == More(next, Partial(p.value + [c], next, true, 0))
  {
    assert p.Flushed() == p.value;
    assert text[pos + 0] == EscapedChar(c)[0];
    if |EscapedChar(c)| == 2 { assert text[pos + 1] == EscapedChar(c)[1]; }
  }

  predicate Plain(c: char) { c !in "\"\\#;\n\t" }

  lemma {:induction false} PlainScan(text: string, pos: nat, p: Partial, w: string)
    requires Window(w, text, pos) && p.end <= pos && !p.quoted
    requires w != "" && !IsBlank(w[|w| - 1]) && forall i :: 0 <= i < |w| ==> Plain(w[i])
    requires w[|w| - 1] == '\r' && pos + |w| < |text| ==> text[pos + |w|] != '\n'
    ensures var next := pos + |w|;
            ScanValue(text, pos, p) == ScanValue(text, next, Partial(p.Flushed() + w, next, false, 0))
    decreases |w|
  {
    hide Partial.Flushed, Step;
    assert text[pos + 0] == w[0];
    if |w| > 1 { assert text[pos + 1] == w[1]; }
    hide Window;
    PlainStep(text, pos, p);
    if |w| == 1 {
      assert w == [text[pos]];
    } else {
      var step := Step(text, pos, p);
      assert w == [w[0]] + w[1..];
      WindowParts([w[0]], w[1..], text, pos);
      PlainScan(text, pos + 1, step.p, w[1..]);
      assert p.Flushed() + [w[0]] + w[1..] == p.Flushed() + w;
    }
  }

  lemma PlainStep(text: string, pos: nat, p: Partial)
    requires p.end <= pos < |text| && !p.quoted && Plain(text[pos])
    requires text[pos] == '\r' && pos + 1 < |text| ==> text[pos + 1] != '\n'
    ensures var step := Step(text, pos, p);
            step.More? && step.next == pos + 1 && !step.p.quoted && step.p.Flushed() == p.Flushed() + [text[pos]]
            && (!IsBlank(text[pos]) ==> step.p == Partial(p.Flushed() + [text[pos]], pos + 1, false, 0))
  {
    assert Spaces(p.pending + 1) == Spaces(p.pending) + " ";
    assert p.value + (Spaces(p.pending) + " ") == p.value + Spaces(p.pending) + " ";
    assert Partial(p.Flushed() + [text[pos]], pos + 1, false, 0).Flushed() == p.Flushed() + [text[pos]];
  }

  /** The one family the quoting rule misses: an unquoted final carriage return that would join a line feed. */
  predicate JoinsLineEnd(w: string, rest: string) {
    !NeedsQuote(w) && w[|w| - 1] == '\r' && rest != "" && rest[0] == '\n'
  }

  /** Scanning a written value brings the loop to its end with the value decoded. */
  lemma QuoteScans(text: string, pos: nat, w: string)
    requires Window(Quote(w), text, pos)
    requires !JoinsLineEnd(w, text[pos + |Quote(w)|..])
    ensures var next := pos + |Quote(w)|;
            ScanValue(text, pos, Partial("", pos, false, 0)) == ScanValue(text, next, Partial(w, next, false, 0))
  {
    hide ScanValue, Step, Escaped, Window;
    var p := Partial("", pos, false, 0);
    assert p.Flushed() == "";
    if NeedsQuote(w) {
      var close := pos + 1 + |Escaped(w)|;
      WindowParts("\"" + Escaped(w), "\"", text, pos);
      WindowParts("\"", Escaped(w), text, pos);
      assert text[pos] == '"' && text[close] == '"' by { QuoteAt(text, pos); QuoteAt(text, close); }
      OpenQuote(text, pos, p);
      QuotedScan(text, pos + 1, Partial("", pos + 1, true, 0), w);
      assert "" + w == w;
      OpenQuote(text, close, Partial(w, close, true, 0));
    } else {
      assert w[|w| - 1] == '\r' && pos + |w| < |text| ==> text[pos + |w|] != '\n';
      PlainScan(text, pos, p, w);
      assert "" + w == w;
    }
  }

  lemma QuoteAt(text: string, pos: nat)
    requires Window("\"", text, pos)
    ensures pos < |text| && text[pos] == '"'
  {
    assert "\""[0] == text[pos + 0];
  }

  lemma OpenQuote(text: string, pos: nat, p: Partial)
    requires p.end == pos < |text| && p.pending == 0 && text[pos] == '"'
    ensures ScanValue(text, pos, p) == ScanValue(text, pos + 1, Partial(p.value, pos + 1, !p.quoted, 0))
  {
    assert p.Flushed() == p.value;
  }

  /** The joined carriage return ends the line, so the value's text ends before it. */
  lemma {:induction false} JoinedReturnIsDropped(text: string, pos: nat, p: Partial, k: nat)
    requires p.end <= pos <= k < |text| - 1 && !p.quoted
    requires forall i :: pos <= i <= k ==> Plain(text[i])
    requires text[k] == '\r' && text[k + 1] == '\n'
    ensures var r := ScanValue(text, pos, p); r.Ok? && r.value.value.1 <= k
    decreases k - pos
  {
    hide Partial.Flushed;
    if pos < k {
      PlainStep(text, pos, p);
      JoinedReturnIsDropped(text, pos + 1, Step(text, pos, p).p, k);
    }
  }

  // ----- Replacing a value -----

  /** What may follow a value: blanks, a comment, a line end. */
  ghost predicate Quiet(rest: string) {
    ScanValue(rest, 0, Partial("", 0, false, 0)) == Ok(Read(("", 0), |rest|))
  }

  lemma QuietAnywhere(rest: string, text: string, pos: nat, w: string)
    requires pos + |rest| == |text| && Window(rest, text, pos)
    ensures Quiet(rest) <==> ScanValue(text, pos, Partial(w, pos, false, 0)) == Ok(Read((w, pos), |text|))
  {
    hide ScanValue, Window;
    ScanWindow(rest, text, pos, 0, Partial("", 0, false, 0));
    if Quiet(rest) {
      RestIgnoresValue(text, pos, Partial("", pos, false, 0), w);
    }
    if ScanValue(text, pos, Partial(w, pos, false, 0)) == Ok(Read((w, pos), |text|)) {
      RestIgnoresValue(text, pos, Partial(w, pos, false, 0), "");
    }
  }

  /** A written value with a quiet rest scans back to itself exactly when it does not join the line end. */
  lemma WrittenValueScans(text: string, pos: nat, w: string, rest: string)
    requires Window(Quote(w) + rest, text, pos) && pos + |Quote(w) + rest| == |text| && Quiet(rest)
    ensures ScanValue(text, pos, Partial("", pos, false, 0)) == Ok(Read((w, pos + |Quote(w)|), |text|))
            <==> !JoinsLineEnd(w, rest)
  {
    hide ScanValue, Quiet, NeedsQuote, Escaped;
    WindowParts(Quote(w), rest, text, pos);
    var next := pos + |Quote(w)|;
    assert text[next..] == rest;
    if JoinsLineEnd(w, rest) {
      assert w != "" && forall i :: 0 <= i < |w| ==> Plain(w[i]) by { UnquotedIsPlain(w); }
      assert forall i :: pos <= i < next ==> text[i] == w[i - pos];
      assert text[next + 0] == rest[0];
      JoinedReturnIsDropped(text, pos, Partial("", pos, false, 0), next - 1);
    } else {
      QuoteScans(text, pos, w);
      QuietAnywhere(rest, text, next, w);
    }
  }

  lemma UnquotedIsPlain(w: string)
    requires !NeedsQuote(w)
    ensures w != "" && !IsBlank(w[0]) && forall i :: 0 <= i < |w| ==> Plain(w[i])
  {
  }

  /** A variable line with this name, up to the start of its value. */
  predicate Starts(raw: string, name: string, start: nat) {
    var probe := BlankEnd(raw, 0);
    probe < |raw| && IsAlpha(raw[probe])
    && var nameEnd := NameEnd(raw, probe, false);
       var at := BlankEnd(raw, nameEnd);
       Lower(raw[probe..nameEnd]) == name && at < |raw| && raw[at] == '=' && BlankEnd(raw, at + 1) == start
  }

  lemma {:induction false} BlankStops(text: string, pos: nat, end: nat)
    requires pos <= end <= |text| && (forall i :: pos <= i < end ==> IsBlank(text[i]))
    requires end < |text| ==> !IsBlank(text[end])
    ensures BlankEnd(text, pos) == end
    decreases end - pos
  {
    if pos < end { BlankStops(text, pos + 1, end); }
  }

  /** The text before the value decides the name and where the value starts. */
  lemma HeadReads(head: string, text: string, name: string)
    requires Starts(head, name, |head|) && Window(head, text, 0) && |head| < |text| && !IsBlank(text[|head|])
    ensures Starts(text, name, |head|)
  {
    hide BlankEnd, NameEnd, Lower;
    var probe := BlankEnd(head, 0);
    var nameEnd := NameEnd(head, probe, false);
    var at := BlankEnd(head, nameEnd);
    BlankWindow(head, text, 0, 0);
    NameWindow(head, text, 0, probe, false);
    BlankWindow(head, text, 0, nameEnd);
    assert head[probe..nameEnd] == text[probe..nameEnd];
    BlankIsBlank(head, at + 1);
    assert forall i :: at + 1 <= i < |head| ==> IsBlank(text[i]) by {
      forall i | at + 1 <= i < |head| ensures IsBlank(text[i]) { assert head[i] == text[0 + i]; }
    }
    BlankStops(text, at + 1, |head|);
  }

  lemma QuoteStartsValue(w: string)
    ensures Quote(w) != "" && !IsBlank(Quote(w)[0])
  {
  }

  function Written(section: string, subsection: Option<string>, name: string, head: string, w: string, rest: string)
    : Element
  {
    Variable(section, subsection, name, Some(w), head + Quote(w) + rest, Some(Span(|head|, |head| + |Quote(w)|)))
  }

  /** The variable element of a line from what the value loop made of it. */
  function FromScan(text: string, start: nat, section: string, subsection: Option<string>, name: string,
                    r: Result<Read<(string, nat)>, ParseError>): Result<Read<Element>, ParseError>
    requires r.Ok? ==> r.value.next <= |text|
  {
    if r.Err? then Err(r.error)
    else
      var Read((value, end), next) := r.value;
      Ok(Read(Variable(section, subsection, name, Some(value), text[0..next], Some(Span(start, end))), next))
  }

  /** A started line reads as a variable with whatever the value loop makes of the rest. */
  lemma StartedLineReads(text: string, name: string, start: nat, section: string, subsection: Option<string>)
    requires Starts(text, name, start)
    ensures start <= |text|
    ensures ElementAt(text, 0, Some((section, subsection))) ==
            FromScan(text, start, section, subsection, name, ScanValue(text, start, Partial("", start, false, 0)))
  {
    hide BlankEnd, NameEnd, LineEnd, Lower, ScanValue;
  }

  /** A variable line written with a new value stands alone exactly when the value does not join the line end. */
  lemma WrittenStandsAlone(section: string, subsection: Option<string>, name: string, head: string, w: string,
                           rest: string)
    requires Starts(head, name, |head|) && Quiet(rest)
    ensures StandsAlone(Written(section, subsection, name, head, w, rest), Some((section, subsection)))
            <==> !JoinsLineEnd(w, rest)
  {
    hide Starts, Quiet, JoinsLineEnd, ElementAt, ScanValue, Quote;
    var text := head + Quote(w) + rest;
    QuoteStartsValue(w);
    assert text == head + (Quote(w) + rest);
    WindowParts(head, Quote(w) + rest, text, 0);
    assert text[|head|] == Quote(w)[0];
    HeadReads(head, text, name);
    WrittenValueScans(text, |head|, w, rest);
    StartedLineReads(text, name, |head|, section, subsection);
    assert text[0..|text|] == text;
  }

  /** A standing variable with a value is a started line whose value loop reaches its end. */
  lemma StandingVariableStarts(e: Element, scope: Scope)
    requires StandsAlone(e, scope) && e.Variable? && e.span.Some?
    ensures scope == Some((e.section, e.subsection)) && e.value.Some?
    ensures var start := e.span.value.start;
            Starts(e.raw, e.name, start) && start <= |e.raw|
            && ScanValue(e.raw, start, Partial("", start, false, 0)) == Ok(Read((e.value.value, e.span.value.end), |e.raw|))
  {
    hide BlankEnd, NameEnd, LineEnd, Lower, ScanValue;
    assert scope.Some? && scope.value == (scope.value.0, scope.value.1);
  }

  lemma HeadStarts(raw: string, name: string, start: nat)
    requires Starts(raw, name, start)
    ensures start <= |raw| && Starts(raw[..start], name, start)
  {
    hide BlankEnd, NameEnd, Lower;
    var head := raw[..start];
    var probe := BlankEnd(raw, 0);
    var nameEnd := NameEnd(raw, probe, false);
    var at := BlankEnd(raw, nameEnd);
    BlankWindow(head, raw, 0, 0);
    NameIsName(raw, probe, false);
    NameWindow(head, raw, 0, probe, false);
    BlankWindow(head, raw, 0, nameEnd);
    BlankWindow(head, raw, 0, at + 1);
    assert head[probe..nameEnd] == raw[probe..nameEnd];
  }

  lemma RestIsQuiet(raw: string, start: nat)
    requires start <= |raw| && ScanValue(raw, start, Partial("", start, false, 0)).Ok?
    requires ScanValue(raw, start, Partial("", start, false, 0)).value.next == |raw|
    ensures Quiet(raw[ScanValue(raw, start, Partial("", start, false, 0)).value.value.1..])
  {
    hide ScanValue, Quiet;
    var Read((value, end), _) := ScanValue(raw, start, Partial("", start, false, 0)).value;
    RestIsEmpty(raw, start, Partial("", start, false, 0));
    SliceIsWindow(raw, end, |raw|);
    QuietAnywhere(raw[end..], raw, end, value);
  }

  /** A variable line as it is generated for a new variable. */
  function Synthesized(section: string, subsection: Option<string>, name: string, w: string): Element {
    Written(section, subsection, name, "\t" + name + " = ", w, "\n")
  }

  predicate VariableName(name: string) {
    name != "" && IsAlpha(name[0]) && (forall i :: 0 <= i < |name| ==> NameChar(name[i], false)) && Lower(name) == name
  }

  lemma {:induction false} NameStops(text: string, pos: nat, end: nat, dots: bool)
    requires pos <= end <= |text| && (forall i :: pos <= i < end ==> NameChar(text[i], dots))
    requires end < |text| ==> !NameChar(text[end], dots)
    ensures NameEnd(text, pos, dots) == end
    decreases end - pos
  {
    if pos < end { NameStops(text, pos + 1, end, dots); }
  }

  lemma SynthesizedStarts(name: string)
    requires VariableName(name)
    ensures var head := "\t" + name + " = "; Starts(head, name, |head|)
  {
    hide BlankEnd, NameEnd, Lower, NameChar;
    var head := "\t" + name + " = ";
    var at := |name| + 2;
    assert head[1] == name[0] && head[|name| + 1] == ' ' && head[at] == '=' && head[at + 1] == ' ';
    assert forall i :: 1 <= i < |name| + 1 ==> head[i] == name[i - 1];
    assert head[1..|name| + 1] == name;
    BlankStops(head, 0, 1);
    assert !NameChar(' ', false) by { BlankIsNoName(); }
    NameStops(head, 1, |name| + 1, false);
    BlankStops(head, |name| + 1, at);
    BlankStops(head, at + 1, at + 2);
  }

  lemma BlankIsNoName()
    ensures !NameChar(' ', false) && Quiet("\n")
  {
  }

  /** A generated line stands alone exactly when its value does not join its line end. */
  lemma SynthesizedStandsAlone(section: string, subsection: Option<string>, name: string, w: string)
    requires VariableName(name)
    ensures StandsAlone(Synthesized(section, subsection, name, w), Some((section, subsection)))
            <==> !JoinsLineEnd(w, "\n")
  {
    hide Starts, Quiet, StandsAlone, JoinsLineEnd;
    SynthesizedStarts(name);
    BlankIsNoName();
    WrittenStandsAlone(section, subsection, name, "\t" + name + " = ", w, "\n");
  }

  lemma StandingVariableIsNamed(e: Element, scope: Scope)
    requires StandsAlone(e, scope) && e.Variable?
    ensures scope == Some((e.section, e.subsection)) && VariableName(e.name)
  {
    hide BlankEnd, NameEnd, LineEnd, ScanValue;
    assert scope.Some? && scope.value == (scope.value.0, scope.value.1);
    var probe := BlankEnd(e.raw, 0);
    var nameEnd := NameEnd(e.raw, probe, false);
    NameIsName(e.raw, probe, false);
    NameStartsAfter(e.raw, probe);
    LowerIsLower(e.raw[probe..nameEnd]);
  }

  lemma NameStartsAfter(text: string, pos: nat)
    requires pos < |text| && IsAlpha(text[pos])
    ensures pos < NameEnd(text, pos, false)
  {
  }

  lemma LowerIsLower(s: string)
    ensures |Lower(s)| == |s| && Lower(Lower(s)) == Lower(s)
    ensures forall i :: 0 <= i < |s| ==> Lower(s)[i] == LowerChar(s[i])
  {
  }

  /** A variable element with its value replaced: in place if it has value text, else as a generated line. */
  function Edited(e: Element, w: string): Element
    requires e.Variable? && (e.span.Some? ==> e.span.value.start <= e.span.value.end <= |e.raw|)
  {
    match e.span
    case None => Synthesized(e.section, e.subsection, e.name, w)
    case Some(Span(start, end)) => Written(e.section, e.subsection, e.name, e.raw[..start], w, e.raw[end..])
  }

  function AfterValue(e: Element): string
    requires e.Variable? && (e.span.Some? ==> e.span.value.end <= |e.raw|)
  {
    match e.span case None => "\n" case Some(Span(_, end)) => e.raw[end..]
  }

  lemma EditedStandsAlone(e: Element, scope: Scope, w: string)
    requires StandsAlone(e, scope) && e.Variable?
    ensures e.span.Some? ==> e.span.value.start <= e.span.value.end <= |e.raw|
    ensures StandsAlone(Edited(e, w), scope) <==> !JoinsLineEnd(w, AfterValue(e))
    ensures Edited(e, w).Variable? && (Closed(e) ==> Closed(Edited(e, w)))
  {
    hide StandsAlone, Starts, Quiet, JoinsLineEnd, ScanValue, Quote;
    if e.span.Some? {
      StandingVariableStarts(e, scope);
      var Span(start, end) := e.span.value;
      HeadStarts(e.raw, e.name, start);
      RestIsQuiet(e.raw, start);
      WrittenStandsAlone(e.section, e.subsection, e.name, e.raw[..start], w, e.raw[end..]);
    } else {
      StandingVariableIsNamed(e, scope);
      SynthesizedStandsAlone(e.section, e.subsection, e.name, w);
    }
  }

  /**
  Replacing the value of one variable of a parsed file gives a text that parses to exactly the edited elements,
  all others untouched, if and only if the new value does not end in a bare carriage return right before the
  line feed.
  */
  lemma EditRoundTrips(text: string, es: seq<Element>, i: nat, w: string)
    requires i < |es| && es[i].Variable?
    requires es[i].span.Some? ==> es[i].span.value.start <= es[i].span.value.end <= |es[i].raw|
    ensures var edited := es[i := Edited(es[i], w)];
            Elements(text, 0, None) == Ok(es) ==>
              (Elements(Render(edited), 0, None) == Ok(edited) <==> !JoinsLineEnd(w, AfterValue(es[i])))
  {
    hide StandsAlone, JoinsLineEnd, Elements, Edited, Closed, AfterValue, ElementAt;
    if Elements(text, 0, None) == Ok(es) {
      ParseInvertsRender(text, None, es);
      var scope := ScopeAfterAll(es[..i], None);
      assert es == es[..i] + ([es[i]] + es[i + 1..]);
      WellFormedConcat(es[..i], [es[i]] + es[i + 1..], None);
      assert ([es[i]] + es[i + 1..])[1..] == es[i + 1..];
      EditedStandsAlone(es[i], scope, w);
      var e := Edited(es[i], w);
      var edited := es[i := e];
      assert edited == es[..i] + ([e] + es[i + 1..]);
      WellFormedConcat(es[..i], [e] + es[i + 1..], None);
      assert ([e] + es[i + 1..])[1..] == es[i + 1..];
      ParseInvertsRender(Render(edited), None, edited);
    }
  }

  // ----- Witnesses -----

  /** The overlooked family loses its carriage return. */
  lemma ReturnIsLost()
    ensures JoinsLineEnd("a\r", "\n") && Value(Quote("a\r") + "\n", 0) == Ok(Read(("a", Span(0, 1)), 3))
  {
    var text := "a\r\n";
    assert !NeedsQuote("a\r") && Quote("a\r") + "\n" == text;
    var p := Partial("", 0, false, 0);
    assert p.Flushed() == "" && "" + "a" == "a";
    assert Step(text, 0, p) == More(1, Partial("a", 1, false, 0));
  }

  lemma OpenHeader()
    ensures StandsAlone(Section("a", None, "[a]\n"), None)
  {
    var text := "[a]\n";
    NameStops(text, 1, 2, true);
    assert text[1..2] == "a" && Lower("a") == "a" && IndexOfDot("a") == 1;
    assert CloseHeader(text, 2, "a", None) == Ok(Read(("a", None), 3));
    assert Header(text, 0) == Ok(Read(("a", None), 3));
    assert text[0..4] == text;
  }

  lemma OpenVariable()
    ensures StandsAlone(Variable("a", None, "x", Some("1"), "\tx = 1\\\n", Some(Span(5, 8))), Some(("a", None)))
  {
    hide Starts, ElementAt;
    var text := "\tx = 1\\\n";
    var head := "\t" + "x" + " = ";
    assert Lower("x") == "x";
    SynthesizedStarts("x");
    assert |head| == 5 && Window(head, text, 0);
    HeadReads(head, text, "x");
    var p, q := Partial("", 5, false, 0), Partial("1", 6, false, 0);
    assert p.Flushed() == "" && q.Flushed() == "1" && "1" + "" == "1" && "" + "1" == "1";
    assert Step(text, 5, p) == More(6, q);
    assert Step(text, 6, q) == More(8, Partial("1", 8, false, 0));
    StartedLineReads(text, "x", 5, "a", None);
    assert text[0..8] == text;
  }

  /**
  A variable line may end in a newline and still be open: the newline of a final continuation belongs to the
  value. Files ending so are the ones other files cannot be put behind.
  */
  lemma ContinuationStaysOpen()
    ensures var text := "[a]\n\tx = 1\\\n";
            var r := Elements(text, 0, None);
            text[|text| - 1] == '\n' && r.Ok? && |r.value| == 2 && !Closed(r.value[1])
  {
    hide StandsAlone, Elements;
    var header := Section("a", None, "[a]\n");
    var variable := Variable("a", None, "x", Some("1"), "\tx = 1\\\n", Some(Span(5, 8)));
    OpenHeader();
    OpenVariable();
    assert [header, variable][1..] == [variable] && [variable][1..] == [];
    assert Render([variable]) == variable.raw + "" == variable.raw;
    assert Render([header, variable]) == "[a]\n\tx = 1\\\n";
    assert WellFormed([variable], Some(("a", None)));
    ParseInvertsRender("[a]\n\tx = 1\\\n", None, [header, variable]);
  }
}
