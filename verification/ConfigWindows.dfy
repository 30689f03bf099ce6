/**
The grammar is local: what it reads inside a stretch of a text does not depend on the rest of the text. Each
lemma relates a text `s` to a text `u` that contains it from position `off` on: `Known` results carry over from
`s` to `u` when they end at a newline, or when `s` reaches the end of `u`, and results of `u` that end inside
the stretch carry over to `s`.
*/
module ConfigWindows {
  import opened Common
  import opened ConfigGrammar

  ghost predicate Window(s: string, u: string, off: nat) {
    off + |s| <= |u| && forall i :: 0 <= i < |s| ==> s[i] == u[off + i]
  }

  lemma SliceIsWindow(u: string, from: nat, to: nat)
    requires from <= to <= |u|
    ensures Window(u[from..to], u, from)
  {
  }

  /** The last character read is a newline. */
  predicate AtNewline(s: string, next: nat) { 0 < next <= |s| && s[next - 1] == '\n' }

  lemma {:induction false} BlankWindow(s: string, u: string, off: nat, pos: nat)
    requires Window(s, u, off) && pos <= |s|
    ensures var e, f := BlankEnd(s, pos), BlankEnd(u, off + pos);
            if e < |s| || off + |s| == |u| then f == off + e else f >= off + |s|
    decreases |s| - pos
  {
    if pos < |s| && IsBlank(s[pos]) { BlankWindow(s, u, off, pos + 1); }
  }

  lemma {:induction false} NameWindow(s: string, u: string, off: nat, pos: nat, dots: bool)
    requires Window(s, u, off) && pos <= |s|
    ensures var e, f := NameEnd(s, pos, dots), NameEnd(u, off + pos, dots);
            if e < |s| || off + |s| == |u| then f == off + e else f >= off + |s|
    decreases |s| - pos
  {
    if pos < |s| && NameChar(s[pos], dots) { NameWindow(s, u, off, pos + 1, dots); }
  }

  lemma {:induction false} LineWindow(s: string, u: string, off: nat, pos: nat)
    requires Window(s, u, off) && pos <= |s|
    ensures var e, f := LineEnd(s, pos), LineEnd(u, off + pos);
            ((pos < e && AtNewline(s, e)) || off + |s| == |u| || f <= off + |s|) ==> f == off + e
    decreases |s| - pos
  {
    if pos < |s| && s[pos] != '\n' { LineWindow(s, u, off, pos + 1); }
  }

  lemma {:induction false} QuotedWindow(s: string, u: string, off: nat, pos: nat, out: string)
    requires Window(s, u, off) && pos <= |s|
    ensures var r, q := QuotedSubsection(s, pos, out), QuotedSubsection(u, off + pos, out);
            r.Ok? || (q.Ok? && q.value.next <= off + |s|) ==>
              r.Ok? && q == Ok(Read(r.value.value, off + r.value.next))
    decreases |s| - pos
  {
    if pos < |s| && s[pos] != '\n' && s[pos] != '"' {
      if s[pos] == '\\' {
        if pos + 1 < |s| { QuotedWindow(s, u, off, pos + 2, out + [s[pos + 1]]); }
      } else {
        QuotedWindow(s, u, off, pos + 1, out + [s[pos]]);
      }
    }
  }

  lemma CloseWindow(s: string, u: string, off: nat, pos: nat, section: string, subsection: Option<string>)
    requires Window(s, u, off) && pos <= |s|
    ensures var r, q := CloseHeader(s, pos, section, subsection), CloseHeader(u, off + pos, section, subsection);
            r.Ok? || (q.Ok? && q.value.next <= off + |s|) ==>
              r.Ok? && q == Ok(Read(r.value.value, off + r.value.next))
  {
    BlankWindow(s, u, off, pos);
  }

  lemma TailWindow(s: string, u: string, off: nat, open: nat, name: string)
    requires Window(s, u, off) && open < |s|
    ensures var r, q := HeaderTail(s, open, name), HeaderTail(u, off + open, name);
            r.Ok? || (q.Ok? && q.value.next <= off + |s|) ==>
              r.Ok? && q == Ok(Read(r.value.value, off + r.value.next))
  {
    hide CloseHeader, QuotedSubsection, IndexOfDot;
    if s[open] == '"' {
      QuotedWindow(s, u, off, open + 1, "");
      var quoted := QuotedSubsection(s, open + 1, "");
      if quoted.Ok? { CloseWindow(s, u, off, quoted.value.next, name, Some(quoted.value.value)); }
    } else {
      var dot := IndexOfDot(name);
      if dot < |name| { CloseWindow(s, u, off, open, name[..dot], Some(Lower(name[dot + 1..]))); }
      else { CloseWindow(s, u, off, open, name, None); }
    }
  }

  lemma HeaderWindow(s: string, u: string, off: nat, pos: nat)
    requires Window(s, u, off) && pos < |s|
    ensures var r, q := Header(s, pos), Header(u, off + pos);
            r.Ok? || (q.Ok? && q.value.next <= off + |s|) ==>
              r.Ok? && q == Ok(Read(r.value.value, off + r.value.next))
  {
    hide HeaderTail, BlankEnd, NameEnd;
    NameWindow(s, u, off, pos + 1, true);
    var nameEnd := NameEnd(s, pos + 1, true);
    BlankWindow(s, u, off, nameEnd);
    var open := BlankEnd(s, nameEnd);
    if open < |s| {
      var name := s[pos + 1..nameEnd];
      assert name == u[off + pos + 1..off + nameEnd];
      TailWindow(s, u, off, open, name);
    }
  }

  function Shifted(p: Partial, off: nat): Partial { p.(end := off + p.end) }

  /** Everything between the end of the value text and the cursor is blank. */
  predicate Trailing(s: string, pos: nat, p: Partial) { p.end <= pos <= |s| && (p.end < pos ==> IsBlank(s[pos - 1])) }

  function ShiftedStep(step: ValueStep, off: nat): ValueStep {
    match step
    case Stop(next) => Stop(off + next)
    case Fail(e) => Fail(e)
    case More(next, p) => More(off + next, Shifted(p, off))
  }

  /** Where a turn of the loop leaves the cursor; a failing one never leaves it inside the text. */
  function StepNext(text: string, step: ValueStep): nat { if step.Fail? then |text| + 1 else step.next }

  lemma StepWindow(s: string, u: string, off: nat, pos: nat, p: Partial)
    requires Window(s, u, off) && p.end <= pos < |s|
    ensures var r, q := Step(s, pos, p), Step(u, off + pos, Shifted(p, off));
            off + |s| == |u|
            || (r.Stop? && AtNewline(s, r.next))
            || (r.More? && r.next < |s|)
            || StepNext(u, q) <= off + |s| ==>
              q == ShiftedStep(r, off)
    ensures Step(s, pos, p).Stop? && !AtNewline(s, Step(s, pos, p).next) ==> Step(s, pos, p).next == |s|
    ensures Step(s, pos, p).More? && Step(s, pos, p).p.end < Step(s, pos, p).next ==> IsBlank(s[Step(s, pos, p).next - 1])
  {
    hide LineEnd;
    var c := s[pos];
    if !p.quoted && (c == '#' || c == ';') {
      LineWindow(s, u, off, pos + 1);
      LineStopsAtNewline(s, pos + 1);
    }
  }

  lemma {:induction false} ScanWindow(s: string, u: string, off: nat, pos: nat, p: Partial)
    requires Window(s, u, off) && Trailing(s, pos, p)
    ensures var r, q := ScanValue(s, pos, p), ScanValue(u, off + pos, Shifted(p, off));
            (r.Ok? && ((r.value.value.1 < r.value.next && AtNewline(s, r.value.next)) || off + |s| == |u|))
            || (q.Ok? && q.value.next <= off + |s|) ==>
              r.Ok? && q == Ok(Read((r.value.value.0, off + r.value.value.1), off + r.value.next))
    decreases |s| - pos
  {
    hide Step, Partial.Flushed;
    if pos < |s| {
      StepWindow(s, u, off, pos, p);
      var step := Step(s, pos, p);
      if step.More? { ScanWindow(s, u, off, step.next, step.p); }
    }
  }

  /** A scan that stops before the end of the text stopped at a newline outside the value. */
  lemma {:induction false} ScanStopsAtNewline(s: string, pos: nat, p: Partial)
    requires p.end <= pos <= |s|
    ensures var r := ScanValue(s, pos, p);
            r.Ok? && r.value.next < |s| ==> r.value.value.1 < r.value.next && AtNewline(s, r.value.next)
    decreases |s| - pos
  {
    if pos < |s| {
      var step := Step(s, pos, p);
      if step.More? {
        ScanStopsAtNewline(s, step.next, step.p);
      } else if s[pos] == '#' || s[pos] == ';' {
        LineStopsAtNewline(s, pos + 1);
      }
    }
  }

  lemma {:induction false} LineStopsAtNewline(s: string, pos: nat)
    requires pos <= |s|
    ensures LineEnd(s, pos) < |s| ==> pos < LineEnd(s, pos) && AtNewline(s, LineEnd(s, pos))
    decreases |s| - pos
  {
    if pos < |s| && s[pos] != '\n' { LineStopsAtNewline(s, pos + 1); }
  }

  function ShiftedSpan(span: Span, off: nat): Span { Span(off + span.start, off + span.end) }

  lemma ValueWindow(s: string, u: string, off: nat, pos: nat)
    requires Window(s, u, off) && pos <= |s|
    ensures var r, q := Value(s, pos), Value(u, off + pos);
            (r.Ok? && ((r.value.value.1.end < r.value.next && AtNewline(s, r.value.next)) || off + |s| == |u|))
            || (q.Ok? && q.value.next <= off + |s|) ==>
              r.Ok? && q == Ok(Read((r.value.value.0, ShiftedSpan(r.value.value.1, off)), off + r.value.next))
  {
    hide ScanValue, BlankEnd, Window;
    BlankWindow(s, u, off, pos);
    var start := BlankEnd(s, pos);
    ScanWindow(s, u, off, start, Partial("", start, false, 0));
  }

  /** Where the variable line's own text ends: at the line end, outside the value. */
  predicate ClosedLine(s: string, next: nat, value: Option<(string, Span)>) {
    AtNewline(s, next) && (value.Some? ==> value.value.1.end < next)
  }

  function ShiftedValue(value: Option<(string, Span)>, off: nat): Option<(string, Span)> {
    match value case None => None case Some((v, span)) => Some((v, ShiftedSpan(span, off)))
  }

  lemma VariableWindow(s: string, u: string, off: nat, pos: nat)
    requires Window(s, u, off) && pos < |s| && IsAlpha(s[pos])
    ensures var r, q := VariableLine(s, pos), VariableLine(u, off + pos);
            (r.Ok? && (ClosedLine(s, r.value.next, r.value.value.1) || off + |s| == |u|))
            || (q.Ok? && q.value.next <= off + |s|) ==>
              r.Ok? && q == Ok(Read((r.value.value.0, ShiftedValue(r.value.value.1, off)), off + r.value.next))
  {
    hide Value, LineEnd, BlankEnd, Lower, NameEnd;
    NameWindow(s, u, off, pos, false);
    var nameEnd := NameEnd(s, pos, false);
    NameIsName(s, pos, false);
    BlankIsBlank(s, nameEnd);
    BlankWindow(s, u, off, nameEnd);
    var at := BlankEnd(s, nameEnd);
    assert s[pos..nameEnd] == u[off + pos..off + nameEnd];
    if at < |s| {
      if s[at] == '=' { ValueWindow(s, u, off, at + 1); } else { LineWindow(s, u, off, at); }
    }
  }

  lemma {:induction false} NameIsName(s: string, pos: nat, dots: bool)
    requires pos <= |s|
    ensures forall i :: pos <= i < NameEnd(s, pos, dots) ==> NameChar(s[i], dots)
    decreases |s| - pos
  {
    if pos < |s| && NameChar(s[pos], dots) { NameIsName(s, pos + 1, dots); }
  }

  lemma {:induction false} BlankIsBlank(s: string, pos: nat)
    requires pos <= |s|
    ensures forall i :: pos <= i < BlankEnd(s, pos) ==> IsBlank(s[i])
    decreases |s| - pos
  {
    if pos < |s| && IsBlank(s[pos]) { BlankIsBlank(s, pos + 1); }
  }

  lemma {:induction false} LinePassesBlanks(s: string, pos: nat)
    requires pos <= |s|
    ensures BlankEnd(s, pos) < |s| ==> BlankEnd(s, pos) < LineEnd(s, pos)
    decreases |s| - pos
  {
    if pos < |s| && IsBlank(s[pos]) { LinePassesBlanks(s, pos + 1); }
  }

  /** The element's text ends with its line: its newline is there and is not part of a value. */
  predicate Closed(e: Element) {
    |e.raw| > 0 && e.raw[|e.raw| - 1] == '\n' && (e.Variable? && e.span.Some? ==> e.span.value.end < |e.raw|)
  }

  /** Results about the stretch that carry over in either direction. */
  ghost predicate Agrees(s: string, u: string, off: nat, r: Result<Read<Element>, ParseError>,
                         q: Result<Read<Element>, ParseError>) {
    (r.Ok? && (Closed(r.value.value) || off + |s| == |u|)) || (q.Ok? && q.value.next <= off + |s|) ==>
      r.Ok? && q == Ok(Read(r.value.value, off + r.value.next))
  }

  lemma FillerWindow(s: string, u: string, off: nat)
    requires Window(s, u, off) && s != ""
    ensures Agrees(s, u, off, Ok(FillerAt(s, 0)), Ok(FillerAt(u, off)))
  {
    hide LineEnd;
    LineWindow(s, u, off, 0);
    var e := LineEnd(s, 0);
    assert s[0..e] == u[off..off + e];
  }

  lemma SectionWindow(s: string, u: string, off: nat, probe: nat)
    requires Window(s, u, off) && probe < |s|
    ensures Agrees(s, u, off, SectionAt(s, 0, probe), SectionAt(u, off, off + probe))
  {
    hide LineEnd, Header;
    HeaderWindow(s, u, off, probe);
    var r := Header(s, probe);
    if r.Ok? {
      LineWindow(s, u, off, r.value.next);
      assert s[0..LineEnd(s, r.value.next)] == u[off..off + LineEnd(s, r.value.next)];
    }
  }

  lemma VariableElementWindow(s: string, u: string, off: nat, probe: nat, scope: Scope)
    requires Window(s, u, off) && probe < |s| && IsAlpha(s[probe])
    ensures Agrees(s, u, off, VariableAt(s, 0, probe, scope), VariableAt(u, off, off + probe, scope))
  {
    hide VariableLine;
    VariableWindow(s, u, off, probe);
    var r := VariableLine(s, probe);
    if r.Ok? {
      assert s[0..r.value.next] == u[off..off + r.value.next];
    }
  }

  /** Reading one element is local. */
  lemma ElementWindow(s: string, u: string, off: nat, scope: Scope)
    requires Window(s, u, off) && s != ""
    ensures Agrees(s, u, off, ElementAt(s, 0, scope), ElementAt(u, off, scope))
  {
    hide FillerAt, SectionAt, VariableAt;
    var probe := BlankEnd(s, 0);
    BlankWindow(s, u, off, 0);
    if probe == |s| && off + |s| < |u| {
      BlankIsBlank(s, 0);
      LinePassesBlanks(u, off);
      BlankStretchIsOpen(s, u, off);
    } else if probe == |s| || s[probe] in "\n\r#;" {
      FillerWindow(s, u, off);
    } else if s[probe] == '[' {
      SectionWindow(s, u, off, probe);
    } else if IsAlpha(s[probe]) {
      VariableElementWindow(s, u, off, probe, scope);
    }
  }

  /** A stretch of blanks is never a whole element of a longer text. */
  lemma BlankStretchIsOpen(s: string, u: string, off: nat)
    requires Window(s, u, off) && off + |s| < |u| && s != "" && BlankEnd(s, 0) == |s|
    ensures !Closed(FillerAt(s, 0).value)
    ensures FillerAt(u, off).next > off + |s|
  {
    hide LineEnd;
    BlankIsBlank(s, 0);
    LineWindow(s, u, off, 0);
    BlankWindow(s, u, off, 0);
    LineStopsAtNewline(u, off);
    LinePassesBlanks(u, off);
  }
}
