/**
What the parser is for: parsing is exactly the inverse of rendering on well-formed element lists, so files
survive unchanged, can be put end to end, and can be edited value by value.
*/
module ConfigLaws {
  import opened Common
  import opened ConfigGrammar
  import opened ConfigWindows

  // ----- Parsing inverts rendering -----

  /** Reading the element's own text alone gives the element back. */
  ghost predicate StandsAlone(e: Element, scope: Scope) {
    e.raw != "" && ElementAt(e.raw, 0, scope) == Ok(Read(e, |e.raw|))
  }

  /** Every element stands alone in its scope, and all but the last end their line. */
  ghost predicate WellFormed(es: seq<Element>, scope: Scope) {
    es == [] ||
    (StandsAlone(es[0], scope) && (|es| > 1 ==> Closed(es[0])) && WellFormed(es[1..], ScopeAfter(es[0], scope)))
  }

  /** An element read from a text stands alone, and ends its line unless the text ends there. */
  lemma ReadElementStandsAlone(text: string, pos: nat, scope: Scope)
    requires pos < |text| && ElementAt(text, pos, scope).Ok?
    ensures var Read(e, next) := ElementAt(text, pos, scope).value;
            StandsAlone(e, scope) && (next < |text| ==> Closed(e))
  {
    var Read(e, next) := ElementAt(text, pos, scope).value;
    SliceIsWindow(text, pos, next);
    ElementWindow(text[pos..next], text, pos, scope);
    if next < |text| { PartialElementIsClosed(text, pos, scope); }
  }

  lemma PartialElementIsClosed(text: string, pos: nat, scope: Scope)
    requires pos < |text| && ElementAt(text, pos, scope).Ok? && ElementAt(text, pos, scope).value.next < |text|
    ensures Closed(ElementAt(text, pos, scope).value.value)
  {
    hide SectionAt, VariableAt, LineEnd, BlankEnd;
    var probe := BlankEnd(text, pos);
    if probe == |text| || text[probe] in "\n\r#;" {
      LineStopsAtNewline(text, pos);
    } else if text[probe] == '[' {
      PartialSectionIsClosed(text, pos, probe);
    } else {
      PartialVariableIsClosed(text, pos, probe, scope);
    }
  }

  lemma PartialSectionIsClosed(text: string, pos: nat, probe: nat)
    requires pos <= probe < |text|
    ensures var r := SectionAt(text, pos, probe); r.Ok? && r.value.next < |text| ==> Closed(r.value.value)
  {
    hide LineEnd, Header;
    var header := Header(text, probe);
    if header.Ok? { LineStopsAtNewline(text, header.value.next); }
  }

  lemma PartialVariableIsClosed(text: string, pos: nat, probe: nat, scope: Scope)
    requires pos <= probe < |text| && IsAlpha(text[probe])
    ensures var r := VariableAt(text, pos, probe, scope); r.Ok? && r.value.next < |text| ==> Closed(r.value.value)
  {
    hide LineEnd, BlankEnd, NameEnd, ScanValue, Lower;
    var at := BlankEnd(text, NameEnd(text, probe, false));
    if at < |text| {
      if text[at] == '=' {
        var start := BlankEnd(text, at + 1);
        ScanStopsAtNewline(text, start, Partial("", start, false, 0));
      } else {
        LineStopsAtNewline(text, at);
      }
    }
  }

  lemma {:induction false} ParsedElementsRender(text: string, pos: nat, scope: Scope)
    requires pos <= |text| && Elements(text, pos, scope).Ok?
    ensures var es := Elements(text, pos, scope).value; WellFormed(es, scope) && Render(es) == text[pos..]
    decreases |text| - pos
  {
    hide ElementAt, Closed;
    if pos < |text| {
      ReadElementStandsAlone(text, pos, scope);
      var Read(e, next) := ElementAt(text, pos, scope).value;
      ParsedElementsRender(text, next, ScopeAfter(e, scope));
      var rest := Elements(text, next, ScopeAfter(e, scope)).value;
      assert ([e] + rest)[1..] == rest;
      if rest != [] { RenderIsLonger(rest, ScopeAfter(e, scope)); }
      assert text[pos..] == text[pos..next] + text[next..];
    }
  }

  lemma RenderIsLonger(es: seq<Element>, scope: Scope)
    requires WellFormed(es, scope) && es != []
    ensures Render(es) != ""
  {
  }

  lemma {:induction false} RenderedElementsParse(text: string, pos: nat, scope: Scope, es: seq<Element>)
    requires pos <= |text| && WellFormed(es, scope) && Render(es) == text[pos..]
    ensures Elements(text, pos, scope) == Ok(es)
    decreases |es|
  {
    hide ElementAt, Closed;
    if es != [] {
      var e := es[0];
      var next := pos + |e.raw|;
      assert e.raw == text[pos..next];
      SliceIsWindow(text, pos, next);
      ElementWindow(e.raw, text, pos, scope);
      assert |es| == 1 ==> Render(es[1..]) == "" && next == |text|;
      assert Render(es[1..]) == text[next..];
      RenderedElementsParse(text, next, ScopeAfter(e, scope), es[1..]);
      assert es == [e] + es[1..];
    }
  }

  /**
  The parser accepts a text with these elements exactly when the elements are well formed and their raw texts
  make up the text.
  */
  lemma ParseInvertsRender(text: string, scope: Scope, es: seq<Element>)
    ensures Elements(text, 0, scope) == Ok(es) <==> WellFormed(es, scope) && Render(es) == text
  {
    assert text[0..] == text;
    if Elements(text, 0, scope) == Ok(es) { ParsedElementsRender(text, 0, scope); }
    if WellFormed(es, scope) && Render(es) == text { RenderedElementsParse(text, 0, scope, es); }
  }

  /** Lossless: the raw texts of a parsed file are the file. */
  lemma RenderOfParse(text: string)
    requires Elements(text, 0, None).Ok?
    ensures Render(Elements(text, 0, None).value) == text
  {
    ParseInvertsRender(text, None, Elements(text, 0, None).value);
  }

  // ----- Splicing -----

  function ScopeAfterAll(es: seq<Element>, scope: Scope): Scope {
    if es == [] then scope else ScopeAfterAll(es[1..], ScopeAfter(es[0], scope))
  }

  lemma {:induction false} WellFormedConcat(e1: seq<Element>, e2: seq<Element>, scope: Scope)
    ensures WellFormed(e1 + e2, scope) <==>
            WellFormed(e1, scope) && (e1 != [] && e2 != [] ==> Closed(e1[|e1| - 1])) && WellFormed(e2, ScopeAfterAll(e1, scope))
  {
    if e1 == [] {
      assert e1 + e2 == e2;
    } else {
      assert (e1 + e2)[1..] == e1[1..] + e2;
      WellFormedConcat(e1[1..], e2, ScopeAfter(e1[0], scope));
    }
  }

  lemma {:induction false} RenderConcat(e1: seq<Element>, e2: seq<Element>)
    ensures Render(e1 + e2) == Render(e1) + Render(e2)
  {
    if e1 == [] {
      assert e1 + e2 == e2;
    } else {
      assert (e1 + e2)[1..] == e1[1..] + e2;
      RenderConcat(e1[1..], e2);
    }
  }

  /** Only variables depend on the scope, and without one they are rejected: a complete file ignores what precedes it. */
  lemma {:induction false} CompleteFileIgnoresScope(es: seq<Element>, scope: Scope)
    requires WellFormed(es, None)
    ensures WellFormed(es, scope)
  {
    if es != [] {
      assert !es[0].Variable?;
      if es[0].Filler? { CompleteFileIgnoresScope(es[1..], scope); }
    }
  }

  /**
  Two files put end to end parse to the elements of the first followed by those of the second, with scopes,
  values and spans unchanged, exactly when the last element of the first ends its line.
  */
  lemma Splice(t1: string, t2: string, e1: seq<Element>, e2: seq<Element>)
    requires t1 != "" && t2 != "" && Elements(t1, 0, None) == Ok(e1) && Elements(t2, 0, None) == Ok(e2)
    ensures e1 != [] && e2 != []
    ensures Elements(t1 + t2, 0, None) == Ok(e1 + e2) <==> Closed(e1[|e1| - 1])
  {
    ParseInvertsRender(t1, None, e1);
    ParseInvertsRender(t2, None, e2);
    ParseInvertsRender(t1 + t2, None, e1 + e2);
    RenderConcat(e1, e2);
    WellFormedConcat(e1, e2, None);
    CompleteFileIgnoresScope(e2, ScopeAfterAll(e1, None));
  }

  /** A header or filler line ends its line as soon as its text ends with a newline. */
  lemma HeaderAndFillerLinesClose(e: Element)
    requires !e.Variable? && e.raw != ""
    ensures Closed(e) <==> e.raw[|e.raw| - 1] == '\n'
  {
  }
}
