/**
What a value's text means, piece by piece: gaps, letters, quotation marks, escapes and continuations. The value loop
gives exactly this meaning, ends the value's text after its last piece that is no gap, and rejects exactly the texts
that leave a quote open at a newline or have an unknown escape.
*/
module ConfigValues {
  import opened Common
  import opened ConfigGrammar
  import opened ConfigWindows
  import opened ConfigEdits
  import opened ConfigForms

  /** A piece of a value's text. */
  datatype Piece = Gap(c: char) | Letter(c: char) | Mark | Escaped(c: char) | Continuation(crlf: bool)

  function TextOf(p: Piece): (text: string)
    ensures text != ""
  {
    match p
    case Gap(c) => [c]
    case Letter(c) => [c]
    case Mark => "\""
    case Escaped(c) => ['\\', c]
    case Continuation(crlf) => if crlf then "\\\r\n" else "\\\n"
  }

  function MeaningOf(p: Piece): string {
    match p
    case Gap(_) => " "
    case Letter(c) => [c]
    case Mark => ""
    case Escaped(c) => if c == 'n' then "\n" else if c == 't' then "\t" else if c == 'b' then "\U{8}" else [c]
    case Continuation(_) => ""
  }

  /** Where a piece may stand: gaps only outside quotes, comment signs only inside. */
  predicate Fits(p: Piece, quoted: bool) {
    match p
    case Gap(c) => !quoted && (c == ' ' || c == '\t')
    case Letter(c) => c != '"' && c != '\\' && c != '\n' && (!quoted ==> c != ' ' && c != '\t' && c != '#' && c != ';')
    case Mark => true
    case Escaped(c) => c == '"' || c == '\\' || c == 'n' || c == 't' || c == 'b'
    case Continuation(_) => true
  }

  function QuotedAfter(p: Piece, quoted: bool): bool { if p.Mark? then !quoted else quoted }

  predicate AllFit(ps: seq<Piece>, quoted: bool) {
    ps == [] || (Fits(ps[0], quoted) && AllFit(ps[1..], QuotedAfter(ps[0], quoted)))
  }

  function QuotedInTheEnd(ps: seq<Piece>, quoted: bool): bool {
    if ps == [] then quoted else QuotedInTheEnd(ps[1..], QuotedAfter(ps[0], quoted))
  }

  function Text(ps: seq<Piece>): string { if ps == [] then "" else TextOf(ps[0]) + Text(ps[1..]) }

  function Meaning(ps: seq<Piece>): string { if ps == [] then "" else MeaningOf(ps[0]) + Meaning(ps[1..]) }

  // ----- Reading pieces -----

  /** A carriage return outside quotes is a letter only if no line feed follows. */
  predicate NoLineFeed(t: string, at: nat, p: Piece, quoted: bool) {
    p == Letter('\r') && !quoted && at < |t| ==> t[at] != '\n'
  }

  /** The loop state after a piece that ends at `next`. */
  function After(p: Partial, piece: Piece, next: nat): Partial {
    if piece.Gap? then p.(pending := p.pending + 1)
    else Partial(p.Flushed() + MeaningOf(piece), next, QuotedAfter(piece, p.quoted), 0)
  }

  lemma PieceStep(t: string, pos: nat, p: Partial, piece: Piece)
    requires p.end <= pos && Window(TextOf(piece), t, pos) && Fits(piece, p.quoted)
    requires NoLineFeed(t, pos + |TextOf(piece)|, piece, p.quoted)
    ensures var next := pos + |TextOf(piece)|; pos < |t| && Step(t, pos, p) == More(next, After(p, piece, next))
  {
    hide Partial.Flushed;
    var text := TextOf(piece);
    assert t[pos + 0] == text[0];
    if |text| > 1 { assert t[pos + 1] == text[1]; }
    if |text| > 2 { assert t[pos + 2] == text[2]; }
    assert p.Flushed() + "" == p.Flushed();
  }

  /** Every turn of the loop that goes on reads one piece. */
  lemma StepIsPiece(t: string, pos: nat, p: Partial) returns (piece: Piece)
    requires p.end <= pos < |t| && Step(t, pos, p).More?
    ensures Fits(piece, p.quoted) && Window(TextOf(piece), t, pos)
    ensures NoLineFeed(t, pos + |TextOf(piece)|, piece, p.quoted)
    ensures Step(t, pos, p) == More(pos + |TextOf(piece)|, After(p, piece, pos + |TextOf(piece)|))
  {
    hide Partial.Flushed;
    var c := t[pos];
    if !p.quoted && IsBlank(c) {
      piece := Gap(c);
    } else if c == '\\' {
      var d := t[pos + 1];
      piece := if d == '\n' then Continuation(false) else if d == '\r' then Continuation(true) else Escaped(d);
    } else if c == '"' {
      piece := Mark;
    } else {
      piece := Letter(c);
    }
    assert p.Flushed() + "" == p.Flushed();
  }

  // ----- Whole values -----

  /**
  The pieces are the text from `start` to `end`, none of the last ones a gap, and only blanks follow up to `stop`.
  Inside a quote nothing is cut off.
  */
  ghost predicate Spelled(t: string, quoted: bool, start: nat, end: nat, stop: nat, ps: seq<Piece>) {
    Window(Text(ps), t, start) && end == start + |Text(ps)| && AllFit(ps, quoted)
    && (ps != [] ==> !ps[|ps| - 1].Gap? && NoLineFeed(t, end, ps[|ps| - 1], QuotedInTheEnd(ps, quoted)))
    && Blanks(t, end, stop) && (QuotedInTheEnd(ps, quoted) ==> stop == end)
  }

  /** A value may end here, with the text, at its line's end or at a comment, which takes the rest of the line. */
  ghost predicate Ends(t: string, stop: nat, quoted: bool, next: nat) {
    stop == |t| == next
    || (stop < |t| && !quoted
        && ((t[stop] == '\n' && next == stop + 1)
            || (t[stop] == '\r' && stop + 1 < |t| && t[stop + 1] == '\n' && next == stop + 2)
            || ((t[stop] == '#' || t[stop] == ';') && LineTo(t, stop + 1, next))))
  }

  /** No escape stands for the character at `i`. */
  predicate Unknown(t: string, i: nat)
    requires i < |t|
  {
    t[i] != '\n' && t[i] != '"' && t[i] != '\\' && t[i] != 'n' && t[i] != 't' && t[i] != 'b'
    && !(t[i] == '\r' && i + 1 < |t| && t[i + 1] == '\n')
  }

  /** A value cannot go on or end here: a newline in a quote, or an unknown escape. */
  ghost predicate Breaks(t: string, stop: nat, quoted: bool, e: ParseError) {
    stop < |t|
    && ((t[stop] == '\n' && quoted && e == UnterminatedQuote)
        || (t[stop] == '\\' && stop + 1 == |t| && e == InvalidEscape(' '))
        || (t[stop] == '\\' && stop + 1 < |t| && Unknown(t, stop + 1) && e == InvalidEscape(t[stop + 1])))
  }

  ghost predicate EndsOrBreaks(t: string, stop: nat, quoted: bool) {
    (exists next: nat :: Ends(t, stop, quoted, next)) || (exists e :: Breaks(t, stop, quoted, e))
  }

  ghost predicate Begins(t: string, pos: nat, start: nat) {
    Blanks(t, pos, start) && (start < |t| ==> t[start] != ' ' && t[start] != '\t')
  }

  /** The value from `pos` on: blanks, the pieces with this meaning over this span, and an end. */
  ghost predicate ValueAt(t: string, pos: nat, value: string, span: Span, next: nat) {
    Begins(t, pos, span.start)
    && exists ps: seq<Piece>, stop: nat ::
         Spelled(t, false, span.start, span.end, stop, ps) && value == Meaning(ps)
         && Ends(t, stop, QuotedInTheEnd(ps, false), next)
  }

  /** The value from `pos` on breaks off. */
  ghost predicate ValueBreaks(t: string, pos: nat, e: ParseError) {
    exists start: nat, end: nat, stop: nat, ps: seq<Piece> ::
      Begins(t, pos, start) && Spelled(t, false, start, end, stop, ps) && Breaks(t, stop, QuotedInTheEnd(ps, false), e)
  }

  lemma {:induction false} PiecesScan(t: string, pos: nat, p: Partial, ps: seq<Piece>)
    requires p.end <= pos && Window(Text(ps), t, pos) && AllFit(ps, p.quoted)
    requires ps != [] && !ps[|ps| - 1].Gap?
    requires NoLineFeed(t, pos + |Text(ps)|, ps[|ps| - 1], QuotedInTheEnd(ps, p.quoted))
    ensures var next := pos + |Text(ps)|;
            ScanValue(t, pos, p) ==
            ScanValue(t, next, Partial(p.Flushed() + Meaning(ps), next, QuotedInTheEnd(ps, p.quoted), 0))
    decreases |ps|
  {
    hide Partial.Flushed, Step, Window, TextOf, MeaningOf;
    var piece, rest := ps[0], ps[1..];
    var next := pos + |TextOf(piece)|;
    WindowParts(TextOf(piece), Text(rest), t, pos);
    if rest == [] {
      PieceStep(t, pos, p, piece);
      assert Meaning(rest) == "" && p.Flushed() + (MeaningOf(piece) + "") == p.Flushed() + MeaningOf(piece);
    } else {
      NextIsNoLineFeed(t, next, rest, QuotedAfter(piece, p.quoted));
      PieceStep(t, pos, p, piece);
      var p' := After(p, piece, next);
      AfterFlushed(p, piece, next);
      PiecesScan(t, next, p', rest);
      assert p.Flushed() + MeaningOf(piece) + Meaning(rest) == p.Flushed() + Meaning(ps);
    }
  }

  lemma AfterFlushed(p: Partial, piece: Piece, next: nat)
    ensures After(p, piece, next).Flushed() == p.Flushed() + MeaningOf(piece)
  {
    assert Spaces(p.pending + 1) == Spaces(p.pending) + " ";
    assert p.value + (Spaces(p.pending) + " ") == p.value + Spaces(p.pending) + " ";
  }

  lemma NextIsNoLineFeed(t: string, pos: nat, ps: seq<Piece>, quoted: bool)
    requires ps != [] && AllFit(ps, quoted) && Window(Text(ps), t, pos)
    ensures pos < |t| && t[pos] != '\n'
  {
    assert Text(ps)[0] == t[pos + 0];
  }

  lemma {:induction false} BlanksScan(t: string, pos: nat, p: Partial, stop: nat)
    requires p.end <= pos && Blanks(t, pos, stop) && !p.quoted
    ensures ScanValue(t, pos, p) == ScanValue(t, stop, p.(pending := p.pending + (stop - pos)))
    decreases stop - pos
  {
    if pos < stop { BlanksScan(t, pos + 1, p.(pending := p.pending + 1), stop); }
  }

  lemma EndsScan(t: string, stop: nat, p: Partial, next: nat)
    requires p.end <= stop && Ends(t, stop, p.quoted, next)
    ensures ScanValue(t, stop, p) == Ok(Read((p.value, p.end), next))
  {
    hide LineEnd;
    if stop < |t| { LineToEnd(t, stop + 1, next); }
  }

  lemma BreaksScan(t: string, stop: nat, p: Partial, e: ParseError)
    requires p.end <= stop && Breaks(t, stop, p.quoted, e)
    ensures ScanValue(t, stop, p) == Err(e)
  {
  }

  /** From the start of a spelled value the loop comes to where the pieces and blanks stop. */
  lemma SpelledScan(t: string, start: nat, end: nat, stop: nat, ps: seq<Piece>) returns (p: Partial)
    requires Spelled(t, false, start, end, stop, ps)
    ensures p.value == Meaning(ps) && p.end == end <= stop && p.quoted == QuotedInTheEnd(ps, false)
    ensures ScanValue(t, start, Partial("", start, false, 0)) == ScanValue(t, stop, p)
  {
    hide ScanValue, Text, Meaning, QuotedInTheEnd, AllFit;
    p := Partial("", start, false, 0);
    if ps == [] {
      assert Text(ps) == "" && Meaning(ps) == "" && !QuotedInTheEnd(ps, false) by { NoPieces(); }
    } else {
      assert p.Flushed() == "" && "" + Meaning(ps) == Meaning(ps);
      PiecesScan(t, start, p, ps);
      p := Partial(Meaning(ps), end, QuotedInTheEnd(ps, false), 0);
    }
    if p.quoted {
      return;
    }
    BlanksScan(t, end, p, stop);
    p := p.(pending := p.pending + (stop - end));
  }

  lemma NoPieces()
    ensures Text([]) == "" && Meaning([]) == "" && forall q :: QuotedInTheEnd([], q) == q
  {
  }

  /** Every text, read from a loop state on, is pieces and blanks up to an end or a break. */
  lemma {:induction false} Decompose(t: string, pos: nat, p: Partial) returns (ps: seq<Piece>, end: nat, stop: nat)
    requires p.end <= pos <= |t|
    ensures Spelled(t, p.quoted, pos, end, stop, ps)
    ensures EndsOrBreaks(t, stop, QuotedInTheEnd(ps, p.quoted))
    decreases |t| - pos
  {
    hide Step, EndsOrBreaks;
    if pos == |t| || !Step(t, pos, p).More? {
      ps, end, stop := [], pos, pos;
      StopOrBreak(t, pos, p);
    } else {
      var piece := StepIsPiece(t, pos, p);
      var next := pos + |TextOf(piece)|;
      ps, end, stop := Decompose(t, next, After(p, piece, next));
      var q := QuotedInTheEnd(ps, QuotedAfter(piece, p.quoted));
      PrependPiece(t, p.quoted, pos, piece, next, end, stop, ps);
      if ps == [] && piece.Gap? {
        end := pos;
      } else {
        assert ([piece] + ps)[1..] == ps;
        ps := [piece] + ps;
      }
      assert QuotedInTheEnd(ps, p.quoted) == q;
    }
  }

  lemma PrependPiece(t: string, quoted: bool, pos: nat, piece: Piece, next: nat, end: nat, stop: nat, ps: seq<Piece>)
    requires Spelled(t, QuotedAfter(piece, quoted), next, end, stop, ps) && next == pos + |TextOf(piece)|
    requires Fits(piece, quoted) && Window(TextOf(piece), t, pos) && NoLineFeed(t, next, piece, quoted)
    ensures if ps == [] && piece.Gap? then Spelled(t, quoted, pos, pos, stop, [])
            else Spelled(t, quoted, pos, end, stop, [piece] + ps)
    ensures QuotedInTheEnd([piece] + ps, quoted) == QuotedInTheEnd(ps, QuotedAfter(piece, quoted))
  {
    hide TextOf, Window;
    var all := [piece] + ps;
    assert all[0] == piece && all[1..] == ps;
    WindowParts(TextOf(piece), Text(ps), t, pos);
    if ps == [] && piece.Gap? {
      GapIsBlank(t, pos, piece, quoted);
      EmptyWindow(t, pos);
      assert Text([]) == "" && end == next == pos + 1 && !quoted;
    } else if ps == [] {
      assert all[|all| - 1] == piece && Text(ps) == "" && end == next;
      LetterKeepsQuotes(t, next, piece, quoted);
    } else {
      assert all[|all| - 1] == ps[|ps| - 1];
    }
  }

  lemma EmptyWindow(t: string, pos: nat)
    requires pos <= |t|
    ensures Window("", t, pos)
  {
  }

  lemma LetterKeepsQuotes(t: string, next: nat, piece: Piece, quoted: bool)
    requires NoLineFeed(t, next, piece, quoted)
    ensures NoLineFeed(t, next, piece, QuotedAfter(piece, quoted))
  {
  }

  lemma GapIsBlank(t: string, pos: nat, piece: Piece, quoted: bool)
    requires piece.Gap? && Fits(piece, quoted) && Window(TextOf(piece), t, pos)
    ensures !quoted && |TextOf(piece)| == 1 && pos < |t| && (t[pos] == ' ' || t[pos] == '\t')
  {
    assert TextOf(piece)[0] == t[pos + 0];
  }

  lemma StopOrBreak(t: string, pos: nat, p: Partial)
    requires p.end <= pos <= |t| && (pos == |t| || !Step(t, pos, p).More?)
    ensures EndsOrBreaks(t, pos, p.quoted)
  {
    if pos == |t| {
      assert Ends(t, pos, p.quoted, |t|);
    } else {
      var step := Step(t, pos, p);
      if step.Stop? {
        LineToEnd(t, pos + 1, step.next);
        assert Ends(t, pos, p.quoted, step.next);
      } else {
        assert Breaks(t, pos, p.quoted, step.error);
      }
    }
  }

  /** A value is read exactly where there is one, with its meaning, span and end. */
  lemma ValueIff(t: string, pos: nat, value: string, span: Span, next: nat)
    requires pos <= |t|
    ensures Value(t, pos) == Ok(Read((value, span), next)) <==> ValueAt(t, pos, value, span, next)
  {
    hide ScanValue, Spelled, Ends, Breaks, Meaning, BlankEnd;
    BlanksEnd(t, pos, span.start);
    if ValueAt(t, pos, value, span, next) {
      var ps: seq<Piece>, stop: nat :| Spelled(t, false, span.start, span.end, stop, ps) && value == Meaning(ps)
                                       && Ends(t, stop, QuotedInTheEnd(ps, false), next);
      var p := SpelledScan(t, span.start, span.end, stop, ps);
      EndsScan(t, stop, p, next);
    }
    if Value(t, pos) == Ok(Read((value, span), next)) {
      var ps, end, stop := Decompose(t, span.start, Partial("", span.start, false, 0));
      var p := SpelledScan(t, span.start, end, stop, ps);
      if e :| Breaks(t, stop, p.quoted, e) { BreaksScan(t, stop, p, e); }
      if n: nat :| Ends(t, stop, p.quoted, n) { EndsScan(t, stop, p, n); }
    }
  }

  /** And rejected exactly where it breaks off, for that reason. */
  lemma ValueErrIff(t: string, pos: nat, e: ParseError)
    requires pos <= |t|
    ensures Value(t, pos) == Err(e) <==> ValueBreaks(t, pos, e)
  {
    hide ScanValue, Spelled, Ends, Breaks, Meaning, BlankEnd, Begins;
    if ValueBreaks(t, pos, e) {
      var start: nat, end: nat, stop: nat, ps: seq<Piece> :|
        Begins(t, pos, start) && Spelled(t, false, start, end, stop, ps) && Breaks(t, stop, QuotedInTheEnd(ps, false), e);
      BeginsIs(t, pos, start);
      var p := SpelledScan(t, start, end, stop, ps);
      BreaksScan(t, stop, p, e);
    }
    if Value(t, pos) == Err(e) {
      var start := BlankEnd(t, pos);
      BeginsIs(t, pos, start);
      var ps, end, stop := Decompose(t, start, Partial("", start, false, 0));
      var p := SpelledScan(t, start, end, stop, ps);
      if n: nat :| Ends(t, stop, p.quoted, n) { EndsScan(t, stop, p, n); }
      if f :| Breaks(t, stop, p.quoted, f) { BreaksScan(t, stop, p, f); }
    }
  }

  lemma BeginsIs(t: string, pos: nat, start: nat)
    requires pos <= |t|
    ensures Begins(t, pos, start) <==> start == BlankEnd(t, pos)
  {
    BlanksEnd(t, pos, start);
  }
}
