/**
What a config file is, said by its text alone: which stretches of it are fillers, headers and variables, what they
mean, and which texts are rejected for which reason. The grammar's functions give exactly these answers.
*/
module ConfigForms {
  import opened Common
  import opened ConfigGrammar
  import opened ConfigWindows
  import opened ConfigEdits

  // ----- Runs of characters -----

  ghost predicate Blanks(t: string, i: nat, j: nat) {
    i <= j <= |t| && forall k :: i <= k < j ==> t[k] == ' ' || t[k] == '\t'
  }

  predicate IsLetter(c: char) { 'a' <= c <= 'z' || 'A' <= c <= 'Z' }

  /** Letters, digits and hyphens make names, and dots too in headers. */
  predicate InName(c: char, dots: bool) { IsLetter(c) || '0' <= c <= '9' || c == '-' || (dots && c == '.') }

  ghost predicate NameRun(t: string, i: nat, j: nat, dots: bool) {
    i <= j <= |t| && (forall k :: i <= k < j ==> InName(t[k], dots)) && (j < |t| ==> !InName(t[j], dots))
  }

  /** The line from `q` on ends at `next`: after its first newline, or with the text. */
  ghost predicate LineTo(t: string, q: nat, next: nat) {
    q <= next <= |t| && (forall k :: q <= k < next - 1 ==> t[k] != '\n')
    && (next == |t| || (q < next && t[next - 1] == '\n'))
  }

  lemma BlanksEnd(t: string, i: nat, j: nat)
    requires i <= |t|
    ensures BlankEnd(t, i) == j <==> Blanks(t, i, j) && (j < |t| ==> t[j] != ' ' && t[j] != '\t')
  {
    BlankIsBlank(t, i);
    if Blanks(t, i, j) && (j < |t| ==> t[j] != ' ' && t[j] != '\t') { BlankStops(t, i, j); }
  }

  lemma NameRunEnd(t: string, i: nat, j: nat, dots: bool)
    requires i <= |t|
    ensures NameEnd(t, i, dots) == j <==> NameRun(t, i, j, dots)
  {
    NameIsName(t, i, dots);
    if NameRun(t, i, j, dots) { NameStops(t, i, j, dots); }
  }

  lemma {:induction false} LineToEnd(t: string, q: nat, next: nat)
    requires q <= |t|
    ensures LineEnd(t, q) == next <==> LineTo(t, q, next)
    decreases |t| - q
  {
    if q < |t| && t[q] != '\n' {
      LineToEnd(t, q + 1, next);
    }
  }

  /** `f` is `s` with its capital letters made small and everything else kept. */
  ghost predicate Folds(s: string, f: string) {
    |f| == |s| && forall i :: 0 <= i < |s| ==>
                    if 'A' <= s[i] <= 'Z' then f[i] as int == s[i] as int + 32 else f[i] == s[i]
  }

  lemma LowerFolds(s: string, f: string)
    ensures Folds(s, f) <==> f == Lower(s)
  {
  }

  // ----- Headers -----

  /** The text between quotes stands for the subsection: a backslash keeps the next character, whatever it is. */
  ghost predicate QuotedAs(raw: string, sub: string)
    decreases |raw|
  {
    if raw == "" then sub == ""
    else if raw[0] == '\\' then |raw| > 1 && sub != "" && sub[0] == raw[1] && QuotedAs(raw[2..], sub[1..])
    else raw[0] != '"' && raw[0] != '\n' && sub != "" && sub[0] == raw[0] && QuotedAs(raw[1..], sub[1..])
  }

  /** From after the opening quote up to and with the closing one. */
  ghost predicate QuotedTo(t: string, pos: nat, sub: string, next: nat) {
    pos < next <= |t| && t[next - 1] == '"' && QuotedAs(t[pos..next - 1], sub)
  }

  lemma {:induction false} QuotedReads(t: string, pos: nat, out: string, sub: string, next: nat)
    requires QuotedTo(t, pos, sub, next)
    ensures QuotedSubsection(t, pos, out) == Ok(Read(out + sub, next))
    decreases |t| - pos
  {
    var raw := t[pos..next - 1];
    if raw == "" {
      assert out + sub == out;
    } else if raw[0] == '\\' {
      assert raw[2..] == t[pos + 2..next - 1] && raw[1] == t[pos + 1];
      QuotedReads(t, pos + 2, out + [t[pos + 1]], sub[1..], next);
      assert out + [sub[0]] + sub[1..] == out + sub;
    } else {
      assert raw[1..] == t[pos + 1..next - 1];
      QuotedReads(t, pos + 1, out + [t[pos]], sub[1..], next);
      assert out + [sub[0]] + sub[1..] == out + sub;
    }
  }

  lemma {:induction false} QuotedIsForm(t: string, pos: nat, out: string) returns (sub: string)
    requires pos <= |t| && QuotedSubsection(t, pos, out).Ok?
    ensures QuotedTo(t, pos, sub, QuotedSubsection(t, pos, out).value.next)
    ensures QuotedSubsection(t, pos, out).value.value == out + sub
    decreases |t| - pos
  {
    var next := QuotedSubsection(t, pos, out).value.next;
    if t[pos] == '"' {
      sub := "";
      assert t[pos..next - 1] == "";
    } else {
      var skip := if t[pos] == '\\' then 2 else 1;
      var c := t[pos + skip - 1];
      var rest := QuotedIsForm(t, pos + skip, out + [c]);
      sub := [c] + rest;
      assert t[pos..next - 1][skip..] == t[pos + skip..next - 1];
      assert sub[1..] == rest && out + [c] + rest == out + sub;
    }
  }

  lemma QuotedErrs(t: string, pos: nat, out: string)
    requires pos <= |t| && QuotedSubsection(t, pos, out).Err?
    ensures QuotedSubsection(t, pos, out).error == UnterminatedSubsection
    decreases |t| - pos
  {
  }

  /** The bracket and the name, up to where a quote may open. */
  ghost predicate Opens(t: string, pos: nat, nameEnd: nat, open: nat) {
    pos < nameEnd && NameRun(t, pos + 1, nameEnd, true) && Blanks(t, nameEnd, open)
    && (open < |t| ==> t[open] != ' ' && t[open] != '\t')
  }

  ghost predicate FirstDot(name: string, dot: nat) {
    dot < |name| && name[dot] == '.' && forall k :: 0 <= k < dot ==> name[k] != '.'
  }

  /** The section and subsection a name without quotes stands for: split at its first dot. */
  ghost predicate Dotted(name: string, section: string, subsection: Option<string>) {
    if subsection.Some? then
      exists dot: nat :: FirstDot(name, dot) && Folds(name[..dot], section) && Folds(name[dot + 1..], subsection.value)
    else '.' !in name && Folds(name, section)
  }

  /** `"sub"]` from the opening quote on, with blanks after the closing one. */
  ghost predicate QuoteAndBracket(t: string, open: nat, sub: string, mid: nat, next: nat) {
    open < |t| && t[open] == '"' && QuotedTo(t, open + 1, sub, mid)
    && mid < next <= |t| && Blanks(t, mid, next - 1) && t[next - 1] == ']'
  }

  /** `[name "sub"]`, with blanks after name and quotes: the subsection as quoted. */
  ghost predicate QuotedHeader(t: string, pos: nat, section: string, subsection: Option<string>, next: nat) {
    subsection.Some?
    && exists nameEnd: nat, open: nat, mid: nat ::
         Opens(t, pos, nameEnd, open) && QuoteAndBracket(t, open, subsection.value, mid, next)
         && Folds(t[pos + 1..nameEnd], section)
  }

  /** `[name]` or `[name.sub]`, with blanks after the name. */
  ghost predicate BareHeader(t: string, pos: nat, section: string, subsection: Option<string>, next: nat) {
    exists nameEnd: nat, open: nat ::
      Opens(t, pos, nameEnd, open) && open < |t| && t[open] == ']' && next == open + 1
      && Dotted(t[pos + 1..nameEnd], section, subsection)
  }

  ghost predicate HeaderAt(t: string, pos: nat, section: string, subsection: Option<string>, next: nat) {
    QuotedHeader(t, pos, section, subsection, next) || BareHeader(t, pos, section, subsection, next)
  }

  lemma OpensIs(t: string, pos: nat, nameEnd: nat, open: nat)
    requires pos < |t|
    ensures Opens(t, pos, nameEnd, open) <==>
            nameEnd == NameEnd(t, pos + 1, true) && open == BlankEnd(t, nameEnd)
  {
    hide NameEnd, BlankEnd;
    NameRunEnd(t, pos + 1, nameEnd, true);
    if nameEnd <= |t| { BlanksEnd(t, nameEnd, open); }
  }

  lemma {:induction false} FirstDotIs(name: string, dot: nat)
    ensures FirstDot(name, dot) <==> dot == IndexOfDot(name) < |name|
    ensures '.' in name <==> IndexOfDot(name) < |name|
    decreases |name|
  {
    if name != "" && name[0] != '.' {
      if dot > 0 {
        FirstDotIs(name[1..], dot - 1);
        assert FirstDot(name, dot) <==> FirstDot(name[1..], dot - 1) by {
          assert forall k :: 0 < k < |name| ==> name[k] == name[1..][k - 1];
          assert forall k :: 0 <= k < |name| - 1 ==> name[k + 1] == name[1..][k];
        }
      } else {
        FirstDotIs(name[1..], 0);
      }
      assert name == [name[0]] + name[1..];
    }
  }

  lemma DottedIs(name: string, section: string, subsection: Option<string>)
    ensures var dot := IndexOfDot(name);
            Dotted(name, section, subsection) <==>
            if dot < |name| then section == Lower(name[..dot]) && subsection == Some(Lower(name[dot + 1..]))
            else section == Lower(name) && subsection == None
  {
    hide Folds, Lower, FirstDot, IndexOfDot;
    var dot := IndexOfDot(name);
    FirstDotIs(name, dot);
    if dot < |name| {
      LowerFolds(name[..dot], section);
      if subsection.Some? { LowerFolds(name[dot + 1..], subsection.value); }
    }
    forall d: nat | FirstDot(name, d) ensures d == dot && dot < |name| { FirstDotIs(name, d); }
    LowerFolds(name, section);
  }

  /** The grammar reads a header exactly where there is one, with its section and subsection. */
  lemma HeaderIff(t: string, pos: nat, section: string, subsection: Option<string>, next: nat)
    requires pos < |t|
    ensures Header(t, pos) == Ok(Read((section, subsection), next)) <==> HeaderAt(t, pos, section, subsection, next)
  {
    hide NameEnd, BlankEnd, Lower, QuotedSubsection, IndexOfDot, Opens, Folds, QuotedTo, Dotted;
    var nameEnd := NameEnd(t, pos + 1, true);
    var open := BlankEnd(t, nameEnd);
    OpensIs(t, pos, nameEnd, open);
    var name := t[pos + 1..nameEnd];
    forall n: nat, o: nat | Opens(t, pos, n, o) ensures n == nameEnd && o == open { OpensIs(t, pos, n, o); }
    LowerFolds(name, section);
    DottedIs(name, section, subsection);
    OpenIsNoBlank(t, open, nameEnd);
    if open < |t| && t[open] == '"' {
      QuotedTailIff(t, open, name, section, subsection, next);
    }
  }

  lemma OpenIsNoBlank(t: string, open: nat, nameEnd: nat)
    requires nameEnd <= |t| && open == BlankEnd(t, nameEnd)
    ensures BlankEnd(t, open) == open
  {
  }

  lemma QuotedTailIff(t: string, open: nat, name: string, section: string, subsection: Option<string>, next: nat)
    requires open < |t| && t[open] == '"'
    ensures HeaderTail(t, open, name) == Ok(Read((section, subsection), next)) <==>
            section == Lower(name) && subsection.Some? && exists mid: nat ::
              QuoteAndBracket(t, open, subsection.value, mid, next)
  {
    hide BlankEnd, Lower, QuotedSubsection, QuotedTo;
    var q := QuotedSubsection(t, open + 1, "");
    if q.Ok? {
      var sub := QuotedIsForm(t, open + 1, "");
      assert "" + sub == sub;
      if next > 0 { BlanksEnd(t, q.value.next, next - 1); }
      if HeaderTail(t, open, name) == Ok(Read((section, subsection), next)) {
        assert QuotedTo(t, open + 1, subsection.value, q.value.next);
        assert QuoteAndBracket(t, open, subsection.value, q.value.next, next);
      }
    }
    if section == Lower(name) && subsection.Some?
       && exists mid: nat :: QuoteAndBracket(t, open, subsection.value, mid, next) {
      var mid: nat :| QuoteAndBracket(t, open, subsection.value, mid, next);
      QuotedReads(t, open + 1, "", subsection.value, mid);
      assert "" + subsection.value == subsection.value;
      BlanksEnd(t, mid, next - 1);
      assert CloseHeader(t, mid, name, subsection) == Ok(Read((section, subsection), next));
    }
  }

  /** A quote opens and is not closed on its line. */
  ghost predicate OpenQuoted(t: string, pos: nat) {
    exists nameEnd: nat, open: nat ::
      Opens(t, pos, nameEnd, open) && open < |t| && t[open] == '"'
      && Unclosed(t, open + 1)
  }

  ghost predicate Unclosed(t: string, pos: nat) {
    forall sub: string, mid: nat :: !QuotedTo(t, pos, sub, mid)
  }

  lemma UnclosedErrs(t: string, pos: nat)
    requires pos <= |t|
    ensures Unclosed(t, pos) <==> QuotedSubsection(t, pos, "").Err?
    ensures Unclosed(t, pos) ==> QuotedSubsection(t, pos, "").error == UnterminatedSubsection
  {
    hide QuotedTo, QuotedSubsection;
    var q := QuotedSubsection(t, pos, "");
    if q.Ok? {
      var sub := QuotedIsForm(t, pos, "");
    } else {
      QuotedErrs(t, pos, "");
      forall sub: string, mid: nat ensures !QuotedTo(t, pos, sub, mid) {
        if QuotedTo(t, pos, sub, mid) { QuotedReads(t, pos, "", sub, mid); }
      }
    }
  }

  /** What a text that opens a bracket without being a header is rejected for. */
  lemma HeaderErrs(t: string, pos: nat)
    requires pos < |t| && Header(t, pos).Err?
    ensures Header(t, pos).error == if OpenQuoted(t, pos) then UnterminatedSubsection else ExpectedBracket
  {
    hide NameEnd, BlankEnd, Lower, QuotedSubsection, IndexOfDot, Opens, Folds, QuotedTo, Dotted;
    var nameEnd := NameEnd(t, pos + 1, true);
    var open := BlankEnd(t, nameEnd);
    OpensIs(t, pos, nameEnd, open);
    forall n: nat, o: nat | Opens(t, pos, n, o) ensures n == nameEnd && o == open { OpensIs(t, pos, n, o); }
    if open < |t| && t[open] == '"' { UnclosedErrs(t, open + 1); }
    hide Unclosed;
  }
}
