/**
Read-only configuration over arbitrary bytes: each byte is read as the character with its number, so the text
parser applies, and what it finds turns back into bytes.
*/
module ConfigBytes {
  import opened Common
  import opened ConfigGrammar
  import opened ConfigForms
  import opened ConfigLines

  newtype Byte = x: int | 0 <= x < 256

  type Bytes = seq<Byte>

  predicate ByteChar(c: char) { c as int < 256 }

  predicate ByteText(text: string) { forall i :: 0 <= i < |text| ==> ByteChar(text[i]) }

  function Encode(bytes: Bytes): (text: string)
    ensures |text| == |bytes| && ByteText(text)
    ensures forall i :: 0 <= i < |bytes| ==> text[i] as int == bytes[i] as int
  {
    seq(|bytes|, i requires 0 <= i < |bytes| => bytes[i] as char)
  }

  /** Undoes the encoding; a character that is no byte would be a panic, so it is ruled out here. */
  function Decode(text: string): (bytes: Bytes)
    requires ByteText(text)
    ensures |bytes| == |text|
  {
    seq(|text|, i requires 0 <= i < |text| => text[i] as Byte)
  }

  /** Encoding and decoding are inverse bijections between byte strings and byte texts. */
  lemma EncodeDecode(bytes: Bytes, text: string)
    ensures Decode(Encode(bytes)) == bytes
    ensures ByteText(text) ==> (Encode(bytes) == text <==> bytes == Decode(text))
  {
    if ByteText(text) {
      assert Encode(Decode(text)) == text;
    }
  }

  // ----- The parser keeps to bytes -----

  predicate ByteOption(text: Option<string>) { text.Some? ==> ByteText(text.value) }

  predicate ByteScope(scope: Scope) { scope.Some? ==> ByteText(scope.value.0) && ByteOption(scope.value.1) }

  predicate ByteElement(e: Element) {
    ByteText(e.raw)
    && (e.Section? ==> ByteText(e.section) && ByteOption(e.subsection))
    && (e.Variable? ==> ByteText(e.section) && ByteOption(e.subsection) && ByteText(e.name) && ByteOption(e.value))
  }

  predicate ByteElements(es: seq<Element>) { forall e <- es :: ByteElement(e) }

  lemma LowerIsByte(text: string)
    requires ByteText(text)
    ensures ByteText(Lower(text))
  {
  }

  lemma {:induction false} QuotedIsByte(text: string, pos: nat, out: string)
    requires pos <= |text| && ByteText(text) && ByteText(out)
    ensures var r := QuotedSubsection(text, pos, out); r.Ok? ==> ByteText(r.value.value)
    decreases |text| - pos
  {
    if pos < |text| && text[pos] != '\n' && text[pos] != '"' {
      if text[pos] == '\\' {
        if pos + 1 < |text| { QuotedIsByte(text, pos + 2, out + [text[pos + 1]]); }
      } else {
        QuotedIsByte(text, pos + 1, out + [text[pos]]);
      }
    }
  }

  lemma HeaderIsByte(text: string, pos: nat)
    requires pos < |text| && ByteText(text)
    ensures var r := Header(text, pos); r.Ok? ==> ByteText(r.value.value.0) && ByteOption(r.value.value.1)
  {
    hide QuotedSubsection, BlankEnd, NameEnd, IndexOfDot, Lower;
    var nameEnd := NameEnd(text, pos + 1, true);
    var name := text[pos + 1..nameEnd];
    var open := BlankEnd(text, nameEnd);
    LowerIsByte(name);
    if open < |text| && text[open] == '"' {
      QuotedIsByte(text, open + 1, "");
    } else {
      var dot := IndexOfDot(name);
      LowerIsByte(name[..dot]);
      if dot < |name| { LowerIsByte(name[dot + 1..]); }
    }
  }

  lemma {:induction false} ScanIsByte(text: string, pos: nat, p: Partial)
    requires p.end <= pos <= |text| && ByteText(text) && ByteText(p.value)
    ensures var r := ScanValue(text, pos, p); r.Ok? ==> ByteText(r.value.value.0)
    decreases |text| - pos
  {
    hide Step;
    if pos < |text| {
      var step := Step(text, pos, p);
      if step.More? {
        StepIsByte(text, pos, p);
        ScanIsByte(text, step.next, step.p);
      }
    }
  }

  lemma StepIsByte(text: string, pos: nat, p: Partial)
    requires p.end <= pos < |text| && ByteText(text) && ByteText(p.value)
    ensures var step := Step(text, pos, p); step.More? ==> ByteText(step.p.value)
  {
    assert ByteText(p.Flushed());
  }

  lemma VariableIsByte(text: string, pos: nat, probe: nat, scope: Scope)
    requires pos <= probe < |text| && IsAlpha(text[probe]) && ByteText(text) && ByteScope(scope)
    ensures var r := VariableAt(text, pos, probe, scope); r.Ok? ==> ByteElement(r.value.value)
  {
    hide BlankEnd, NameEnd, LineEnd, Lower, ScanValue;
    var nameEnd := NameEnd(text, probe, false);
    LowerIsByte(text[probe..nameEnd]);
    var at := BlankEnd(text, nameEnd);
    if at < |text| {
      var start := BlankEnd(text, at + 1);
      ScanIsByte(text, start, Partial("", start, false, 0));
    }
  }

  lemma ElementIsByte(text: string, pos: nat, scope: Scope)
    requires pos < |text| && ByteText(text) && ByteScope(scope)
    ensures var r := ElementAt(text, pos, scope);
            r.Ok? ==> ByteElement(r.value.value) && ByteScope(ScopeAfter(r.value.value, scope))
  {
    hide BlankEnd, LineEnd, VariableAt, Header;
    var probe := BlankEnd(text, pos);
    if probe < |text| {
      HeaderIsByte(text, probe);
      if IsAlpha(text[probe]) { VariableIsByte(text, pos, probe, scope); }
    }
  }

  /** Names, subsections and values read from byte text are byte text. */
  lemma {:induction false} ParsedIsByte(text: string, pos: nat, scope: Scope)
    requires pos <= |text| && ByteText(text) && ByteScope(scope)
    ensures Elements(text, pos, scope).Ok? ==> ByteElements(Elements(text, pos, scope).value)
    decreases |text| - pos
  {
    hide ElementAt, ByteElement, ByteScope;
    if pos < |text| {
      ElementIsByte(text, pos, scope);
      var r := ElementAt(text, pos, scope);
      if r.Ok? {
        ParsedIsByte(text, r.value.next, ScopeAfter(r.value.value, scope));
      }
    }
  }

  // ----- Lookups -----

  /** The elements of a file of bytes; every lookup below decodes without a panic on it. */
  type ByteConfig = es: seq<Element> | ByteElements(es) witness []

  function Parse(bytes: Bytes): Result<ByteConfig, ParseError> {
    var r := Elements(Encode(bytes), 0, None);
    ParsedIsByte(Encode(bytes), 0, None);
    if r.Ok? then Ok(r.value) else Err(r.error)
  }

  /** The bytes are read as the lines of the text of their characters, or rejected as that text is. */
  lemma ParseIsLines(bytes: Bytes)
    ensures var text := Encode(bytes);
            match Parse(bytes) case Ok(es) => Lines(text, 0, None, es, |text|) case Err(e) => Rejected(text, e)
  {
    hide Lines, Rejected, Elements;
    var text, r := Encode(bytes), Elements(Encode(bytes), 0, None);
    if r.Ok? { ParsesIffLines(text, r.value); } else { RejectsIffBadLine(text, r.error); }
  }

  datatype Key = Key(section: string, subsection: Option<string>, name: string)

  /** The key asked for: section and name without case, the subsection as bytes. */
  function Asked(section: string, subsection: Option<Bytes>, name: string): Key {
    Key(Lower(section), if subsection.Some? then Some(Encode(subsection.value)) else None, Lower(name))
  }

  predicate Matches(e: Element, key: Key) {
    e.Variable? && e.section == key.section && e.name == key.name && e.subsection == key.subsection
  }

  function RawValue(e: Element): Option<Bytes>
    requires ByteElement(e) && e.Variable?
  {
    if e.value.Some? then Some(Decode(e.value.value)) else None
  }

  /** The last value of a variable; a valueless occurrence is told from no occurrence. */
  function GetRaw(es: ByteConfig, key: Key): Option<Option<Bytes>>
  {
    if es == [] then None
    else
      var last := |es| - 1;
      if Matches(es[last], key) then Some(RawValue(es[last])) else GetRaw(es[..last], key)
  }

  /** Every value of a variable in file order. */
  function GetAllRaw(es: ByteConfig, key: Key): seq<Option<Bytes>>
  {
    if es == [] then []
    else (if Matches(es[0], key) then [RawValue(es[0])] else []) + GetAllRaw(es[1..], key)
  }

  lemma {:induction false} GetAllRawSnoc(es: ByteConfig, e: Element, key: Key)
    requires ByteElement(e)
    ensures GetAllRaw(es + [e], key) == GetAllRaw(es, key) + (if Matches(e, key) then [RawValue(e)] else [])
    decreases |es|
  {
    if es == [] {
      assert es + [e] == [e] && [e][1..] == [];
    } else {
      assert (es + [e])[1..] == es[1..] + [e];
      GetAllRawSnoc(es[1..], e, key);
    }
  }

  /** The single lookup is the last of the list lookup. */
  lemma {:induction false} GetRawIsLast(es: ByteConfig, key: Key)
    ensures var all := GetAllRaw(es, key);
            GetRaw(es, key) == if all == [] then None else Some(all[|all| - 1])
    decreases |es|
  {
    if es != [] {
      var last := |es| - 1;
      assert es == es[..last] + [es[last]];
      GetAllRawSnoc(es[..last], es[last], key);
      GetRawIsLast(es[..last], key);
    }
  }

  /** The single lookup answers with the last matching element of the file, and with none only if there is none. */
  lemma {:induction false} GetRawFindsLastMatch(es: ByteConfig, key: Key)
    ensures GetRaw(es, key) == None <==> forall e <- es :: !Matches(e, key)
    ensures GetRaw(es, key).Some? ==>
              exists i :: 0 <= i < |es| && Matches(es[i], key) && GetRaw(es, key) == Some(RawValue(es[i]))
                          && forall j :: i < j < |es| ==> !Matches(es[j], key)
    decreases |es|
  {
    if es != [] {
      var last := |es| - 1;
      if !Matches(es[last], key) {
        GetRawFindsLastMatch(es[..last], key);
        assert forall e :: e in es ==> e in es[..last] || e == es[last];
      }
    }
  }

  /** A decoded value is exactly what the file says: encoding it again gives the parsed text. */
  lemma RawValueIsExact(e: Element, bytes: Bytes)
    requires ByteElement(e) && e.Variable?
    ensures RawValue(e) == Some(bytes) <==> e.value == Some(Encode(bytes))
  {
    if e.value.Some? { EncodeDecode(bytes, e.value.value); }
  }

  // ----- Lookups by what was asked -----

  /** The text has exactly these bytes. */
  predicate SameBytes(text: string, bytes: Bytes) {
    |text| == |bytes| && forall i :: 0 <= i < |text| ==> text[i] as int == bytes[i] as int
  }

  predicate SameOption(text: Option<string>, bytes: Option<Bytes>) {
    if bytes.Some? then text.Some? && SameBytes(text.value, bytes.value) else text.None?
  }

  /** A variable of the section and name asked for, in whatever case they were, and of exactly that subsection. */
  ghost predicate Answers(e: Element, section: string, subsection: Option<Bytes>, name: string) {
    e.Variable? && Folds(section, e.section) && SameOption(e.subsection, subsection) && Folds(name, e.name)
  }

  /** The values of the answering variables, in file order and once each. */
  ghost predicate Listed(es: seq<Element>, section: string, subsection: Option<Bytes>, name: string,
                         values: seq<Option<Bytes>>)
    decreases |es|
  {
    if es == [] then values == []
    else if Answers(es[0], section, subsection, name) then
      values != [] && SameOption(es[0].value, values[0]) && Listed(es[1..], section, subsection, name, values[1..])
    else Listed(es[1..], section, subsection, name, values)
  }

  lemma MatchesIffAnswers(e: Element, section: string, subsection: Option<Bytes>, name: string)
    requires ByteElement(e)
    ensures Matches(e, Asked(section, subsection, name)) <==> Answers(e, section, subsection, name)
    ensures Answers(e, section, subsection, name) ==> e.Variable? && SameOption(e.value, RawValue(e))
  {
    if e.Variable? {
      LowerFolds(section, e.section);
      LowerFolds(name, e.name);
      if subsection.Some? && e.subsection.Some? {
        EncodeDecode(subsection.value, e.subsection.value);
        assert SameBytes(e.subsection.value, subsection.value) ==> e.subsection.value == Encode(subsection.value);
      }
    }
  }

  /** The list lookup gives the values of exactly the variables asked for. */
  lemma {:induction false} GetAllRawIsListed(es: ByteConfig, section: string, subsection: Option<Bytes>, name: string)
    ensures Listed(es, section, subsection, name, GetAllRaw(es, Asked(section, subsection, name)))
    decreases |es|
  {
    hide Answers, Matches, SameOption;
    if es != [] {
      MatchesIffAnswers(es[0], section, subsection, name);
      GetAllRawIsListed(es[1..], section, subsection, name);
      var key := Asked(section, subsection, name);
      if Matches(es[0], key) {
        assert ([RawValue(es[0])] + GetAllRaw(es[1..], key))[1..] == GetAllRaw(es[1..], key);
      } else {
        assert [] + GetAllRaw(es[1..], key) == GetAllRaw(es[1..], key);
      }
    }
  }

  /** The single lookup gives the value of the last variable asked for, and nothing only if there is none. */
  lemma {:induction false} GetRawAnswers(es: ByteConfig, section: string, subsection: Option<Bytes>, name: string)
    ensures var r := GetRaw(es, Asked(section, subsection, name));
            (r.None? <==> forall e <- es :: !Answers(e, section, subsection, name))
            && (r.Some? ==> exists i :: 0 <= i < |es| && Answers(es[i], section, subsection, name)
                                        && SameOption(es[i].value, r.value)
                                        && forall j :: i < j < |es| ==> !Answers(es[j], section, subsection, name))
    decreases |es|
  {
    hide Answers, Matches, SameOption;
    if es != [] {
      var last := |es| - 1;
      MatchesIffAnswers(es[last], section, subsection, name);
      if !Answers(es[last], section, subsection, name) {
        GetRawAnswers(es[..last], section, subsection, name);
        assert forall e :: e in es ==> e in es[..last] || e == es[last];
      }
    }
  }
}
