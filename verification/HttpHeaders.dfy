/**
Which `http.extraHeader` values apply to a request: matching of parsed URL patterns, the specificity order,
and the one-pass selection, proved equal to choosing the most specific level first.
*/
module HttpHeaders {
  import opened Common

  /** A parsed request URL or pattern. The path always starts with a slash. */
  datatype Url = Url(scheme: string, user: Option<string>, host: string, port: Option<string>, path: string) {
    predicate Valid() { |path| > 0 && path[0] == '/' }
  }

  /** Ranked by matched literal host length, then path length, then whether a user was pinned. */
  datatype Specificity = Specificity(hostLen: nat, pathLen: nat, userMatched: bool) {
    predicate Less(other: Specificity) {
      hostLen < other.hostLen ||
      (hostLen == other.hostLen &&
       (pathLen < other.pathLen || (pathLen == other.pathLen && !userMatched && other.userMatched)))
    }
  }

  const SECTION := Specificity(0, 0, false)

  // ----- Hosts -----

  /** The dot-separated labels of a host; a host without dots is one label. */
  function Labels(host: string): (labels: seq<string>)
    ensures |labels| > 0
  {
    if host == "" then [""]
    else
      var rest := Labels(host[1..]);
      if host[0] == '.' then [""] + rest else [[host[0]] + rest[0]] + rest[1..]
  }

  function Joined(labels: seq<string>): string
    requires |labels| > 0
  {
    if |labels| == 1 then labels[0] else labels[0] + "." + Joined(labels[1..])
  }

  /** Splitting loses nothing: a host is its labels joined by dots, and no label has one. */
  lemma {:induction false} LabelsJoin(host: string)
    ensures Joined(Labels(host)) == host
    ensures forall i :: 0 <= i < |Labels(host)| ==> '.' !in Labels(host)[i]
  {
    if host != "" {
      LabelsJoin(host[1..]);
    }
  }

  /** One pattern label against one host label: `*` stands for any non-empty label. */
  predicate LabelMatches(pattern: string, hostLabel: string) {
    if pattern == "*" then hostLabel != "" else pattern == hostLabel
  }

  predicate LabelsMatch(patterns: seq<string>, labels: seq<string>) {
    |patterns| == |labels| && forall i :: 0 <= i < |labels| ==> LabelMatches(patterns[i], labels[i])
  }

  /** The characters matched literally. */
  function LiteralLen(patterns: seq<string>): nat {
    if patterns == [] then 0
    else LiteralLen(patterns[..|patterns| - 1]) + LabelLen(patterns[|patterns| - 1])
  }

  function LabelLen(pattern: string): nat { if pattern == "*" then 0 else |pattern| }

  function HostSpecificity(pattern: string, host: string): Option<nat> {
    if LabelsMatch(Labels(pattern), Labels(host)) then Some(LiteralLen(Labels(pattern))) else None
  }

  method HostMatch(pattern: string, targetHost: string) returns (r: Option<nat>)
    ensures r == HostSpecificity(pattern, targetHost)
  {
    var patternLabels, targetLabels := Labels(pattern), Labels(targetHost);
    if |patternLabels| != |targetLabels| {
      return None;
    }
    var literalLen := 0;
    for i := 0 to |patternLabels|
      invariant LabelsMatch(patternLabels[..i], targetLabels[..i])
      invariant literalLen == LiteralLen(patternLabels[..i])
    {
      var patternLabel, targetLabel := patternLabels[i], targetLabels[i];
      assert patternLabels[..i + 1][..i] == patternLabels[..i];
      if patternLabel == "*" {
        if targetLabel == "" {
          return None;
        }
      } else if patternLabel != targetLabel {
        return None;
      } else {
        literalLen := literalLen + |patternLabel|;
      }
    }
    assert patternLabels[..|patternLabels|] == patternLabels && targetLabels[..|targetLabels|] == targetLabels;
    return Some(literalLen);
  }

  predicate Wildcard(host: string) { "*" in Labels(host) }

  /** A pattern without a star matches only its own host. */
  lemma ExactMatchesItself(pattern: string, host: string)
    requires !Wildcard(pattern)
    ensures HostSpecificity(pattern, host).Some? <==> pattern == host
  {
    if LabelsMatch(Labels(pattern), Labels(host)) {
      assert Labels(pattern) == Labels(host);
      LabelsJoin(pattern);
      LabelsJoin(host);
    }
  }

  /** Matching labels are no longer literally than the host's own, and shorter once one is a star. */
  lemma {:induction false} LiteralLenOfMatch(patterns: seq<string>, exact: seq<string>)
    requires LabelsMatch(patterns, exact) && "*" !in exact
    ensures LiteralLen(patterns) <= LiteralLen(exact)
    ensures "*" in patterns ==> LiteralLen(patterns) < LiteralLen(exact)
  {
    if patterns != [] {
      var n := |patterns| - 1;
      assert "*" in patterns ==> "*" in patterns[..n] || patterns[n] == "*";
      LiteralLenOfMatch(patterns[..n], exact[..n]);
    }
  }

  /** An exact host strictly outranks every wildcard host matching the same target. */
  lemma ExactHostOutranksWildcard(exact: string, wildcard: string, host: string)
    requires !Wildcard(exact) && Wildcard(wildcard)
    requires HostSpecificity(exact, host).Some? && HostSpecificity(wildcard, host).Some?
    ensures HostSpecificity(wildcard, host).value < HostSpecificity(exact, host).value
  {
    ExactMatchesItself(exact, host);
    LiteralLenOfMatch(Labels(wildcard), Labels(exact));
  }

  // ----- Paths -----

  /** A single trailing slash of the pattern is ignored. */
  function Trimmed(path: string): string {
    if |path| > 0 && path[|path| - 1] == '/' then path[..|path| - 1] else path
  }

  predicate PathMatches(patternPath: string, targetPath: string) {
    var pattern := Trimmed(patternPath);
    pattern <= targetPath &&
    (var rest := targetPath[|pattern|..]; rest == "" || rest[0] == '/')
  }

  /** The length of a matching path decides the path: a prefix of the target, or the target with a slash added. */
  lemma MatchedPath(pattern: string, target: string)
    requires PathMatches(pattern, target)
    ensures pattern == if |pattern| <= |target| then target[..|pattern|] else target + "/"
  {
    if Trimmed(pattern) != pattern {
      assert pattern == Trimmed(pattern) + "/";
    }
  }

  /** Two patterns matching one target with paths of equal length have the same path. */
  lemma EqualLengthPathsAreEqual(p: string, q: string, target: string)
    requires PathMatches(p, target) && PathMatches(q, target) && |p| == |q|
    ensures p == q
  {
    MatchedPath(p, target);
    MatchedPath(q, target);
  }

  /** The match ends at a slash boundary: the pattern is the target, or a leading run of its components. */
  lemma PathMatchesAtBoundary(pattern: string, target: string, tail: string)
    requires Trimmed(pattern) == pattern
    ensures target == pattern + tail && (tail == "" || tail[0] == '/') ==> PathMatches(pattern, target)
    ensures target == pattern + tail && tail != "" && tail[0] != '/' ==> !PathMatches(pattern, target)
  {
    if target == pattern + tail {
      assert target[|pattern|..] == tail;
    }
  }

  // ----- URLs -----

  function MatchSpecificity(pattern: Url, target: Url): Option<Specificity> {
    if pattern.scheme != target.scheme || pattern.port != target.port then None
    else if pattern.user.Some? && target.user != pattern.user then None
    else
      var hostLen := HostSpecificity(pattern.host, target.host);
      if hostLen.None? then None
      else if !PathMatches(pattern.path, target.path) then None
      else Some(Specificity(hostLen.value, |pattern.path|, pattern.user.Some?))
  }

  /** A section-wide entry never ties with a URL entry: every matching URL outranks it. */
  lemma UrlOutranksSection(pattern: Url, target: Url)
    requires pattern.Valid() && MatchSpecificity(pattern, target).Some?
    ensures SECTION.Less(MatchSpecificity(pattern, target).value)
  {
  }

  /** Patterns that tie on one target agree on everything but the host; they agree on that too unless it is a wildcard. */
  lemma TiesAgree(p: Url, q: Url, target: Url)
    requires MatchSpecificity(p, target).Some? && MatchSpecificity(p, target) == MatchSpecificity(q, target)
    ensures q == p.(host := q.host)
    ensures !Wildcard(p.host) ==> q == p
  {
    EqualLengthPathsAreEqual(p.path, q.path, target.path);
    if !Wildcard(p.host) {
      ExactMatchesItself(p.host, target.host);
      if Wildcard(q.host) {
        ExactHostOutranksWildcard(p.host, q.host, target.host);
      } else {
        ExactMatchesItself(q.host, target.host);
      }
    }
  }

  /** What a matching pattern ranks by, counted on the pattern itself: its host without dots and stars, its whole path, its user. */
  lemma SpecificityCounts(pattern: Url, target: Url)
    requires MatchSpecificity(pattern, target).Some?
    ensures var s := MatchSpecificity(pattern, target).value;
            s.hostLen + |Labels(pattern.host)| - 1 + Stars(Labels(pattern.host)) == |pattern.host|
            && s.pathLen == |pattern.path| && (s.userMatched <==> pattern.user.Some?)
  {
    LabelsJoin(pattern.host);
    LiteralLenCounts(Labels(pattern.host));
  }

  function Stars(labels: seq<string>): nat {
    if labels == [] then 0 else Stars(labels[..|labels| - 1]) + if labels[|labels| - 1] == "*" then 1 else 0
  }

  lemma {:induction false} LiteralLenCounts(labels: seq<string>)
    requires labels != []
    ensures LiteralLen(labels) + |labels| - 1 + Stars(labels) == |Joined(labels)|
  {
    var n := |labels| - 1;
    if n > 0 {
      LiteralLenCounts(labels[..n]);
      JoinedSnoc(labels[..n], labels[n]);
      assert labels == labels[..n] + [labels[n]];
    }
  }

  lemma {:induction false} JoinedSnoc(labels: seq<string>, last: string)
    requires labels != []
    ensures |Joined(labels + [last])| == |Joined(labels)| + 1 + |last|
  {
    if |labels| > 1 {
      assert (labels + [last])[1..] == labels[1..] + [last];
      JoinedSnoc(labels[1..], last);
    } else {
      assert (labels + [last])[1..] == [last];
    }
  }

  /** The target has the pattern's scheme and port, its user if it has one, its host label by label, and its path. */
  ghost predicate Fitting(pattern: Url, target: Url) {
    pattern.scheme == target.scheme && pattern.port == target.port
    && (pattern.user == None || pattern.user == target.user)
    && |Labels(pattern.host)| == |Labels(target.host)|
    && (forall i :: 0 <= i < |Labels(target.host)| ==>
          var p, l := Labels(pattern.host)[i], Labels(target.host)[i]; p == l || (p == "*" && l != ""))
    && exists tail: string :: BoundaryTail(pattern.path, target.path, tail)
  }

  lemma MatchesIff(pattern: Url, target: Url)
    ensures MatchSpecificity(pattern, target).Some? <==> Fitting(pattern, target)
  {
    if PathMatches(pattern.path, target.path) {
      var path := Trimmed(pattern.path);
      assert BoundaryTail(pattern.path, target.path, target.path[|path|..]);
    }
    forall tail: string | BoundaryTail(pattern.path, target.path, tail) ensures PathMatches(pattern.path, target.path) {
      BoundaryTailMatches(pattern.path, target.path, tail);
    }
  }

  /** The target is the pattern, with at most one final slash dropped, and a tail that is empty or starts with a slash. */
  ghost predicate BoundaryTail(pattern: string, target: string, tail: string) {
    (tail == "" || tail[0] == '/')
    && if pattern != "" && pattern[|pattern| - 1] == '/' then target + "/" == pattern[..|pattern| - 1] + tail + "/"
       else target == pattern + tail
  }

  lemma BoundaryTailMatches(pattern: string, target: string, tail: string)
    requires BoundaryTail(pattern, target, tail)
    ensures PathMatches(pattern, target)
  {
    var path := Trimmed(pattern);
    assert target == path + tail by {
      if path != pattern {
        assert (target + "/")[..|target|] == target;
        assert (path + tail + "/")[..|path + tail|] == path + tail;
      }
    }
    assert target[|path|..] == tail;
  }

  /** More of the host outranks everything, then a longer path outranks a pinned user, and that outranks none. */
  lemma RankedByHostPathUser(s: Specificity, t: Specificity)
    ensures s.hostLen < t.hostLen ==> s.Less(t)
    ensures s.hostLen == t.hostLen && s.pathLen < t.pathLen ==> s.Less(t)
    ensures s.hostLen == t.hostLen && s.pathLen == t.pathLen && !s.userMatched && t.userMatched ==> s.Less(t)
    ensures s.Less(t) ==> !t.Less(s) && s != t
    ensures s.Less(t) || t.Less(s) || s == t
  {
  }

  // ----- Selection -----

  datatype Scope = Section | Pattern(url: Url) | Unparseable

  /** One `extraHeader` entry: where it applies and its value, absent when the line had no `=`. */
  datatype Entry = Entry(scope: Scope, value: Option<string>)

  function EntrySpecificity(e: Entry, target: Url): Option<Specificity> {
    match e.scope
    case Section => Some(SECTION)
    case Pattern(url) => MatchSpecificity(url, target)
    case Unparseable => None
  }

  predicate Applies(e: Entry, target: Url) { EntrySpecificity(e, target).Some? }

  /** Section-wide entries apply to every target at the lowest rank, URL entries to fitting targets above it, others to none. */
  lemma AppliesIff(e: Entry, target: Url)
    requires e.scope.Pattern? ==> e.scope.url.Valid()
    ensures Applies(e, target) <==> e.scope.Section? || (e.scope.Pattern? && Fitting(e.scope.url, target))
    ensures e.scope.Section? ==> forall s: Specificity :: !s.Less(EntrySpecificity(e, target).value)
    ensures e.scope.Pattern? && Applies(e, target) ==>
              forall s :: EntrySpecificity(Entry(Section, s), target).value.Less(EntrySpecificity(e, target).value)
  {
    if e.scope.Pattern? {
      MatchesIff(e.scope.url, target);
      if Applies(e, target) { UrlOutranksSection(e.scope.url, target); }
    }
  }

  /** The values set at exactly one level, in config order. */
  function Level(entries: seq<Entry>, target: Url, level: Specificity): seq<string> {
    if entries == [] then []
    else
      var last := entries[|entries| - 1];
      Level(entries[..|entries| - 1], target, level) +
      if EntrySpecificity(last, target) == Some(level) && last.value.Some? then [last.value.value] else []
  }

  /** The positions are those of the entries with a value at this level, in order, and the values theirs. */
  ghost predicate AtLevel(entries: seq<Entry>, target: Url, level: Specificity, values: seq<string>, places: seq<nat>) {
    |places| == |values| && (forall i, j :: 0 <= i < j < |places| ==> places[i] < places[j])
    && (forall i :: 0 <= i < |places| ==>
          places[i] < |entries| && EntrySpecificity(entries[places[i]], target) == Some(level)
          && entries[places[i]].value == Some(values[i]))
    && forall j: nat :: j < |entries| && EntrySpecificity(entries[j], target) == Some(level) && entries[j].value.Some? ==>
                     j in places
  }

  lemma {:induction false} LevelHasPlaces(entries: seq<Entry>, target: Url, level: Specificity) returns (places: seq<nat>)
    ensures AtLevel(entries, target, level, Level(entries, target, level), places)
  {
    hide EntrySpecificity;
    places := [];
    if entries != [] {
      var n := |entries| - 1;
      places := LevelHasPlaces(entries[..n], target, level);
      if EntrySpecificity(entries[n], target) == Some(level) && entries[n].value.Some? {
        assert forall j: nat :: j in places ==> j in places + [n];
        places := places + [n];
      }
    }
  }

  /** What remains after the last empty value. */
  function AfterLastEmpty(values: seq<string>): seq<string> {
    if values == [] then []
    else if values[|values| - 1] == "" then []
    else AfterLastEmpty(values[..|values| - 1]) + [values[|values| - 1]]
  }

  /** `AfterLastEmpty` is the longest suffix without an empty value. */
  lemma {:induction false} AfterLastEmptyIsSuffix(values: seq<string>)
    ensures var kept := AfterLastEmpty(values);
            |kept| <= |values| && kept == values[|values| - |kept|..] && "" !in kept
            && (|kept| < |values| ==> values[|values| - |kept| - 1] == "")
  {
    if values != [] && values[|values| - 1] != "" {
      AfterLastEmptyIsSuffix(values[..|values| - 1]);
    }
  }

  /** `level` is the highest any applying entry has. */
  ghost predicate Highest(entries: seq<Entry>, target: Url, level: Specificity) {
    (exists i :: 0 <= i < |entries| && EntrySpecificity(entries[i], target) == Some(level)) &&
    forall i :: 0 <= i < |entries| && Applies(entries[i], target) ==>
                  !level.Less(EntrySpecificity(entries[i], target).value)
  }

  predicate MissingValue(e: Entry, target: Url) { Applies(e, target) && e.value.None? }

  /** There is at most one highest level, because the order is total. */
  lemma HighestIsUnique(entries: seq<Entry>, target: Url, level: Specificity, other: Specificity)
    requires Highest(entries, target, level) && Highest(entries, target, other)
    ensures level == other
  {
    assert !level.Less(other) && !other.Less(level);
  }

  function SplitOnce(raw: string): Option<(string, string)> {
    if raw == "" then None
    else if raw[0] == ':' then Some(("", raw[1..]))
    else match SplitOnce(raw[1..])
      case None => None
      case Some((name, value)) => Some(([raw[0]] + name, value))
  }

  /** The split is at the first colon; without one the line is malformed. */
  lemma {:induction false} SplitOnceAtFirstColon(raw: string)
    ensures SplitOnce(raw).None? <==> ':' !in raw
    ensures SplitOnce(raw).Some? ==>
              var (name, value) := SplitOnce(raw).value; ':' !in name && raw == name + ":" + value
  {
    if raw != "" && raw[0] != ':' {
      SplitOnceAtFirstColon(raw[1..]);
    }
  }

  predicate Blank(c: char) {
    '\t' <= c <= '\r' || c in " \U{85}\U{A0}\U{1680}\U{2028}\U{2029}\U{202F}\U{205F}\U{3000}" || '\U{2000}' <= c <= '\U{200A}'
  }

  /** These are the characters with the White_Space property. */
  lemma BlankIsWhiteSpace(c: char)
    ensures Blank(c) <==>
            c as int in {9, 10, 11, 12, 13, 32, 133, 160, 5760, 8192, 8193, 8194, 8195, 8196, 8197, 8198, 8199, 8200,
                         8201, 8202, 8232, 8233, 8239, 8287, 12288}
  {
  }

  function Trim(s: string): string {
    if s == "" then ""
    else if Blank(s[0]) then Trim(s[1..])
    else if Blank(s[|s| - 1]) then Trim(s[..|s| - 1])
    else s
  }

  /** Name and value of a header line; none when malformed or when the value is empty. */
  function SplitHeader(raw: string): Option<(string, string)> {
    match SplitOnce(raw)
    case None => None
    case Some((name, value)) =>
      var value := if value != "" && value[0] == ' ' then value[1..] else value;
      if value == "" then None else Some((Trim(name), value))
  }

  function Headers(values: seq<string>): seq<(string, string)> {
    if values == [] then []
    else
      Headers(values[..|values| - 1]) +
      match SplitHeader(values[|values| - 1]) case None => [] case Some(pair) => [pair]
  }

  // ----- What is sent -----

  ghost predicate Blanks(s: string) { forall i :: 0 <= i < |s| ==> Blank(s[i]) }

  /** Nothing to trim. */
  ghost predicate Tight(s: string) { s == "" || (!Blank(s[0]) && !Blank(s[|s| - 1])) }

  /** One leading space, if there is one, is dropped. */
  ghost predicate Despaced(raw: string, value: string) {
    if raw != "" && raw[0] == ' ' then raw == " " + value else raw == value
  }

  /** The line is blanks, the name, blanks, a colon and the raw value, and the first colon is this one. */
  ghost predicate Parts(line: string, before: string, name: string, after: string, raw: string) {
    Blanks(before) && Blanks(after) && Tight(name) && ':' !in before + name + after
    && line == before + name + after + ":" + raw
  }

  /** The line is sent as this name and value. */
  ghost predicate SentAs(line: string, name: string, value: string) {
    value != ""
    && exists before: string, after: string, raw: string :: Parts(line, before, name, after, raw) && Despaced(raw, value)
  }

  /** The line has no colon, or no value after it but at most one space. */
  ghost predicate SendsNothing(line: string) {
    ':' !in line || exists name: string :: Empty(line, name)
  }

  ghost predicate Empty(line: string, name: string) { ':' !in name && (line == name + ":" || line == name + ": ") }

  /** The pairs sent for these lines: one for each line that is sent, in order. */
  ghost predicate SentFor(values: seq<string>, pairs: seq<(string, string)>)
    decreases |values|
  {
    if values == [] then pairs == []
    else
      var n := |values| - 1;
      if SendsNothing(values[n]) then SentFor(values[..n], pairs)
      else
        pairs != []
        && var m := |pairs| - 1; SentAs(values[n], pairs[m].0, pairs[m].1) && SentFor(values[..n], pairs[..m])
  }

  /** Trimming takes blanks from both ends and leaves none. */
  lemma {:induction false} TrimStrips(s: string) returns (before: string, after: string)
    ensures s == before + Trim(s) + after && Blanks(before) && Blanks(after) && Tight(Trim(s))
    decreases |s|
  {
    hide Blank;
    if s == "" {
      before, after := "", "";
    } else if Blank(s[0]) {
      before, after := TrimStrips(s[1..]);
      assert s == [s[0]] + s[1..] == ([s[0]] + before) + Trim(s) + after;
      before := [s[0]] + before;
    } else if Blank(s[|s| - 1]) {
      var n := |s| - 1;
      before, after := TrimStrips(s[..n]);
      assert s == s[..n] + [s[n]] == before + Trim(s) + (after + [s[n]]);
      after := after + [s[n]];
    } else {
      before, after := "", "";
    }
  }

  /** And there is only one way to do so. */
  lemma {:induction false} TrimIs(before: string, name: string, after: string)
    requires Blanks(before) && Blanks(after) && Tight(name)
    ensures Trim(before + name + after) == name
    decreases |before| + |after|
  {
    hide Blank;
    var s := before + name + after;
    if before != "" {
      assert s[0] == before[0] && s[1..] == before[1..] + name + after;
      TrimIs(before[1..], name, after);
    } else if after != "" {
      var n := |s| - 1;
      assert s[n] == after[|after| - 1] && s[..n] == "" + name + after[..|after| - 1];
      assert before == "";
      TrimIs("", name, after[..|after| - 1]);
      if name == "" { BlanksTrim(s); }
    } else {
      assert s == name;
    }
  }

  lemma {:induction false} BlanksTrim(s: string)
    requires Blanks(s)
    ensures Trim(s) == ""
  {
    hide Blank;
    if s != "" { BlanksTrim(s[1..]); }
  }

  lemma {:induction false} SplitOnceIs(name: string, raw: string)
    requires ':' !in name
    ensures SplitOnce(name + ":" + raw) == Some((name, raw))
  {
    var s := name + ":" + raw;
    if name != "" {
      assert s[0] == name[0] && s[1..] == name[1..] + ":" + raw;
      SplitOnceIs(name[1..], raw);
      assert [name[0]] + name[1..] == name;
    } else {
      assert s[1..] == raw;
    }
  }

  /** A line is split into exactly the name and value it is sent as. */
  lemma SplitHeaderIff(line: string, name: string, value: string)
    ensures SplitHeader(line) == Some((name, value)) <==> SentAs(line, name, value)
  {
    hide Blank, Trim, SplitOnce, Tight, Blanks;
    if SentAs(line, name, value) {
      var before: string, after: string, raw: string :| Parts(line, before, name, after, raw) && Despaced(raw, value);
      SplitOnceIs(before + name + after, raw);
      TrimIs(before, name, after);
      if raw != "" && raw[0] == ' ' { assert raw[1..] == value; }
    }
    if SplitHeader(line) == Some((name, value)) {
      SplitOnceAtFirstColon(line);
      var (whole, raw) := SplitOnce(line).value;
      var before, after := TrimStrips(whole);
      assert Parts(line, before, name, after, raw);
      if raw != "" && raw[0] == ' ' { assert raw == " " + raw[1..]; }
      assert Despaced(raw, value);
    }
  }

  /** And into nothing exactly if nothing is sent for it. */
  lemma SplitHeaderNoneIff(line: string)
    ensures SplitHeader(line).None? <==> SendsNothing(line)
  {
    hide SplitOnce, Trim;
    SplitOnceAtFirstColon(line);
    if ':' in line {
      var (name, raw) := SplitOnce(line).value;
      if SplitHeader(line).None? {
        assert raw == "" || raw == " ";
        assert Empty(line, name);
      }
      forall n: string | Empty(line, n) ensures SplitHeader(line).None? {
        SplitOnceIs(n, "");
        SplitOnceIs(n, " ");
        assert n + ":" + "" == n + ":" && n + ":" + " " == n + ": ";
      }
    }
  }

  lemma {:induction false} HeadersAreSent(values: seq<string>)
    ensures SentFor(values, Headers(values))
  {
    hide SendsNothing, SentAs, SplitHeader;
    if values != [] {
      var n := |values| - 1;
      HeadersAreSent(values[..n]);
      SplitHeaderNoneIff(values[n]);
      var pair := SplitHeader(values[n]);
      if pair.Some? {
        SplitHeaderIff(values[n], pair.value.0, pair.value.1);
        assert Headers(values)[..|Headers(values)| - 1] == Headers(values[..n]);
      } else {
        assert Headers(values[..n]) + [] == Headers(values[..n]);
      }
    }
  }

  /** `name: value` and `name:value` are sent as the name and the value. */
  lemma PlainLinesAreSent(name: string, value: string)
    requires ':' !in name && Tight(name) && value != ""
    ensures SentAs(name + ": " + value, name, value)
    ensures value[0] != ' ' ==> SentAs(name + ":" + value, name, value)
  {
    assert name + ": " + value == "" + name + "" + ":" + (" " + value);
    assert name + ":" + value == "" + name + "" + ":" + value;
    assert "" + name + "" == name;
    assert Parts(name + ": " + value, "", name, "", " " + value);
    assert value[0] != ' ' ==> Parts(name + ":" + value, "", name, "", value);
  }

  /** A line is sent in at most one way. */
  lemma SentAsIsUnique(line: string, name: string, value: string, name': string, value': string)
    requires SentAs(line, name, value) && SentAs(line, name', value')
    ensures name == name' && value == value'
  {
    SplitHeaderIff(line, name, value);
    SplitHeaderIff(line, name', value');
  }

  /** The declarative choice: every value of the highest applying level, after its last empty one. */
  ghost predicate Chosen(entries: seq<Entry>, target: Url, values: seq<string>) {
    if exists i :: 0 <= i < |entries| && Applies(entries[i], target) then
      exists level :: Highest(entries, target, level) && values == AfterLastEmpty(Level(entries, target, level))
    else values == []
  }

  lemma ChosenIsUnique(entries: seq<Entry>, target: Url, values: seq<string>, others: seq<string>)
    requires Chosen(entries, target, values) && Chosen(entries, target, others)
    ensures values == others
  {
    if exists i :: 0 <= i < |entries| && Applies(entries[i], target) {
      var level :| Highest(entries, target, level) && values == AfterLastEmpty(Level(entries, target, level));
      var other :| Highest(entries, target, other) && others == AfterLastEmpty(Level(entries, target, other));
      HighestIsUnique(entries, target, level, other);
    }
  }

  /** The state of the one-pass selection after some entries. */
  ghost predicate Selected(entries: seq<Entry>, target: Url, best: Option<Specificity>, collected: seq<string>) {
    HighestSoFar(entries, target, best) &&
    collected == if best.None? then [] else AfterLastEmpty(Level(entries, target, best.value))
  }

  /** No entry above the highest level, so a stricter level starts empty. */
  lemma {:induction false} LevelAboveIsEmpty(entries: seq<Entry>, target: Url, level: Specificity)
    requires forall i :: 0 <= i < |entries| && Applies(entries[i], target) ==>
                           EntrySpecificity(entries[i], target).value.Less(level)
    ensures Level(entries, target, level) == []
  {
    if entries != [] {
      LevelAboveIsEmpty(entries[..|entries| - 1], target, level);
    }
  }

  lemma LevelSnoc(entries: seq<Entry>, target: Url, level: Specificity, e: Entry)
    ensures Level(entries + [e], target, level) ==
            Level(entries, target, level) +
            if EntrySpecificity(e, target) == Some(level) && e.value.Some? then [e.value.value] else []
  {
    assert (entries + [e])[..|entries|] == entries;
  }

  /** The highest level seen, after one more entry. */
  function Raised(best: Option<Specificity>, level: Option<Specificity>): Option<Specificity> {
    if level.None? || (best.Some? && level.value.Less(best.value)) then best else level
  }

  ghost predicate HighestSoFar(entries: seq<Entry>, target: Url, best: Option<Specificity>) {
    if best.None? then forall i :: 0 <= i < |entries| ==> !Applies(entries[i], target)
    else Highest(entries, target, best.value)
  }

  lemma HighestSnoc(entries: seq<Entry>, target: Url, best: Option<Specificity>, e: Entry)
    requires HighestSoFar(entries, target, best)
    ensures HighestSoFar(entries + [e], target, Raised(best, EntrySpecificity(e, target)))
  {
    var all := entries + [e];
    assert all[|entries|] == e && forall i :: 0 <= i < |entries| ==> all[i] == entries[i];
    if best.Some? {
      var i :| 0 <= i < |entries| && EntrySpecificity(entries[i], target) == best;
      assert EntrySpecificity(all[i], target) == best;
    }
  }

  function Accumulated(collected: seq<string>, value: string): seq<string> {
    if value == "" then [] else collected + [value]
  }

  lemma AfterLastEmptySnoc(values: seq<string>, value: string)
    ensures AfterLastEmpty(values + [value]) == Accumulated(AfterLastEmpty(values), value)
  {
    assert (values + [value])[..|values|] == values;
  }

  /** One step of the selection. */
  lemma SelectionStep(entries: seq<Entry>, target: Url, best: Option<Specificity>, collected: seq<string>, e: Entry)
    requires Selected(entries, target, best, collected) && (Applies(e, target) ==> e.value.Some?)
    ensures var level := EntrySpecificity(e, target);
            var best' := Raised(best, level);
            Selected(entries + [e], target, best',
                     if level.None? || best' != level then collected
                     else Accumulated(if best == level then collected else [], e.value.value))
  {
    var level := EntrySpecificity(e, target);
    var best' := Raised(best, level);
    HighestSnoc(entries, target, best, e);
    if best'.Some? {
      var values := Level(entries, target, best'.value);
      LevelSnoc(entries, target, best'.value, e);
      if e.value.Some? {
        AfterLastEmptySnoc(values, e.value.value);
      }
      assert values + [] == values;
      if best' != best {
        LevelAboveIsEmpty(entries, target, best'.value);
      }
    }
  }

  lemma SelectionStart(target: Url)
    ensures Selected([], target, None, [])
  {
  }

  /** A selection over all entries is the declarative choice. */
  lemma SelectionEnd(entries: seq<Entry>, target: Url, best: Option<Specificity>, collected: seq<string>)
    requires Selected(entries, target, best, collected)
    ensures Chosen(entries, target, collected)
  {
  }

  datatype HeaderError = ValueMissing(scope: Scope)

  /**
  The headers for a request: an error exactly when an applying entry has no value, and otherwise the headers
  of the declaratively chosen values. A request URL that did not parse gets none.
  */
  method ExtraHeaders(entries: seq<Entry>, request: Option<Url>) returns (r: Result<seq<(string, string)>, HeaderError>)
    ensures request.None? ==> r == Ok([])
    ensures request.Some? ==>
              (r.Err? <==> exists i :: 0 <= i < |entries| && MissingValue(entries[i], request.value))
    ensures request.Some? && r.Err? ==>
              exists i :: 0 <= i < |entries| && MissingValue(entries[i], request.value)
                          && r.error == ValueMissing(entries[i].scope)
                          && forall j :: 0 <= j < i ==> !MissingValue(entries[j], request.value)
    ensures request.Some? && r.Ok? ==>
              exists values :: Chosen(entries, request.value, values) && SentFor(values, r.value)
                               && r.value == Headers(values)
  {
    hide SentFor, Selected, Chosen, MatchSpecificity, Headers, Level, AfterLastEmpty;
    if request.None? {
      return Ok([]);
    }
    var target := request.value;
    var best: Option<Specificity> := None;
    var collected: seq<string> := [];
    SelectionStart(target);
    assert entries[..0] == [];
    for i := 0 to |entries|
      invariant Selected(entries[..i], target, best, collected)
      invariant forall j :: 0 <= j < i ==> !MissingValue(entries[j], target)
    {
      var e := entries[i];
      var specificity := EntrySpecificity(e, target);
      assert entries[..i + 1] == entries[..i] + [e];
      if specificity.None? {
        SelectionStep(entries[..i], target, best, collected, e);
        continue;
      }
      if e.value.None? {
        assert MissingValue(entries[i], target);
        return Err(ValueMissing(e.scope));
      }
      SelectionStep(entries[..i], target, best, collected, e);
      var value := e.value.value;
      if best.Some? && specificity.value.Less(best.value) {
        continue;
      } else if best == specificity {
      } else {
        best := specificity;
        collected := [];
      }
      if value == "" {
        collected := [];
      } else {
        collected := collected + [value];
      }
    }
    assert entries[..|entries|] == entries;
    SelectionEnd(entries, target, best, collected);
    HeadersAreSent(collected);
    return Ok(Headers(collected));
  }
}
