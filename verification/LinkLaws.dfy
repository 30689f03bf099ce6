/**
What resolution promises: it is the textbook rewriting of paths cut off after forty links, its recorded path is
canonical, and what it consulted is all its result depends on.
*/
module LinkLaws {
  import opened Common
  import opened LinkResolution

  // ----- The textbook rule -----

  /** A directory and what is still to be resolved from it. */
  datatype Place = Place(directory: Id, pending: seq<Pending>)

  predicate AtName(p: Place) { p.pending != [] && p.pending[0].Step? && p.pending[0].component.Normal? }

  predicate AtLink(fs: Fs, p: Place) { AtName(p) && fs.IsLink(p.directory, p.pending[0].component.name) }

  function LinkAt(fs: Fs, p: Place): Followed
    requires AtLink(fs, p)
  {
    var name := p.pending[0].component.name;
    var id := fs.Lookup(p.directory, name).value;
    Followed(p.directory, name, id, fs.nodes[id].target)
  }

  /** The next place of a path resolution, with no bound on links and nothing recorded. */
  function Next(fs: Fs, p: Place): Option<Place> {
    if p.pending == [] || p.pending[0].Nameless? then None
    else
      var rest := p.pending[1..];
      match p.pending[0].component
      case CurDir => Some(Place(p.directory, rest))
      case ParentDir => Some(Place(fs.Parent(p.directory), rest))
      case Normal(name) =>
        var entry := fs.Lookup(p.directory, name);
        if AtLink(fs, p) then
          var target := LinkAt(fs, p).target;
          Some(Place(StartOf(fs, p.directory, target), Expand(target.components) + rest))
        else if rest != [] && entry.Some? && fs.IsDirectory(entry.value) then Some(Place(entry.value, rest))
        else None
  }

  /** Only a final name is left, and it is no link. */
  predicate Final(fs: Fs, p: Place, target: Target) {
    AtName(p) && |p.pending| == 1 && !AtLink(fs, p)
    && target == Target(p.directory, p.pending[0].component.name, fs.Lookup(p.directory, p.pending[0].component.name))
  }

  /** The places from `from` on lead to the target. */
  ghost predicate Leads(fs: Fs, from: Place, trace: seq<Place>, target: Target)
    decreases |trace|
  {
    if trace == [] then Final(fs, from, target)
    else Next(fs, from) == Some(trace[0]) && Leads(fs, trace[0], trace[1..], target)
  }

  /** The links followed along the places. */
  ghost function LinksAlong(fs: Fs, from: Place, trace: seq<Place>): seq<Followed>
    decreases |trace|
  {
    if trace == [] then []
    else (if AtLink(fs, from) then [LinkAt(fs, from)] else []) + LinksAlong(fs, trace[0], trace[1..])
  }

  lemma Prepend(fs: Fs, from: Place, next: Place, trace: seq<Place>, target: Target)
    requires Next(fs, from) == Some(next) && Leads(fs, next, trace, target)
    ensures Leads(fs, from, [next] + trace, target)
    ensures LinksAlong(fs, from, [next] + trace) ==
            (if AtLink(fs, from) then [LinkAt(fs, from)] else []) + LinksAlong(fs, next, trace)
  {
  }

  lemma {:induction false} ArrivalHasTrace(fs: Fs, directory: Id, pending: seq<Pending>, g: Progress)
    returns (trace: seq<Place>)
    requires Ended(pending) && g.hops <= MAX_LINKS && Run(fs, directory, pending, g).Arrived?
    ensures var Arrived(target, g') := Run(fs, directory, pending, g);
            Leads(fs, Place(directory, pending), trace, target)
            && g'.links == g.links + LinksAlong(fs, Place(directory, pending), trace)
            && g'.hops == g.hops + |LinksAlong(fs, Place(directory, pending), trace)|
    decreases MAX_LINKS - g.hops, |pending|
  {
    hide Expand, Leads, LinksAlong;
    var here := Place(directory, pending);
    var rest := pending[1..];
    var target := Run(fs, directory, pending, g).target;
    match pending[0].component
    case CurDir =>
      trace := ArrivalHasTrace(fs, directory, rest, g);
      Prepend(fs, here, Place(directory, rest), trace, target);
      trace := [Place(directory, rest)] + trace;
    case ParentDir =>
      var parent := fs.Parent(directory);
      trace := ArrivalHasTrace(fs, parent, rest, g.(traversed := g.traversed + [parent], path := Popped(g.path)));
      Prepend(fs, here, Place(parent, rest), trace, target);
      trace := [Place(parent, rest)] + trace;
    case Normal(name) =>
      var entry := fs.Lookup(directory, name);
      if fs.IsLink(directory, name) {
        var link := LinkAt(fs, here);
        var expanded := Expand(link.target.components) + rest;
        var start := StartOf(fs, directory, link.target);
        trace := ArrivalHasTrace(fs, start, expanded, Entered(fs, directory, link.target, Follow(g, link)));
        Prepend(fs, here, Place(start, expanded), trace, target);
        trace := [Place(start, expanded)] + trace;
      } else if rest == [] {
        trace := [];
        NoTrace(fs, here, target);
      } else {
        trace := ArrivalHasTrace(fs, entry.value, rest,
                                 g.(path := g.path + [name], traversed := g.traversed + [entry.value]));
        Prepend(fs, here, Place(entry.value, rest), trace, target);
        trace := [Place(entry.value, rest)] + trace;
      }
  }

  lemma NoTrace(fs: Fs, from: Place, target: Target)
    ensures Leads(fs, from, [], target) <==> Final(fs, from, target)
    ensures LinksAlong(fs, from, []) == []
  {
  }

  lemma {:induction false} TraceArrives(fs: Fs, directory: Id, pending: seq<Pending>, g: Progress,
                                        trace: seq<Place>, target: Target)
    requires Ended(pending) && g.hops <= MAX_LINKS && Leads(fs, Place(directory, pending), trace, target)
    ensures var links := LinksAlong(fs, Place(directory, pending), trace);
            var r := Run(fs, directory, pending, g);
            if g.hops + |links| <= MAX_LINKS then r.Arrived? && r.target == target else r == Failed(TooManyLinks)
    decreases |trace|
  {
    hide Expand;
    var here := Place(directory, pending);
    if trace != [] {
      var there := trace[0];
      match pending[0].component
      case CurDir => TraceArrives(fs, there.directory, there.pending, g, trace[1..], target);
      case ParentDir =>
        TraceArrives(fs, there.directory, there.pending,
                     g.(traversed := g.traversed + [there.directory], path := Popped(g.path)), trace[1..], target);
      case Normal(name) =>
        if fs.IsLink(directory, name) {
          var link := LinkAt(fs, here);
          if g.hops < MAX_LINKS {
            TraceArrives(fs, there.directory, there.pending, Entered(fs, directory, link.target, Follow(g, link)),
                         trace[1..], target);
          }
        } else {
          TraceArrives(fs, there.directory, there.pending,
                       g.(path := g.path + [name], traversed := g.traversed + [there.directory]), trace[1..], target);
        }
    }
  }

  /**
  Resolution arrives at a target exactly when the textbook rule leads there within forty links; it then has
  recorded exactly the links followed, in order, and the target is no link.
  */
  lemma ResolvesIffLeads(fs: Fs, directory: Id, path: Path, target: Target)
    ensures var from := Place(StartOf(fs, directory, path), Expand(path.components));
            var r := Resolve(fs, directory, path, Progress(0, [], [], []));
            r.Arrived? && r.target == target <==>
            exists trace :: Leads(fs, from, trace, target) && |LinksAlong(fs, from, trace)| <= 40
    ensures var from := Place(StartOf(fs, directory, path), Expand(path.components));
            var r := Resolve(fs, directory, path, Progress(0, [], [], []));
            r.Arrived? && r.target == target ==>
            exists trace :: Leads(fs, from, trace, target) && r.progress.links == LinksAlong(fs, from, trace)
  {
    hide Expand, Run, Leads, LinksAlong;
    var start, pending := StartOf(fs, directory, path), Expand(path.components);
    var g := Entered(fs, directory, path, Progress(0, [], [], []));
    var from := Place(start, pending);
    var r := Run(fs, start, pending, g);
    if r.Arrived? && r.target == target {
      var trace := ArrivalHasTrace(fs, start, pending, g);
      assert [] + LinksAlong(fs, from, trace) == LinksAlong(fs, from, trace);
    }
    forall trace | Leads(fs, from, trace, target) && |LinksAlong(fs, from, trace)| <= 40
      ensures r.Arrived? && r.target == target
    {
      TraceArrives(fs, start, pending, g, trace, target);
    }
  }

  /** What has a resolved name is no link. */
  lemma {:induction false} TargetIsNoLink(fs: Fs, directory: Id, pending: seq<Pending>, g: Progress)
    requires Ended(pending) && g.hops <= MAX_LINKS && Run(fs, directory, pending, g).Arrived?
    ensures var target := Run(fs, directory, pending, g).target;
            !fs.IsLink(target.directory, target.name) && target.identity == fs.Lookup(target.directory, target.name)
  {
    hide Run, Expand;
    var trace := ArrivalHasTrace(fs, directory, pending, g);
    LeadsToNoLink(fs, Place(directory, pending), trace, Run(fs, directory, pending, g).target);
  }

  lemma {:induction false} LeadsToNoLink(fs: Fs, from: Place, trace: seq<Place>, target: Target)
    requires Leads(fs, from, trace, target)
    ensures !fs.IsLink(target.directory, target.name) && target.identity == fs.Lookup(target.directory, target.name)
    decreases |trace|
  {
    if trace != [] { LeadsToNoLink(fs, trace[0], trace[1..], target); }
  }

  /** A link to itself is refused after forty hops. */
  lemma {:induction false} SelfLinkIsRefused(fs: Fs, directory: Id, name: string, g: Progress)
    requires g.hops <= MAX_LINKS && fs.IsLink(directory, name)
    requires fs.nodes[fs.Lookup(directory, name).value].target == Path(false, [Normal(name)])
    ensures Run(fs, directory, [Step(Normal(name))], g) == Failed(TooManyLinks)
    decreases MAX_LINKS - g.hops
  {
    var target := Path(false, [Normal(name)]);
    assert Expand(target.components) + [] == [Step(Normal(name))];
    if g.hops < MAX_LINKS {
      var link := Followed(directory, name, fs.Lookup(directory, name).value, target);
      SelfLinkIsRefused(fs, directory, name, Entered(fs, directory, target, Follow(g, link)));
    }
  }

  // ----- What is recorded -----

  /** What has been recorded after one more place: a link, a directory and its name, or a step up. */
  function Recorded(fs: Fs, p: Place, g: Progress): Progress
    requires Next(fs, p).Some?
  {
    var to := Next(fs, p).value.directory;
    if AtLink(fs, p) then
      var link := LinkAt(fs, p);
      Progress(g.hops + 1, g.links + [link], g.traversed + [to], if link.target.absolute then [] else g.path)
    else if AtName(p) then
      Progress(g.hops, g.links, g.traversed + [to], g.path + [p.pending[0].component.name])
    else if p.pending[0].component.ParentDir? then
      Progress(g.hops, g.links, g.traversed + [to], Popped(g.path))
    else g
  }

  /** What has been recorded when the places from `from` on have led to the target. */
  ghost function RecordedAlong(fs: Fs, from: Place, trace: seq<Place>, target: Target, g: Progress): Progress
    requires Leads(fs, from, trace, target)
    decreases |trace|
  {
    if trace == [] then g.(path := g.path + [target.name])
    else RecordedAlong(fs, trace[0], trace[1..], target, Recorded(fs, from, g))
  }

  /** A run is one place after the other. */
  lemma RunFollows(fs: Fs, p: Place, g: Progress)
    requires Ended(p.pending) && g.hops <= MAX_LINKS && Next(fs, p).Some?
    ensures var n := Next(fs, p).value;
            Ended(n.pending)
            && Run(fs, p.directory, p.pending, g) ==
               if AtLink(fs, p) && g.hops == MAX_LINKS then Failed(TooManyLinks)
               else Run(fs, n.directory, n.pending, Recorded(fs, p, g))
  {
    hide Expand;
  }

  lemma {:induction false} TraceRecords(fs: Fs, from: Place, trace: seq<Place>, target: Target, g: Progress)
    requires Ended(from.pending) && Leads(fs, from, trace, target) && g.hops + |LinksAlong(fs, from, trace)| <= MAX_LINKS
    ensures Run(fs, from.directory, from.pending, g) == Arrived(target, RecordedAlong(fs, from, trace, target, g))
    decreases |trace|
  {
    hide Expand, Next, Run, Recorded;
    if trace != [] {
      RunFollows(fs, from, g);
      RecordedHops(fs, from, g);
      TraceRecords(fs, trace[0], trace[1..], target, Recorded(fs, from, g));
    } else {
      FinalArrives(fs, from, target, g);
    }
  }

  lemma RecordedHops(fs: Fs, p: Place, g: Progress)
    requires Next(fs, p).Some?
    ensures Recorded(fs, p, g).hops == g.hops + if AtLink(fs, p) then 1 else 0
  {
  }

  lemma FinalArrives(fs: Fs, p: Place, target: Target, g: Progress)
    requires Ended(p.pending) && Final(fs, p, target) && g.hops <= MAX_LINKS
    ensures Run(fs, p.directory, p.pending, g) == Arrived(target, g.(path := g.path + [target.name]))
  {
  }

  // ----- Where and why resolution fails -----

  /** The places from `from` on follow each other; `to` is the last of them. */
  ghost predicate Follows(fs: Fs, from: Place, trace: seq<Place>, to: Place)
    decreases |trace|
  {
    if trace == [] then from == to
    else Next(fs, from) == Some(trace[0]) && Follows(fs, trace[0], trace[1..], to)
  }

  /** The place is a dead end: its path has no name, or goes on below a name that is absent or no directory. */
  predicate Stuck(fs: Fs, p: Place, e: ResolveError) {
    match e
    case NoFileName => p.pending != [] && p.pending[0].Nameless?
    case NotFound =>
      AtName(p) && |p.pending| > 1 && fs.Lookup(p.directory, p.pending[0].component.name).None?
    case NotADirectory =>
      AtName(p) && |p.pending| > 1
      && var entry := fs.Lookup(p.directory, p.pending[0].component.name);
         entry.Some? && !fs.nodes[entry.value].Symlink? && !fs.nodes[entry.value].Directory?
    case TooManyLinks => false
  }

  /** The rule stops for this reason: at a dead end within so many links, or after more links than that. */
  ghost predicate Fails(fs: Fs, from: Place, allowed: int, trace: seq<Place>, to: Place, e: ResolveError) {
    Follows(fs, from, trace, to)
    && if e == TooManyLinks then |LinksAlong(fs, from, trace)| > allowed
       else |LinksAlong(fs, from, trace)| <= allowed && Stuck(fs, to, e)
  }

  /** Every run that fails does so where the textbook rule stops. */
  lemma {:induction false} FailureHasTrace(fs: Fs, from: Place, g: Progress) returns (trace: seq<Place>, to: Place)
    requires Ended(from.pending) && g.hops <= MAX_LINKS && Run(fs, from.directory, from.pending, g).Failed?
    ensures Fails(fs, from, MAX_LINKS - g.hops, trace, to, Run(fs, from.directory, from.pending, g).error)
    decreases MAX_LINKS - g.hops, |from.pending|
  {
    hide Expand, Run, Recorded;
    var next := Next(fs, from);
    if next.None? {
      trace, to := [], from;
      StuckFails(fs, from, g);
    } else {
      RunFollows(fs, from, g);
      RecordedHops(fs, from, g);
      NextIsCloser(fs, from);
      if AtLink(fs, from) && g.hops == MAX_LINKS {
        trace, to := [], next.value;
        PrependFailure(fs, from, 0, next.value, trace, to, TooManyLinks);
        trace := [next.value] + trace;
      } else {
        trace, to := FailureHasTrace(fs, next.value, Recorded(fs, from, g));
        PrependFailure(fs, from, MAX_LINKS - g.hops, next.value, trace, to, Run(fs, from.directory, from.pending, g).error);
        trace := [next.value] + trace;
      }
    }
  }

  lemma PrependFailure(fs: Fs, from: Place, allowed: int, next: Place, trace: seq<Place>, to: Place, e: ResolveError)
    requires Next(fs, from) == Some(next)
    requires Fails(fs, next, allowed - (if AtLink(fs, from) then 1 else 0), trace, to, e)
    ensures Fails(fs, from, allowed, [next] + trace, to, e)
  {
    assert ([next] + trace)[1..] == trace;
  }

  lemma NextIsCloser(fs: Fs, p: Place)
    requires Next(fs, p).Some?
    ensures !AtLink(fs, p) ==> |Next(fs, p).value.pending| < |p.pending|
  {
  }

  /** Without a next place a run arrives or fails for the reason of the place. */
  lemma StuckFails(fs: Fs, p: Place, g: Progress)
    requires Ended(p.pending) && g.hops <= MAX_LINKS && Next(fs, p).None?
    ensures var r := Run(fs, p.directory, p.pending, g);
            forall e :: Stuck(fs, p, e) <==> r == Failed(e)
  {
    hide Expand;
  }

  lemma {:induction false} TraceFails(fs: Fs, from: Place, g: Progress, trace: seq<Place>, to: Place, e: ResolveError)
    requires Ended(from.pending) && g.hops <= MAX_LINKS && Fails(fs, from, MAX_LINKS - g.hops, trace, to, e)
    ensures Run(fs, from.directory, from.pending, g) == Failed(e)
    decreases |trace|
  {
    hide Expand, Run, Recorded;
    if trace == [] {
      StuckHasNoNext(fs, from, e);
      StuckFails(fs, from, g);
    } else {
      RunFollows(fs, from, g);
      RecordedHops(fs, from, g);
      if !(AtLink(fs, from) && g.hops == MAX_LINKS) {
        TraceFails(fs, trace[0], Recorded(fs, from, g), trace[1..], to, e);
      }
    }
  }

  lemma StuckHasNoNext(fs: Fs, p: Place, e: ResolveError)
    requires Stuck(fs, p, e)
    ensures Next(fs, p).None?
  {
  }

  /** Resolution fails exactly where the textbook rule stops, for exactly that reason, links beyond forty included. */
  lemma FailsIffStuck(fs: Fs, directory: Id, path: Path, base: seq<string>, e: ResolveError)
    ensures var from := Place(StartOf(fs, directory, path), Expand(path.components));
            Resolve(fs, directory, path, Progress(0, [], [], base)) == Failed(e) <==>
            exists trace: seq<Place>, to: Place :: Fails(fs, from, 40, trace, to, e)
  {
    hide Expand, Run, Fails;
    var from := Place(StartOf(fs, directory, path), Expand(path.components));
    var g := Entered(fs, directory, path, Progress(0, [], [], base));
    if Run(fs, from.directory, from.pending, g) == Failed(e) {
      var trace, to := FailureHasTrace(fs, from, g);
    }
    forall trace: seq<Place>, to: Place | Fails(fs, from, 40, trace, to, e)
      ensures Run(fs, from.directory, from.pending, g) == Failed(e)
    {
      TraceFails(fs, from, g, trace, to, e);
    }
  }

  /** The textbook rule finds the target within forty links and records this on the way. */
  ghost predicate Finds(fs: Fs, directory: Id, path: Path, base: seq<string>, target: Target, found: Progress) {
    exists trace: seq<Place> :: FindsBy(fs, directory, path, base, target, found, trace)
  }

  ghost predicate FindsBy(fs: Fs, directory: Id, path: Path, base: seq<string>, target: Target, found: Progress,
                          trace: seq<Place>)
  {
    var start := StartOf(fs, directory, path);
    var from := Place(start, Expand(path.components));
    Leads(fs, from, trace, target) && |LinksAlong(fs, from, trace)| <= 40
    && found == RecordedAlong(fs, from, trace, target, Progress(0, [], [start], if path.absolute then [] else base))
  }

  /** Resolution arrives exactly where the textbook rule does, with exactly what that records. */
  lemma ArrivesIffFinds(fs: Fs, directory: Id, path: Path, base: seq<string>, target: Target, found: Progress)
    ensures Resolve(fs, directory, path, Progress(0, [], [], base)) == Arrived(target, found) <==>
            Finds(fs, directory, path, base, target, found)
  {
    hide Expand, Run, Leads, LinksAlong, RecordedAlong;
    var from := Place(StartOf(fs, directory, path), Expand(path.components));
    var g := Entered(fs, directory, path, Progress(0, [], [], base));
    assert [] + [from.directory] == [from.directory];
    if Run(fs, from.directory, from.pending, g) == Arrived(target, found) {
      var trace := ArrivalHasTrace(fs, from.directory, from.pending, g);
      TraceRecords(fs, from, trace, target, g);
      assert FindsBy(fs, directory, path, base, target, found, trace);
    }
    if Finds(fs, directory, path, base, target, found) {
      var trace: seq<Place> :| FindsBy(fs, directory, path, base, target, found, trace);
      TraceRecords(fs, from, trace, target, g);
    }
  }

  ghost predicate Stops(fs: Fs, directory: Id, path: Path, e: ResolveError) {
    exists trace: seq<Place>, to: Place ::
      Fails(fs, Place(StartOf(fs, directory, path), Expand(path.components)), 40, trace, to, e)
  }

  /** A resolved path with everything recorded on the way. */
  datatype Pinned = Pinned(target: Target, progress: Progress)

  /** Resolves a path with nothing recorded before: the textbook rule's answer and record, or its reason to stop. */
  method PinConfigTarget(fs: Fs, directory: Id, path: Path, base: seq<string>) returns (r: Result<Pinned, ResolveError>)
    ensures forall t, g :: r == Ok(Pinned(t, g)) <==> Finds(fs, directory, path, base, t, g)
    ensures forall e :: r == Err(e) <==> Stops(fs, directory, path, e)
    ensures Resolve(fs, directory, path, Progress(0, [], [], base)) ==
            if r.Ok? then Arrived(r.value.target, r.value.progress) else Failed(r.error)
  {
    hide Resolve, Finds, Stops;
    var resolver := new Resolver(fs, base);
    var target := resolver.ResolveTarget(directory, path);
    r := if target.Ok? then
           Ok(Pinned(target.value, Progress(resolver.hops, resolver.symlinks, resolver.traversed, resolver.resolvedPath)))
         else Err(target.error);
    forall t, g ensures r == Ok(Pinned(t, g)) <==> Finds(fs, directory, path, base, t, g) {
      ArrivesIffFinds(fs, directory, path, base, t, g);
    }
    forall e ensures r == Err(e) <==> Stops(fs, directory, path, e) { StopsIff(fs, directory, path, base, e); }
  }

  lemma StopsIff(fs: Fs, directory: Id, path: Path, base: seq<string>, e: ResolveError)
    ensures Resolve(fs, directory, path, Progress(0, [], [], base)) == Failed(e) <==> Stops(fs, directory, path, e)
  {
    FailsIffStuck(fs, directory, path, base, e);
  }
}
