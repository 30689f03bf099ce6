/**
Resolution of a config path to the directory and name it denotes, following symbolic links one by one and
recording everything that was consulted.
*/
module LinkResolution {
  import opened Common

  type Id = nat

  datatype Component = CurDir | ParentDir | Normal(name: string)

  datatype Path = Path(absolute: bool, components: seq<Component>)

  datatype Node = Directory(entries: map<string, Id>, parent: Id) | Plain(bytes: string) | Symlink(target: Path)

  /** A filesystem; links may form any graph, cyclic ones included. */
  datatype Fs = Fs(nodes: map<Id, Node>, root: Id) {
    predicate IsDirectory(id: Id) { id in nodes && nodes[id].Directory? }

    /** The parent of a directory; the root is its own parent. */
    function Parent(id: Id): Id { if IsDirectory(id) then nodes[id].parent else id }

    function Lookup(directory: Id, name: string): Option<Id> {
      if IsDirectory(directory) && name in nodes[directory].entries && nodes[directory].entries[name] in nodes
      then Some(nodes[directory].entries[name])
      else None
    }

    predicate IsLink(directory: Id, name: string) {
      var entry := Lookup(directory, name);
      entry.Some? && nodes[entry.value].Symlink?
    }
  }

  datatype ResolveError = TooManyLinks | NotFound | NotADirectory | NoFileName

  /** A followed link: where it was found and what it says. */
  datatype Followed = Followed(directory: Id, name: string, identity: Id, target: Path)

  /** A resolved path: the directory, the name in it, and what has the name, which is no link. */
  datatype Target = Target(directory: Id, name: string, identity: Option<Id>)

  /** What resolution has done so far. */
  datatype Progress = Progress(hops: nat, links: seq<Followed>, traversed: seq<Id>, path: seq<string>)

  const MAX_LINKS: nat := 40

  // ----- One component at a time -----

  /** A pending component; a path without a final name ends in `Nameless`. */
  datatype Pending = Step(component: Component) | Nameless

  /** The components of a path with its final name, or the lack of one, at the end. */
  function Expand(components: seq<Component>): (p: seq<Pending>)
    ensures Ended(p)
  {
    if components != [] && components[|components| - 1].Normal?
    then Steps(components)
    else Steps(if components == [] then [] else components[..|components| - 1]) + [Nameless]
  }

  predicate Ended(pending: seq<Pending>) {
    pending != [] && (pending[|pending| - 1].Nameless? || pending[|pending| - 1].component.Normal?)
  }

  function Steps(components: seq<Component>): (p: seq<Pending>)
    ensures |p| == |components| && forall i :: 0 <= i < |p| ==> p[i] == Step(components[i])
  {
    seq(|components|, i requires 0 <= i < |components| => Step(components[i]))
  }

  /** Where a path is resolved from. */
  function StartOf(fs: Fs, directory: Id, path: Path): Id { if path.absolute then fs.root else directory }

  function Entered(fs: Fs, directory: Id, path: Path, g: Progress): Progress {
    g.(traversed := g.traversed + [StartOf(fs, directory, path)], path := if path.absolute then [] else g.path)
  }

  function Popped(path: seq<string>): seq<string> { if path == [] then [] else path[..|path| - 1] }

  datatype Resolution = Arrived(target: Target, progress: Progress) | Failed(error: ResolveError)

  /** The resolution of pending components as one flat rewriting, with the link targets spliced in. */
  function Run(fs: Fs, directory: Id, pending: seq<Pending>, g: Progress): (r: Resolution)
    requires Ended(pending) && g.hops <= MAX_LINKS
    ensures r.Arrived? ==> g.hops <= r.progress.hops <= MAX_LINKS
    decreases MAX_LINKS - g.hops, |pending|, 0
  {
    var rest := pending[1..];
    match pending[0]
    case Nameless => Failed(NoFileName)
    case Step(CurDir) => Run(fs, directory, rest, g)
    case Step(ParentDir) =>
      var parent := fs.Parent(directory);
      Run(fs, parent, rest, g.(traversed := g.traversed + [parent], path := Popped(g.path)))
    case Step(Normal(name)) =>
      var entry := fs.Lookup(directory, name);
      if fs.IsLink(directory, name) then
        if g.hops == MAX_LINKS then Failed(TooManyLinks)
        else
          var target := fs.nodes[entry.value].target;
          Run(fs, StartOf(fs, directory, target), Expand(target.components) + rest,
              Entered(fs, directory, target, Follow(g, Followed(directory, name, entry.value, target))))
      else if rest == [] then
        Arrived(Target(directory, name, entry), g.(path := g.path + [name]))
      else
        Open(fs, Target(directory, name, entry), rest, g.(path := g.path + [name]))
  }

  function Follow(g: Progress, link: Followed): Progress { g.(hops := g.hops + 1, links := g.links + [link]) }

  /** Goes on below a resolved name, which must be a directory. */
  function Open(fs: Fs, target: Target, rest: seq<Pending>, g: Progress): (r: Resolution)
    requires Ended(rest) && g.hops <= MAX_LINKS
    ensures r.Arrived? ==> g.hops <= r.progress.hops <= MAX_LINKS
    decreases MAX_LINKS - g.hops, |rest|, 1
  {
    match target.identity
    case None => Failed(NotFound)
    case Some(id) =>
      if fs.IsDirectory(id) then Run(fs, id, rest, g.(traversed := g.traversed + [id])) else Failed(NotADirectory)
  }

  /** Resolves a path from a directory. */
  function Resolve(fs: Fs, directory: Id, path: Path, g: Progress): Resolution
    requires g.hops <= MAX_LINKS
  {
    Run(fs, StartOf(fs, directory, path), Expand(path.components), Entered(fs, directory, path, g))
  }

  function Below(fs: Fs, r: Resolution, rest: seq<Pending>): Resolution
    requires Ended(rest) && (r.Arrived? ==> r.progress.hops <= MAX_LINKS)
  {
    if r.Arrived? then Open(fs, r.target, rest, r.progress) else r
  }

  /** Components after a name are resolved below whatever it resolves to. */
  lemma {:induction false} RunThenOpen(fs: Fs, directory: Id, pending: seq<Pending>, rest: seq<Pending>, g: Progress)
    requires Ended(pending) && Ended(rest) && g.hops <= MAX_LINKS
    ensures Run(fs, directory, pending + rest, g) == Below(fs, Run(fs, directory, pending, g), rest)
    decreases MAX_LINKS - g.hops, |pending|
  {
    hide Expand;
    assert (pending + rest)[1..] == pending[1..] + rest;
    match pending[0]
    case Nameless =>
    case Step(CurDir) => RunThenOpen(fs, directory, pending[1..], rest, g);
    case Step(ParentDir) =>
      var parent := fs.Parent(directory);
      RunThenOpen(fs, parent, pending[1..], rest, g.(traversed := g.traversed + [parent], path := Popped(g.path)));
    case Step(Normal(name)) =>
      var entry := fs.Lookup(directory, name);
      if fs.IsLink(directory, name) {
        if g.hops < MAX_LINKS {
          var target := fs.nodes[entry.value].target;
          var expanded := Expand(target.components);
          assert expanded + (pending[1..] + rest) == (expanded + pending[1..]) + rest;
          var g' := Entered(fs, directory, target, Follow(g, Followed(directory, name, entry.value, target)));
          RunThenOpen(fs, StartOf(fs, directory, target), expanded + pending[1..], rest, g');
        }
      } else if |pending| > 1 {
        if entry.Some? && fs.IsDirectory(entry.value) {
          RunThenOpen(fs, entry.value, pending[1..], rest, g.(path := g.path + [name], traversed := g.traversed + [entry.value]));
        }
      }
  }

  // ----- The resolver -----

  /** The components before the last one. */
  function ParentOf(components: seq<Component>): seq<Component> {
    if components == [] then [] else components[..|components| - 1]
  }

  function FileName(components: seq<Component>): Option<string> {
    if components != [] && components[|components| - 1].Normal? then Some(components[|components| - 1].name) else None
  }

  lemma ExpandParts(components: seq<Component>)
    ensures var last := FileName(components);
            Expand(components) ==
            Steps(ParentOf(components)) + [if last.Some? then Step(Normal(last.value)) else Nameless]
  {
  }

  /** The two mutually recursive functions over shared counters and lists. */
  class Resolver {
    const fs: Fs
    var hops: nat
    var symlinks: seq<Followed>
    var traversed: seq<Id>
    var resolvedPath: seq<string>

    constructor (fs: Fs, base: seq<string>)
      ensures this.fs == fs && Made() == Progress(0, [], [], base)
    {
      this.fs := fs;
      hops, symlinks, traversed, resolvedPath := 0, [], [], base;
    }

    ghost function Made(): Progress
      reads this
    {
      Progress(hops, symlinks, traversed, resolvedPath)
    }

    /** Resolves a path: every component but the last to a directory, the last to a name that is no link. */
    method ResolveTarget(directory: Id, path: Path) returns (r: Result<Target, ResolveError>)
      requires hops <= MAX_LINKS
      modifies this
      ensures old(hops) <= hops && (r.Ok? ==> hops <= MAX_LINKS)
      ensures Resolve(fs, directory, path, old(Made())) == if r.Ok? then Arrived(r.value, Made()) else Failed(r.error)
      decreases MAX_LINKS - hops, 1
    {
      hide Run, Expand;
      var current := directory;
      if path.absolute {
        resolvedPath := [];
        current := fs.root;
      }
      traversed := traversed + [current];
      ghost var all := Expand(path.components);
      ghost var start := Made();
      var parents := ParentOf(path.components);
      ExpandParts(path.components);
      assert all[0..] == all;
      for i := 0 to |parents|
        invariant old(hops) <= hops <= MAX_LINKS
        invariant Ended(all[i..]) && Run(fs, current, all[i..], Made()) == Resolve(fs, directory, path, old(Made()))
      {
        assert all[i..][0] == Step(parents[i]) && all[i..][1..] == all[i + 1..];
        assert all[i..] == [Step(parents[i])] + all[i + 1..];
        RunUnfolds(fs, current, all[i..], Made());
        match parents[i]
        case CurDir =>
        case ParentDir =>
          current := fs.Parent(current);
          resolvedPath := Popped(resolvedPath);
          traversed := traversed + [current];
        case Normal(name) =>
          ghost var before := Made();
          RunThenOpen(fs, current, [Step(Normal(name))], all[i + 1..], before);
          var target :- ResolveName(current, name);
          current :- OpenResolvedDirectory(target);
          traversed := traversed + [current];
      }
      assert all[|parents|..] == [all[|parents|]];
      RunUnfolds(fs, current, all[|parents|..], Made());
      match FileName(path.components)
      case None => return Err(NoFileName);
      case Some(name) => r := ResolveName(current, name);
    }

    /** A resolved name that must be a directory. */
    function OpenResolvedDirectory(target: Target): Result<Id, ResolveError>
    {
      match target.identity
      case None => Err(NotFound)
      case Some(id) => if fs.IsDirectory(id) then Ok(id) else Err(NotADirectory)
    }

    /** Resolves a name in a directory, following it while it is a link. */
    method ResolveName(directory: Id, name: string) returns (r: Result<Target, ResolveError>)
      requires hops <= MAX_LINKS
      modifies this
      ensures old(hops) <= hops && (r.Ok? ==> hops <= MAX_LINKS)
      ensures Run(fs, directory, [Step(Normal(name))], old(Made())) ==
              if r.Ok? then Arrived(r.value, Made()) else Failed(r.error)
      decreases MAX_LINKS - hops, 0
    {
      hide Expand;
      var entry := fs.Lookup(directory, name);
      if fs.IsLink(directory, name) {
        hops := hops + 1;
        if hops > MAX_LINKS {
          return Err(TooManyLinks);
        }
        var target := fs.nodes[entry.value].target;
        symlinks := symlinks + [Followed(directory, name, entry.value, target)];
        assert Expand(target.components) + [] == Expand(target.components);
        r := ResolveTarget(directory, target);
        return;
      }
      resolvedPath := resolvedPath + [name];
      return Ok(Target(directory, name, entry));
    }
  }

  /** One component of a run. */
  lemma RunUnfolds(fs: Fs, directory: Id, pending: seq<Pending>, g: Progress)
    requires Ended(pending) && g.hops <= MAX_LINKS
    ensures pending[0].Nameless? ==> Run(fs, directory, pending, g) == Failed(NoFileName)
    ensures pending[0] == Step(CurDir) ==>
              Ended(pending[1..]) && Run(fs, directory, pending, g) == Run(fs, directory, pending[1..], g)
    ensures pending[0] == Step(ParentDir) ==>
              Ended(pending[1..])
              && Run(fs, directory, pending, g) ==
                 Run(fs, fs.Parent(directory), pending[1..],
                     g.(traversed := g.traversed + [fs.Parent(directory)], path := Popped(g.path)))
  {
  }
}
