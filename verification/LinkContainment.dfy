/**
The recorded path spells the target, and the containment guard on config inputs is sound: what it accepts cannot
be changed from inside a forbidden directory.
*/
module LinkContainment {
  import opened Common
  import opened LinkResolution
  import opened LinkLaws

  // ----- Directory trees -----

  /** Directories form a tree under the root, with parents on a lower level; links may point anywhere. */
  ghost predicate Tree(fs: Fs, level: map<Id, nat>) {
    fs.IsDirectory(fs.root) && fs.Parent(fs.root) == fs.root
    && (forall d :: fs.IsDirectory(d) ==> d in level && fs.IsDirectory(fs.Parent(d)))
    && (forall d :: fs.IsDirectory(d) && d != fs.root ==> level[fs.Parent(d)] < level[d])
    && (forall d, n :: IsChild(fs, d, n) ==> fs.Lookup(d, n).value != fs.root && fs.Parent(fs.Lookup(d, n).value) == d)
  }

  predicate IsChild(fs: Fs, directory: Id, name: string) {
    var entry := fs.Lookup(directory, name);
    entry.Some? && fs.IsDirectory(entry.value)
  }

  /** The directory reached from the root by these names, with no links. */
  function Walk(fs: Fs, path: seq<string>): Option<Id> {
    if path == [] then Some(fs.root)
    else
      var above := Walk(fs, path[..|path| - 1]);
      var name := path[|path| - 1];
      if above.Some? && IsChild(fs, above.value, name) then fs.Lookup(above.value, name) else None
  }

  lemma PoppedWalks(fs: Fs, level: map<Id, nat>, path: seq<string>, directory: Id)
    requires Tree(fs, level) && Walk(fs, path) == Some(directory)
    ensures Walk(fs, Popped(path)) == Some(fs.Parent(directory))
  {
  }

  lemma PushedWalks(fs: Fs, path: seq<string>, directory: Id, name: string)
    requires Walk(fs, path) == Some(directory)
    requires fs.Lookup(directory, name).Some? && fs.IsDirectory(fs.Lookup(directory, name).value)
    ensures Walk(fs, path + [name]) == fs.Lookup(directory, name)
  {
    assert (path + [name])[..|path|] == path;
  }

  /** The recorded path is the name of the target in the directory's own path from the root, free of links. */
  lemma {:induction false} PathIsCanonical(fs: Fs, level: map<Id, nat>, directory: Id, pending: seq<Pending>, g: Progress)
    requires Tree(fs, level) && Ended(pending) && g.hops <= MAX_LINKS && Walk(fs, g.path) == Some(directory)
    requires Run(fs, directory, pending, g).Arrived?
    ensures var Arrived(target, g') := Run(fs, directory, pending, g);
            g'.path != [] && g'.path[|g'.path| - 1] == target.name && Walk(fs, Popped(g'.path)) == Some(target.directory)
    decreases MAX_LINKS - g.hops, |pending|
  {
    hide Expand, Walk, Tree, IsChild;
    var rest := pending[1..];
    match pending[0].component
    case CurDir => PathIsCanonical(fs, level, directory, rest, g);
    case ParentDir =>
      var parent := fs.Parent(directory);
      PoppedWalks(fs, level, g.path, directory);
      PathIsCanonical(fs, level, parent, rest, g.(traversed := g.traversed + [parent], path := Popped(g.path)));
    case Normal(name) =>
      var entry := fs.Lookup(directory, name);
      if fs.IsLink(directory, name) {
        var target := fs.nodes[entry.value].target;
        RootWalks(fs);
        PathIsCanonical(fs, level, StartOf(fs, directory, target), Expand(target.components) + rest,
                        Entered(fs, directory, target, Follow(g, Followed(directory, name, entry.value, target))));
      } else if rest == [] {
        assert (g.path + [name])[..|g.path|] == g.path;
      } else {
        PushedWalks(fs, g.path, directory, name);
        PathIsCanonical(fs, level, entry.value, rest,
                        g.(path := g.path + [name], traversed := g.traversed + [entry.value]));
      }
  }

  lemma RootWalks(fs: Fs)
    ensures Walk(fs, []) == Some(fs.root)
  {
  }

  // ----- The guard -----

  /** The directory is the ancestor or below it. */
  ghost predicate Within(fs: Fs, level: map<Id, nat>, directory: Id, ancestor: Id)
    requires Tree(fs, level) && fs.IsDirectory(directory)
    decreases level[directory]
  {
    directory == ancestor || (directory != fs.root && Within(fs, level, fs.Parent(directory), ancestor))
  }

  /** The directory so many steps up. */
  function Up(fs: Fs, directory: Id, n: nat): Id
    decreases n
  {
    if n == 0 then directory else Up(fs, fs.Parent(directory), n - 1)
  }

  ghost predicate StepsUp(fs: Fs, directory: Id, n: nat, ancestor: Id) { Up(fs, directory, n) == ancestor }

  /** That is, some number of steps up from it, none included, is the ancestor. */
  lemma WithinIsAncestor(fs: Fs, level: map<Id, nat>, directory: Id, ancestor: Id)
    requires Tree(fs, level) && fs.IsDirectory(directory)
    ensures Within(fs, level, directory, ancestor) <==> exists n: nat :: StepsUp(fs, directory, n, ancestor)
  {
    hide Within;
    if Within(fs, level, directory, ancestor) { var n := WithinSteps(fs, level, directory, ancestor); }
    forall n: nat | StepsUp(fs, directory, n, ancestor) ensures Within(fs, level, directory, ancestor) {
      StepsWithin(fs, level, directory, ancestor, n);
    }
  }

  lemma {:induction false} WithinSteps(fs: Fs, level: map<Id, nat>, directory: Id, ancestor: Id) returns (n: nat)
    requires Tree(fs, level) && fs.IsDirectory(directory) && Within(fs, level, directory, ancestor)
    ensures StepsUp(fs, directory, n, ancestor)
    decreases level[directory]
  {
    if directory == ancestor {
      n := 0;
    } else {
      n := WithinSteps(fs, level, fs.Parent(directory), ancestor);
      n := n + 1;
    }
  }

  lemma {:induction false} StepsWithin(fs: Fs, level: map<Id, nat>, directory: Id, ancestor: Id, n: nat)
    requires Tree(fs, level) && fs.IsDirectory(directory) && StepsUp(fs, directory, n, ancestor)
    ensures Within(fs, level, directory, ancestor)
    decreases n
  {
    if directory == fs.root {
      UpFromRoot(fs, n);
    } else if n > 0 {
      StepsWithin(fs, level, fs.Parent(directory), ancestor, n - 1);
    }
  }

  lemma {:induction false} UpFromRoot(fs: Fs, n: nat)
    requires fs.Parent(fs.root) == fs.root
    ensures Up(fs, fs.root, n) == fs.root
  {
    if n > 0 { UpFromRoot(fs, n - 1); }
  }

  method DirectoryIsWithin(fs: Fs, ghost level: map<Id, nat>, directory: Id, ancestor: Id) returns (r: bool)
    requires Tree(fs, level) && fs.IsDirectory(directory)
    ensures r <==> exists n: nat :: StepsUp(fs, directory, n, ancestor)
    ensures r <==> Within(fs, level, directory, ancestor)
  {
    WithinIsAncestor(fs, level, directory, ancestor);
    hide StepsUp;
    var current := directory;
    while true
      invariant fs.IsDirectory(current)
      invariant Within(fs, level, directory, ancestor) <==> Within(fs, level, current, ancestor)
      decreases level[current]
    {
      if current == ancestor {
        return true;
      }
      var parent := fs.Parent(current);
      if parent == current {
        return false;
      }
      current := parent;
    }
  }

  /** Every directory a resolution consulted: the target's, the links' and the traversed ones. */
  function Consulted(target: Target, g: Progress): seq<Id> {
    [target.directory] + seq(|g.links|, i requires 0 <= i < |g.links| => g.links[i].directory) + g.traversed
  }

  ghost predicate Outside(fs: Fs, level: map<Id, nat>, directory: Id, ancestor: Id)
    requires Tree(fs, level)
  {
    fs.IsDirectory(directory) && !Within(fs, level, directory, ancestor)
  }

  ghost predicate AllOutside(fs: Fs, level: map<Id, nat>, directories: seq<Id>, ancestor: Id)
    requires Tree(fs, level)
  {
    forall i :: 0 <= i < |directories| ==> Outside(fs, level, directories[i], ancestor)
  }

  /** Whether every consulted directory is outside all forbidden ones. */
  method EnsureInputOutside(fs: Fs, ghost level: map<Id, nat>, guard: seq<Id>, target: Target, g: Progress)
    returns (accepted: bool)
    requires Tree(fs, level) && forall i :: 0 <= i < |Consulted(target, g)| ==> fs.IsDirectory(Consulted(target, g)[i])
    ensures accepted <==> forall k :: 0 <= k < |guard| ==> AllOutside(fs, level, Consulted(target, g), guard[k])
  {
    var consulted := Consulted(target, g);
    for k := 0 to |guard|
      invariant forall j :: 0 <= j < k ==> AllOutside(fs, level, consulted, guard[j])
    {
      var contained := false;
      for i := 0 to |consulted|
        invariant contained <==> exists j :: 0 <= j < i && !Outside(fs, level, consulted[j], guard[k])
      {
        var within := DirectoryIsWithin(fs, level, consulted[i], guard[k]);
        contained := contained || within;
      }
      if contained {
        return false;
      }
    }
    return true;
  }

  /** All that was recorded are directories. */
  ghost predicate AllDirectories(fs: Fs, g: Progress) {
    (forall i :: 0 <= i < |g.links| ==> fs.IsDirectory(g.links[i].directory))
    && (forall i :: 0 <= i < |g.traversed| ==> fs.IsDirectory(g.traversed[i]))
  }

  lemma {:induction false} ConsultsDirectories(fs: Fs, level: map<Id, nat>, directory: Id, pending: seq<Pending>, g: Progress)
    requires Tree(fs, level) && Ended(pending) && g.hops <= MAX_LINKS && fs.IsDirectory(directory) && AllDirectories(fs, g)
    requires Run(fs, directory, pending, g).Arrived?
    ensures var Arrived(target, g') := Run(fs, directory, pending, g);
            forall i :: 0 <= i < |Consulted(target, g')| ==> fs.IsDirectory(Consulted(target, g')[i])
    decreases MAX_LINKS - g.hops, |pending|
  {
    hide Expand;
    var rest := pending[1..];
    match pending[0].component
    case CurDir => ConsultsDirectories(fs, level, directory, rest, g);
    case ParentDir =>
      var parent := fs.Parent(directory);
      ConsultsDirectories(fs, level, parent, rest, g.(traversed := g.traversed + [parent], path := Popped(g.path)));
    case Normal(name) =>
      var entry := fs.Lookup(directory, name);
      if fs.IsLink(directory, name) {
        var target := fs.nodes[entry.value].target;
        ConsultsDirectories(fs, level, StartOf(fs, directory, target), Expand(target.components) + rest,
                            Entered(fs, directory, target, Follow(g, Followed(directory, name, entry.value, target))));
      } else if rest != [] {
        ConsultsDirectories(fs, level, entry.value, rest,
                            g.(path := g.path + [name], traversed := g.traversed + [entry.value]));
      }
  }

  // ----- Reading a guarded input -----

  datatype InputError = Unresolved(error: ResolveError) | NotRegular | Inside

  /** A config file as read: its text and the path it was found at, or that there is none. */
  type Input = Result<Option<(string, seq<string>)>, InputError>

  function ReadBytes(fs: Fs, target: Target): Result<Option<string>, InputError> {
    if target.identity.None? then Ok(None)
    else if target.identity.value in fs.nodes && fs.nodes[target.identity.value].Plain? then
      Ok(Some(fs.nodes[target.identity.value].bytes))
    else Err(NotRegular)
  }

  /** The read without the guard. */
  function Unguarded(fs: Fs, r: Resolution): Input {
    match r
    case Failed(e) => Err(Unresolved(e))
    case Arrived(target, g) =>
      var bytes := ReadBytes(fs, target);
      if bytes.Err? then Err(bytes.error)
      else if bytes.value.None? then Ok(None)
      else Ok(Some((bytes.value.value, g.path)))
  }

  ghost predicate Accepted(fs: Fs, level: map<Id, nat>, guard: seq<Id>, r: Resolution)
    requires Tree(fs, level)
  {
    r.Arrived? && forall k :: 0 <= k < |guard| ==> AllOutside(fs, level, Consulted(r.target, r.progress), guard[k])
  }

  /** What the textbook rule consulted is outside every forbidden directory. */
  ghost predicate Unforbidden(fs: Fs, level: map<Id, nat>, guard: seq<Id>, target: Target, found: Progress)
    requires Tree(fs, level)
  {
    forall k :: 0 <= k < |guard| ==> AllOutside(fs, level, Consulted(target, found), guard[k])
  }

  /** What stands at the target: nothing, a regular file with a text, or something else. */
  datatype Standing = Nothing | Text(bytes: string) | Else

  ghost predicate Stands(fs: Fs, target: Target, standing: Standing) {
    match standing
    case Nothing => target.identity.None?
    case Text(bytes) => target.identity.Some? && target.identity.value in fs.nodes
                        && fs.nodes[target.identity.value] == Plain(bytes)
    case Else => target.identity.Some? && target.identity.value in fs.nodes && !fs.nodes[target.identity.value].Plain?
  }

  /** The textbook rule leads to such a target, inside a forbidden directory or not, over this path. */
  ghost predicate Leading(fs: Fs, level: map<Id, nat>, directory: Id, path: Path, base: seq<string>, guard: seq<Id>,
                          standing: Standing, outside: bool, over: seq<string>)
    requires Tree(fs, level)
  {
    exists target: Target, found: Progress ::
      Finds(fs, directory, path, base, target, found) && Stands(fs, target, standing) && found.path == over
      && Unforbidden(fs, level, guard, target, found) == outside
  }

  ghost predicate LeadingSomewhere(fs: Fs, level: map<Id, nat>, directory: Id, path: Path, base: seq<string>,
                                   guard: seq<Id>, standing: Standing, outside: bool)
    requires Tree(fs, level)
  {
    exists over: seq<string> :: Leading(fs, level, directory, path, base, guard, standing, outside, over)
  }

  /**
  Reads a config input unless anything consulted on the way is inside a forbidden directory. The answer is the text
  and path of the file the textbook rule leads to, that there is none, or why it cannot be read.
  */
  method ReadConfigInput(fs: Fs, ghost level: map<Id, nat>, directory: Id, path: Path, base: seq<string>, guard: seq<Id>)
    returns (r: Input)
    requires Tree(fs, level) && fs.IsDirectory(directory)
    ensures forall bytes, over :: r == Ok(Some((bytes, over))) <==>
                                  Leading(fs, level, directory, path, base, guard, Text(bytes), true, over)
    ensures r == Ok(None) <==> LeadingSomewhere(fs, level, directory, path, base, guard, Nothing, true)
    ensures r == Err(NotRegular) <==>
            LeadingSomewhere(fs, level, directory, path, base, guard, Else, true)
            || LeadingSomewhere(fs, level, directory, path, base, guard, Else, false)
    ensures r == Err(Inside) <==>
            LeadingSomewhere(fs, level, directory, path, base, guard, Nothing, false)
            || exists bytes :: LeadingSomewhere(fs, level, directory, path, base, guard, Text(bytes), false)
    ensures forall e :: r == Err(Unresolved(e)) <==> Stops(fs, directory, path, e)
    ensures var found := Resolve(fs, directory, path, Progress(0, [], [], base));
            r == if Unguarded(fs, found).Ok? && !Accepted(fs, level, guard, found) then Err(Inside)
                 else Unguarded(fs, found)
  {
    hide Run, Expand, Finds, Stops, Tree, AllOutside, Consulted;
    ghost var start := Progress(0, [], [], base);
    var pinned := PinConfigTarget(fs, directory, path, base);
    if pinned.Err? {
      return Err(Unresolved(pinned.error));
    }
    var Pinned(target, progress) := pinned.value;
    PinnedLookup(fs, level, directory, path, base, target, progress);
    LeadingIs(fs, level, directory, path, base, guard, target, progress);
    var bytes := ReadBytes(fs, target);
    if bytes.Err? {
      return Err(bytes.error);
    }
    var accepted := EnsureInputOutside(fs, level, guard, target, progress);
    if !accepted {
      if bytes.value.Some? {
        assert LeadingSomewhere(fs, level, directory, path, base, guard, Text(bytes.value.value), false);
      }
      return Err(Inside);
    }
    return Ok(if bytes.value.None? then None else Some((bytes.value.value, progress.path)));
  }

  lemma PinnedLookup(fs: Fs, level: map<Id, nat>, directory: Id, path: Path, base: seq<string>, target: Target,
                     found: Progress)
    requires Tree(fs, level) && fs.IsDirectory(directory)
    requires Resolve(fs, directory, path, Progress(0, [], [], base)) == Arrived(target, found)
    ensures target.identity.Some? ==> target.identity.value in fs.nodes
    ensures forall i :: 0 <= i < |Consulted(target, found)| ==> fs.IsDirectory(Consulted(target, found)[i])
  {
    hide Run, Expand;
    var start, pending := StartOf(fs, directory, path), Expand(path.components);
    var g := Entered(fs, directory, path, Progress(0, [], [], base));
    TargetIsNoLink(fs, start, pending, g);
    ConsultsDirectories(fs, level, start, pending, g);
  }

  /** Where the rule leads is unique, so the cases are about the one target. */
  lemma LeadingIs(fs: Fs, level: map<Id, nat>, directory: Id, path: Path, base: seq<string>, guard: seq<Id>,
                  target: Target, found: Progress)
    requires Tree(fs, level)
    requires forall t, g :: (t == target && g == found) <==> Finds(fs, directory, path, base, t, g)
    ensures forall standing, outside, over ::
              Leading(fs, level, directory, path, base, guard, standing, outside, over) <==>
              Stands(fs, target, standing) && over == found.path
              && outside == Unforbidden(fs, level, guard, target, found)
    ensures forall standing, outside ::
              LeadingSomewhere(fs, level, directory, path, base, guard, standing, outside) <==>
              Stands(fs, target, standing) && outside == Unforbidden(fs, level, guard, target, found)
  {
    hide Finds, Unforbidden, Stands, Tree;
    assert Finds(fs, directory, path, base, target, found);
    forall standing, outside | Stands(fs, target, standing) && outside == Unforbidden(fs, level, guard, target, found)
      ensures LeadingSomewhere(fs, level, directory, path, base, guard, standing, outside)
    {
      assert Leading(fs, level, directory, path, base, guard, standing, outside, found.path);
    }
  }

  // ----- Nothing inside a forbidden directory matters -----

  /** The two filesystems agree except on the contents of directories at or below the ancestor. */
  ghost predicate SameOutside(fs: Fs, fs': Fs, level: map<Id, nat>, ancestor: Id)
    requires Tree(fs, level)
  {
    fs'.root == fs.root
    && (forall d :: Outside(fs, level, d, ancestor) ==> d in fs'.nodes && fs'.nodes[d] == fs.nodes[d])
    && (forall d, n :: Outside(fs, level, d, ancestor) && n in fs.nodes[d].entries ==>
          SameEntry(fs, fs', fs.nodes[d].entries[n]))
  }

  /** A directory stays one, and anything else stays as it is. */
  predicate SameEntry(fs: Fs, fs': Fs, id: Id) {
    if fs.IsDirectory(id) then fs'.IsDirectory(id)
    else (id in fs.nodes <==> id in fs'.nodes) && (id in fs.nodes ==> fs'.nodes[id] == fs.nodes[id])
  }

  lemma LookupSame(fs: Fs, fs': Fs, level: map<Id, nat>, ancestor: Id, directory: Id, name: string)
    requires Tree(fs, level) && SameOutside(fs, fs', level, ancestor) && Outside(fs, level, directory, ancestor)
    ensures fs'.Lookup(directory, name) == fs.Lookup(directory, name)
    ensures fs'.IsLink(directory, name) == fs.IsLink(directory, name)
    ensures var entry := fs.Lookup(directory, name);
            entry.Some? ==> fs'.IsDirectory(entry.value) == fs.IsDirectory(entry.value)
                            && (!fs.IsDirectory(entry.value) ==> fs'.nodes[entry.value] == fs.nodes[entry.value])
  {
    hide Within;
  }

  lemma {:induction false} TraversedGrows(fs: Fs, directory: Id, pending: seq<Pending>, g: Progress)
    requires Ended(pending) && g.hops <= MAX_LINKS && Run(fs, directory, pending, g).Arrived?
    ensures g.traversed <= Run(fs, directory, pending, g).progress.traversed
    decreases MAX_LINKS - g.hops, |pending|
  {
    hide Expand;
    var rest := pending[1..];
    match pending[0].component
    case CurDir => TraversedGrows(fs, directory, rest, g);
    case ParentDir =>
      var parent := fs.Parent(directory);
      TraversedGrows(fs, parent, rest, g.(traversed := g.traversed + [parent], path := Popped(g.path)));
    case Normal(name) =>
      var entry := fs.Lookup(directory, name);
      if fs.IsLink(directory, name) {
        var target := fs.nodes[entry.value].target;
        TraversedGrows(fs, StartOf(fs, directory, target), Expand(target.components) + rest,
                       Entered(fs, directory, target, Follow(g, Followed(directory, name, entry.value, target))));
      } else if rest != [] {
        TraversedGrows(fs, entry.value, rest, g.(path := g.path + [name], traversed := g.traversed + [entry.value]));
      }
  }

  /** The last directory pushed is among those traversed in the end. */
  lemma PushedIsOutside(fs: Fs, level: map<Id, nat>, ancestor: Id, directory: Id, pending: seq<Pending>, g: Progress)
    requires Tree(fs, level) && Ended(pending) && g.hops <= MAX_LINKS && Run(fs, directory, pending, g).Arrived?
    requires g.traversed != [] && g.traversed[|g.traversed| - 1] == directory
    requires AllOutside(fs, level, Run(fs, directory, pending, g).progress.traversed, ancestor)
    ensures Outside(fs, level, directory, ancestor)
  {
    hide Run, Within, Tree;
    TraversedGrows(fs, directory, pending, g);
    assert Run(fs, directory, pending, g).progress.traversed[|g.traversed| - 1] == directory;
  }

  /** A resolution that traversed only directories outside the ancestor goes the same way in both filesystems. */
  lemma {:induction false} RunIsUnaffected(fs: Fs, fs': Fs, level: map<Id, nat>, ancestor: Id, directory: Id,
                                           pending: seq<Pending>, g: Progress)
    requires Tree(fs, level) && SameOutside(fs, fs', level, ancestor) && Outside(fs, level, directory, ancestor)
    requires Ended(pending) && g.hops <= MAX_LINKS && Run(fs, directory, pending, g).Arrived?
    requires AllOutside(fs, level, Run(fs, directory, pending, g).progress.traversed, ancestor)
    ensures Run(fs', directory, pending, g) == Run(fs, directory, pending, g)
    decreases MAX_LINKS - g.hops, |pending|
  {
    hide Expand, Within, Tree, SameOutside, AllOutside, Outside;
    var rest := pending[1..];
    match pending[0].component
    case CurDir => RunIsUnaffected(fs, fs', level, ancestor, directory, rest, g);
    case ParentDir =>
      var parent := fs.Parent(directory);
      var g' := g.(traversed := g.traversed + [parent], path := Popped(g.path));
      ParentSame(fs, fs', level, ancestor, directory);
      PushedIsOutside(fs, level, ancestor, parent, rest, g');
      RunIsUnaffected(fs, fs', level, ancestor, parent, rest, g');
    case Normal(name) =>
      var entry := fs.Lookup(directory, name);
      LookupSame(fs, fs', level, ancestor, directory, name);
      if fs.IsLink(directory, name) {
        var target := fs.nodes[entry.value].target;
        var start := StartOf(fs, directory, target);
        var g' := Entered(fs, directory, target, Follow(g, Followed(directory, name, entry.value, target)));
        RootSame(fs, fs', level, ancestor);
        PushedIsOutside(fs, level, ancestor, start, Expand(target.components) + rest, g');
        RunIsUnaffected(fs, fs', level, ancestor, start, Expand(target.components) + rest, g');
      } else if rest != [] {
        var g' := g.(path := g.path + [name], traversed := g.traversed + [entry.value]);
        PushedIsOutside(fs, level, ancestor, entry.value, rest, g');
        RunIsUnaffected(fs, fs', level, ancestor, entry.value, rest, g');
      }
  }

  lemma ParentSame(fs: Fs, fs': Fs, level: map<Id, nat>, ancestor: Id, directory: Id)
    requires Tree(fs, level) && SameOutside(fs, fs', level, ancestor) && Outside(fs, level, directory, ancestor)
    ensures fs'.IsDirectory(directory) && fs'.Parent(directory) == fs.Parent(directory)
  {
  }

  lemma RootSame(fs: Fs, fs': Fs, level: map<Id, nat>, ancestor: Id)
    requires Tree(fs, level) && SameOutside(fs, fs', level, ancestor)
    ensures fs'.root == fs.root
  {
  }

  lemma {:induction false} WithinSame(fs: Fs, fs': Fs, level: map<Id, nat>, level': map<Id, nat>, ancestor: Id,
                                      directory: Id, other: Id)
    requires Tree(fs, level) && Tree(fs', level') && SameOutside(fs, fs', level, ancestor)
    requires Outside(fs, level, directory, ancestor)
    ensures fs'.IsDirectory(directory) && Within(fs', level', directory, other) == Within(fs, level, directory, other)
    decreases level[directory]
  {
    ParentSame(fs, fs', level, ancestor, directory);
    RootSame(fs, fs', level, ancestor);
    if directory != fs.root {
      WithinSame(fs, fs', level, level', ancestor, fs.Parent(directory), other);
    }
  }

  lemma AcceptedIsOutside(fs: Fs, level: map<Id, nat>, guard: seq<Id>, r: Resolution, k: nat)
    requires Tree(fs, level) && Accepted(fs, level, guard, r) && k < |guard|
    ensures AllOutside(fs, level, r.progress.traversed, guard[k])
    ensures Outside(fs, level, r.target.directory, guard[k])
  {
    hide Tree, Outside;
    var all := Consulted(r.target, r.progress);
    var n := 1 + |r.progress.links|;
    assert all[0] == r.target.directory;
    forall i | 0 <= i < |r.progress.traversed| ensures Outside(fs, level, r.progress.traversed[i], guard[k]) {
      assert all[n + i] == r.progress.traversed[i];
    }
  }

  lemma BytesSame(fs: Fs, fs': Fs, level: map<Id, nat>, ancestor: Id, target: Target)
    requires Tree(fs, level) && SameOutside(fs, fs', level, ancestor) && Outside(fs, level, target.directory, ancestor)
    requires target.identity == fs.Lookup(target.directory, target.name)
    ensures ReadBytes(fs', target) == ReadBytes(fs, target)
  {
    LookupSame(fs, fs', level, ancestor, target.directory, target.name);
  }

  /**
  What the guard accepts is out of reach: in any filesystem that differs only in directories at or below a
  forbidden one, the same path resolves to the same target with the same bytes, and is accepted again.
  */
  lemma AcceptedInputIsUnaffected(fs: Fs, fs': Fs, level: map<Id, nat>, level': map<Id, nat>, guard: seq<Id>, k: nat,
                                  directory: Id, path: Path, base: seq<string>)
    requires Tree(fs, level) && Tree(fs', level') && k < |guard| && SameOutside(fs, fs', level, guard[k])
    requires Accepted(fs, level, guard, Resolve(fs, directory, path, Progress(0, [], [], base)))
    ensures var found := Resolve(fs, directory, path, Progress(0, [], [], base));
            Resolve(fs', directory, path, Progress(0, [], [], base)) == found
            && Unguarded(fs', found) == Unguarded(fs, found) && Accepted(fs', level', guard, found)
  {
    hide Run, Expand, Within, Tree, SameOutside, Outside, AllOutside;
    var ancestor := guard[k];
    var found := Resolve(fs, directory, path, Progress(0, [], [], base));
    var start, pending := StartOf(fs, directory, path), Expand(path.components);
    var g := Entered(fs, directory, path, Progress(0, [], [], base));
    AcceptedIsOutside(fs, level, guard, found, k);
    PushedIsOutside(fs, level, ancestor, start, pending, g);
    RunIsUnaffected(fs, fs', level, ancestor, start, pending, g);
    RootSame(fs, fs', level, ancestor);
    TargetIsNoLink(fs, start, pending, g);
    BytesSame(fs, fs', level, ancestor, found.target);
    var all := Consulted(found.target, found.progress);
    forall j | 0 <= j < |guard| ensures AllOutside(fs', level', all, guard[j]) {
      ConsultedSame(fs, fs', level, level', ancestor, all, guard[j]);
    }
  }

  lemma ConsultedSame(fs: Fs, fs': Fs, level: map<Id, nat>, level': map<Id, nat>, ancestor: Id, all: seq<Id>, other: Id)
    requires Tree(fs, level) && Tree(fs', level') && SameOutside(fs, fs', level, ancestor)
    requires AllOutside(fs, level, all, ancestor) && AllOutside(fs, level, all, other)
    ensures AllOutside(fs', level', all, other)
  {
    hide Within, Tree, SameOutside;
    forall i | 0 <= i < |all| ensures Outside(fs', level', all[i], other) {
      WithinSame(fs, fs', level, level', ancestor, all[i], other);
    }
  }

  /** So the text read, and that there is none, are the same there. */
  lemma AcceptedAnswerIsUnaffected(fs: Fs, fs': Fs, level: map<Id, nat>, level': map<Id, nat>, guard: seq<Id>, k: nat,
                                   directory: Id, path: Path, base: seq<string>, standing: Standing, over: seq<string>)
    requires Tree(fs, level) && Tree(fs', level') && k < |guard| && SameOutside(fs, fs', level, guard[k])
    requires fs.IsDirectory(directory) && !standing.Else?
    requires Leading(fs, level, directory, path, base, guard, standing, true, over)
    ensures Leading(fs', level', directory, path, base, guard, standing, true, over)
  {
    hide Tree, SameOutside, AllOutside, Run, Expand, Finds;
    var target: Target, found: Progress :|
      Finds(fs, directory, path, base, target, found) && Stands(fs, target, standing) && found.path == over
      && Unforbidden(fs, level, guard, target, found);
    ArrivesIffFinds(fs, directory, path, base, target, found);
    AcceptedInputIsUnaffected(fs, fs', level, level', guard, k, directory, path, base);
    ArrivesIffFinds(fs', directory, path, base, target, found);
    assert Unguarded(fs', Arrived(target, found)) == Unguarded(fs, Arrived(target, found));
  }

  // ----- Paths without links or detours -----

  function AllNormal(names: seq<string>): seq<Component> {
    seq(|names|, i requires 0 <= i < |names| => Normal(names[i]))
  }

  /** An absolute path of names is resolved by walking down from the root, if none of them is a link. */
  lemma {:induction false} WalkedPathArrives(fs: Fs, from: seq<string>, names: seq<string>, directory: Id, g: Progress)
    requires names != [] && g.hops <= MAX_LINKS && Walk(fs, from) == Some(directory)
    requires Walk(fs, from + names[..|names| - 1]).Some?
    requires !fs.IsLink(Walk(fs, from + names[..|names| - 1]).value, names[|names| - 1])
    ensures var last := names[|names| - 1];
            var parent := Walk(fs, from + names[..|names| - 1]).value;
            var r := Run(fs, directory, Steps(AllNormal(names)), g);
            r.Arrived? && r.target == Target(parent, last, fs.Lookup(parent, last))
            && r.progress.links == g.links && r.progress.path == g.path + names
    decreases |names|
  {
    hide Walk;
    var pending := Steps(AllNormal(names));
    if |names| == 1 {
      assert names[..0] == [] && from + [] == from && names == [names[0]];
    } else {
      var n := |names| - 1;
      assert pending[1..] == Steps(AllNormal(names[1..]));
      assert names[..n] == [names[0]] + names[1..][..n - 1];
      assert from + names[..n] == (from + [names[0]]) + names[1..][..n - 1];
      WalkPrefix(fs, from + [names[0]], names[1..][..n - 1]);
      WalkStep(fs, from, names[0], directory);
      var child := fs.Lookup(directory, names[0]).value;
      var g' := g.(path := g.path + [names[0]], traversed := g.traversed + [child]);
      WalkedPathArrives(fs, from + [names[0]], names[1..], child, g');
      assert names == [names[0]] + names[1..];
      assert g.path + [names[0]] + names[1..] == g.path + names;
    }
  }

  lemma {:induction false} WalkPrefix(fs: Fs, path: seq<string>, more: seq<string>)
    requires Walk(fs, path + more).Some?
    ensures Walk(fs, path).Some?
    decreases |more|
  {
    if more == [] {
      assert path + more == path;
    } else {
      assert (path + more)[..|path + more| - 1] == path + more[..|more| - 1];
      WalkPrefix(fs, path, more[..|more| - 1]);
    }
  }

  lemma WalkStep(fs: Fs, path: seq<string>, name: string, directory: Id)
    requires Walk(fs, path) == Some(directory) && Walk(fs, path + [name]).Some?
    ensures IsChild(fs, directory, name) && !fs.IsLink(directory, name)
    ensures Walk(fs, path + [name]) == fs.Lookup(directory, name)
  {
    assert (path + [name])[..|path|] == path;
  }

  /** A path that does not end in a name never arrives. */
  lemma {:induction false} NamelessNeverArrives(fs: Fs, directory: Id, pending: seq<Pending>, g: Progress)
    requires Ended(pending) && g.hops <= MAX_LINKS && pending[|pending| - 1].Nameless?
    ensures Run(fs, directory, pending, g).Failed?
    decreases MAX_LINKS - g.hops, |pending|
  {
    hide Expand;
    var rest := pending[1..];
    if pending[0].Step? {
      match pending[0].component
      case CurDir => NamelessNeverArrives(fs, directory, rest, g);
      case ParentDir =>
        var parent := fs.Parent(directory);
        NamelessNeverArrives(fs, parent, rest, g.(traversed := g.traversed + [parent], path := Popped(g.path)));
      case Normal(name) =>
        var entry := fs.Lookup(directory, name);
        if fs.IsLink(directory, name) {
          if g.hops < MAX_LINKS {
            var target := fs.nodes[entry.value].target;
            NamelessNeverArrives(fs, StartOf(fs, directory, target), Expand(target.components) + rest,
                                 Entered(fs, directory, target, Follow(g, Followed(directory, name, entry.value, target))));
          }
        } else if entry.Some? && fs.IsDirectory(entry.value) {
          NamelessNeverArrives(fs, entry.value, rest,
                               g.(path := g.path + [name], traversed := g.traversed + [entry.value]));
        }
    }
  }

  /** The names, walked from a directory's own path, lead to a last name that is no link. */
  ghost predicate Walked(fs: Fs, base: seq<string>, names: seq<string>, parent: Id) {
    names != [] && Walk(fs, base + names[..|names| - 1]) == Some(parent) && !fs.IsLink(parent, names[|names| - 1])
  }

  /**
  Paths mean what they say: names are walked, from the root or from the directory they are resolved in, and without
  a final name there is no target.
  */
  lemma PathsMeanWhatTheySay(fs: Fs, directory: Id, base: seq<string>, names: seq<string>, parent: Id, path: Path)
    ensures Walked(fs, [], names, parent) ==>
              var r := Resolve(fs, directory, Path(true, AllNormal(names)), Progress(0, [], [], base));
              r.Arrived? && r.progress.path == names
              && r.target == Target(parent, names[|names| - 1], fs.Lookup(parent, names[|names| - 1]))
    ensures Walk(fs, base) == Some(directory) && Walked(fs, base, names, parent) ==>
              var r := Resolve(fs, directory, Path(false, AllNormal(names)), Progress(0, [], [], base));
              r.Arrived? && r.progress.path == base + names
              && r.target == Target(parent, names[|names| - 1], fs.Lookup(parent, names[|names| - 1]))
    ensures (path.components == [] || !path.components[|path.components| - 1].Normal?) ==>
              Resolve(fs, directory, path, Progress(0, [], [], base)).Failed?
  {
    hide Walk, Run;
    var start := Progress(0, [], [], base);
    if Walked(fs, [], names, parent) {
      RootWalks(fs);
      WalkedPathArrives(fs, [], names, fs.root, Entered(fs, directory, Path(true, AllNormal(names)), start));
      assert [] + names == names;
    }
    if Walk(fs, base) == Some(directory) && Walked(fs, base, names, parent) {
      WalkedPathArrives(fs, base, names, directory, Entered(fs, directory, Path(false, AllNormal(names)), start));
    }
    if path.components == [] || !path.components[|path.components| - 1].Normal? {
      NamelessNeverArrives(fs, StartOf(fs, directory, path), Expand(path.components), Entered(fs, directory, path, start));
    }
  }
}
