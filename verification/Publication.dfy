/**
Crash-recoverable publication of one config file over three names of its directory: the target, its lock and a
private name. Attempts may be cut off after any step and repeated; another process may act between steps.
*/
module Publication {
  import opened Common
  import opened Namespace

  /** Identity of a config target when the change was planned. */
  datatype TargetIdentity = TargetIdentity(resolution: Resolution, target: Option<Inode>)

  /** A reserved private file. */
  datatype Prepared = Prepared(name: Name, identity: Inode)

  /** What is published: the prepared file in place of the before-image, if there was one. */
  datatype Plan = Plan(expected: TargetIdentity, prepared: Prepared) {
    /** Both are regular files found under their own names at the same time. */
    predicate Valid() {
      prepared.name.Private? && prepared.identity.File? && expected.target != Some(prepared.identity)
      && (expected.target.Some? ==> expected.target.value.File?)
    }

    function Before(): Option<Inode> { expected.target }

    function BeforeSet(): set<Inode> { if Before().Some? then {Before().value} else {} }

    function Own(): set<Inode> { BeforeSet() + {prepared.identity} }
  }

  datatype Image = BeforeImage | AfterImage

  datatype Outcome = Published | AlreadyPublished

  type Validate = (Image, Config) -> bool

  // ----- Looking -----

  /** The target's content and identity; an absent target reads as the empty config. */
  function ReadTarget(d: Disk): Result<(Config, Option<Inode>), Failure> {
    match d.At(Target)
    case None => Ok(("", None))
    case Some(i) => if i.File? && i in d.contents then Ok((d.contents[i], Some(i))) else Err(Refused)
  }

  function NamedFile(d: Disk, name: Name): Result<Option<Inode>, Failure> {
    match d.At(name)
    case None => Ok(None)
    case Some(i) => if i.File? then Ok(Some(i)) else Err(Refused)
  }

  function ReadNamed(d: Disk, name: Name): Result<Config, Failure> {
    match d.At(name)
    case None => Err(Refused)
    case Some(i) => if i.File? && i in d.contents then Ok(d.contents[i]) else Err(Refused)
  }

  predicate Reads(d: Disk, i: Inode, image: Image, validate: Validate) {
    i in d.contents && validate(image, d.contents[i])
  }

  // ----- The states of a publication -----

  predicate Stands(d: Disk, plan: Plan, target: Option<Inode>, lock: Option<Inode>, private: Option<Inode>) {
    d.resolution == plan.expected.resolution
    && d.At(Target) == target && d.At(Lock) == lock && d.At(plan.prepared.name) == private
  }

  predicate Reserved(d: Disk, plan: Plan) { Stands(d, plan, plan.Before(), None, Some(plan.prepared.identity)) }

  predicate Locked(d: Disk, plan: Plan) { Stands(d, plan, plan.Before(), Some(plan.prepared.identity), None) }

  /** POSIX, between the exchange and the retirement of the before-image. */
  predicate Swapped(d: Disk, plan: Plan) {
    plan.Before().Some? && Stands(d, plan, Some(plan.prepared.identity), plan.Before(), None)
  }

  /** Windows, between the displacement of the before-image and the installation. */
  predicate Vacant(d: Disk, plan: Plan) {
    plan.Before().Some? && Stands(d, plan, None, Some(plan.prepared.identity), plan.Before())
  }

  /** Windows, between the installation and the deletion of the before-image. */
  predicate Installed(d: Disk, plan: Plan) {
    plan.Before().Some? && Stands(d, plan, Some(plan.prepared.identity), None, plan.Before())
  }

  predicate Finished(d: Disk, plan: Plan) { Stands(d, plan, Some(plan.prepared.identity), None, None) }

  /** Where an attempt may have been cut off. */
  predicate OnTrack(d: Disk, plan: Plan, platform: Platform) {
    Reserved(d, plan) || Locked(d, plan) || Finished(d, plan)
    || (platform == Posix && Swapped(d, plan))
    || (platform == Windows && (Vacant(d, plan) || Installed(d, plan)))
  }

  /** The images are what the plan recorded. */
  predicate Intact(d: Disk, plan: Plan, validate: Validate) {
    Reads(d, plan.prepared.identity, AfterImage, validate)
    && (match plan.Before() case None => validate(BeforeImage, "") case Some(i) => Reads(d, i, BeforeImage, validate))
  }

  /** An attempt changes nothing but the entries under the three names and retired ones. */
  ghost predicate Confined(before: Disk, after: Disk, plan: Plan) {
    after.contents == before.contents && after.resolution == before.resolution
    && SameElsewhere(before.names, after.names, {Target, Lock, plan.prepared.name})
  }

  /**
  What the calls of an attempt do to others' files, whatever others do: no inode but the before-image loses its
  last name, and no entry of a foreign inode is taken.
  */
  ghost predicate Gentle(plan: Plan, env: Env, platform: Platform, lost: set<Inode>, lost': set<Inode>,
                         displaced: set<Inode>, displaced': set<Inode>)
  {
    lost' <= lost + plan.BeforeSet() && (platform == Posix ==> lost' == lost)
    && (env.coarse ==> displaced' <= displaced + plan.Own())
  }

  // ----- Publishing -----

  /** Takes the name of an entry seen earlier to be the before-image, if there was one. */
  method RetireEntry(d: Directory, plan: Plan, name: Name, seen: Option<Inode>, env: Env)
    returns (r: Result<(), Failure>)
    requires plan.Valid() && (name == Lock || name == plan.prepared.name) && (seen.Some? ==> seen == plan.Before())
    modifies d
    ensures Gentle(plan, env, d.platform, old(d.lost), d.lost, old(d.displaced), d.displaced)
    ensures env.quiet ==> SameElsewhere(old(d.disk.names), d.disk.names, {name})
                          && d.disk.contents == old(d.disk.contents) && d.disk.resolution == old(d.disk.resolution)
    ensures env.quiet && old(d.Fresh()) ==> d.Fresh()
    ensures env.quiet && old(d.disk).At(name) == seen ==>
              (r.Ok? ==> d.disk.At(name) == None) && (r.Err? ==> d.disk == old(d.disk))
              && (env.steady && old(d.Fresh()) ==> r.Ok?)
  {
    if seen.Some? {
      d.Interfere(env);
      r := d.RemoveFileIfIdentity(name, seen.value, env);
    } else {
      r := Ok(());
    }
  }

  datatype Seen = Seen(private: Option<Inode>, lock: Option<Inode>)

  method SeeLeftover(d: Directory, plan: Plan, env: Env) returns (r: Result<Seen, Failure>)
    requires plan.Valid()
    modifies d`disk
    ensures r.Ok? ==> (r.value.private.Some? ==> r.value.private == plan.Before())
                      && (r.value.lock.Some? ==> r.value.lock == plan.Before())
    ensures env.quiet ==>
              d.disk == old(d.disk) && (r.Ok? <==> Leftover(d.disk, plan))
              && (r.Ok? ==> r.value == Seen(d.disk.At(plan.prepared.name), d.disk.At(Lock)))
  {
    d.Interfere(env);
    var private :- NamedFile(d.disk, plan.prepared.name);
    var _ :- Ensure(private.None? || private == plan.Before(), Refused);
    d.Interfere(env);
    var lock :- NamedFile(d.disk, Lock);
    var _ :- Ensure(lock.None? || lock == plan.Before(), Refused);
    return Ok(Seen(private, lock));
  }

  /** Both entries next to an installed target must be absent or the before-image. */
  method RetireDisplaced(d: Directory, plan: Plan, pinned: Resolution, env: Env) returns (r: Result<Outcome, Failure>)
    requires plan.Valid()
    modifies d
    ensures Gentle(plan, env, d.platform, old(d.lost), d.lost, old(d.displaced), d.displaced)
    ensures env.quiet ==> Confined(old(d.disk), d.disk, plan) && d.disk.At(Target) == old(d.disk).At(Target)
    ensures env.quiet && old(d.Fresh()) ==> d.Fresh()
    ensures env.quiet && r.Ok? ==> d.disk.At(Lock) == None && d.disk.At(plan.prepared.name) == None
    ensures env.quiet && Leftover(old(d.disk), plan) ==> d.disk.At(Lock) == None || d.disk.At(Lock) == old(d.disk).At(Lock)
    ensures env.quiet && Leftover(old(d.disk), plan) ==>
              d.disk.At(plan.prepared.name) == None || d.disk.At(plan.prepared.name) == old(d.disk).At(plan.prepared.name)
    ensures env.quiet && env.steady && old(d.Fresh()) && pinned == old(d.disk).resolution ==>
              (r.Ok? <==> Leftover(old(d.disk), plan))
    ensures r.Ok? ==> r.value == AlreadyPublished
  {
    var seen :- SeeLeftover(d, plan, env);
    var _ :- RetireEntry(d, plan, Lock, seen.lock, env);
    d.Interfere(env);
    var _ :- Ensure(d.disk.resolution == pinned, Refused);
    var _ :- RetireEntry(d, plan, plan.prepared.name, seen.private, env);
    return Ok(AlreadyPublished);
  }

  /** The lock and private entries next to an installed target are ones an attempt may have left. */
  predicate Leftover(d: Disk, plan: Plan) {
    (d.At(Lock) == None || d.At(Lock) == plan.Before())
    && (d.At(plan.prepared.name) == None || d.At(plan.prepared.name) == plan.Before())
  }

  /** The prepared image is in place, through the same resolution. */
  method EnsurePublished(d: Directory, plan: Plan, pinned: Resolution, validate: Validate, env: Env)
    returns (r: Result<(), Failure>)
    modifies d`disk
    ensures r.Ok? ==> d.disk.Has(Target, plan.prepared.identity) && pinned == plan.expected.resolution
                      && Reads(d.disk, plan.prepared.identity, AfterImage, validate)
    ensures env.quiet ==>
              d.disk == old(d.disk)
              && (plan.prepared.identity.File? && old(d.disk).Has(Target, plan.prepared.identity)
                  && old(d.disk).resolution == pinned == plan.expected.resolution ==>
                  (r.Ok? <==> Reads(old(d.disk), plan.prepared.identity, AfterImage, validate)))
    ensures r.Err? ==> r.error.Refused?
  {
    d.Interfere(env);
    var _ :- Ensure(d.disk.resolution == pinned, Refused);
    d.Interfere(env);
    var found :- ReadTarget(d.disk);
    var _ :- Ensure(pinned == plan.expected.resolution && found.1 == Some(plan.prepared.identity), Refused);
    return Ensure(validate(AfterImage, found.0), Refused);
  }

  /** Confirms the installed image, then retires the before-image left under the private name. */
  method ConfirmAndRetire(d: Directory, plan: Plan, pinned: Resolution, validate: Validate, retire: bool, env: Env)
    returns (r: Result<Outcome, Failure>)
    requires plan.Valid() && pinned == plan.expected.resolution && (retire ==> plan.Before().Some?)
    modifies d
    ensures Gentle(plan, env, d.platform, old(d.lost), d.lost, old(d.displaced), d.displaced)
    ensures env.quiet ==> Confined(old(d.disk), d.disk, plan)
    ensures env.quiet && old(d.Fresh()) ==> d.Fresh()
    ensures env.quiet && Installed(old(d.disk), plan) ==>
              (Installed(d.disk, plan) || Finished(d.disk, plan)) && (r.Ok? && retire ==> Finished(d.disk, plan))
              && (env.steady && retire && old(d.Fresh()) ==>
                    (r.Ok? <==> Reads(old(d.disk), plan.prepared.identity, AfterImage, validate)))
    ensures env.quiet && !retire ==> d.disk == old(d.disk)
    ensures env.quiet && Finished(old(d.disk), plan) && !retire ==>
              (r.Ok? <==> Reads(old(d.disk), plan.prepared.identity, AfterImage, validate))
    ensures r.Ok? ==> r.value == Published
  {
    var _ :- EnsurePublished(d, plan, pinned, validate, env);
    if retire {
      d.Interfere(env);
      var _ :- d.RemoveFileIfIdentity(plan.prepared.name, plan.Before().value, env);
    }
    return Ok(Published);
  }

  /** The checks of a recovery from the Windows window. */
  method CheckVacant(d: Directory, plan: Plan, pinned: Resolution, validate: Validate, env: Env)
    returns (r: Result<(), Failure>)
    requires plan.Valid() && plan.Before().Some? && pinned == plan.expected.resolution
    modifies d`disk
    ensures env.quiet ==>
              d.disk == old(d.disk)
              && (d.disk.At(Target) == None ==> (r.Ok? <==> Vacant(d.disk, plan) && Intact(d.disk, plan, validate)))
    ensures env.quiet && r.Ok? ==>
              d.disk.Has(plan.prepared.name, plan.Before().value) && d.disk.Has(Lock, plan.prepared.identity)
              && d.disk.resolution == pinned
    ensures r.Err? ==> r.error.Refused?
  {
    d.Interfere(env);
    var private :- NamedFile(d.disk, plan.prepared.name);
    d.Interfere(env);
    var lock :- NamedFile(d.disk, Lock);
    var _ :- Ensure(private == plan.Before() && lock == Some(plan.prepared.identity), Refused);
    d.Interfere(env);
    var before :- ReadNamed(d.disk, plan.prepared.name);
    var _ :- Ensure(validate(BeforeImage, before), Refused);
    d.Interfere(env);
    var after :- ReadNamed(d.disk, Lock);
    var _ :- Ensure(validate(AfterImage, after), Refused);
    d.Interfere(env);
    return Ensure(d.disk.resolution == pinned, Refused);
  }

  /** Windows recovery: the before-image was displaced and the prepared image not yet installed. */
  method InstallAfterDisplacement(d: Directory, plan: Plan, pinned: Resolution, boundary: bool, validate: Validate,
                                  env: Env)
    returns (r: Result<Outcome, Failure>)
    requires plan.Valid() && plan.Before().Some? && pinned == plan.expected.resolution
    modifies d
    ensures Gentle(plan, env, d.platform, old(d.lost), d.lost, old(d.displaced), d.displaced)
    ensures env.quiet ==> Confined(old(d.disk), d.disk, plan)
    ensures env.quiet && old(d.Fresh()) ==> d.Fresh()
    ensures env.quiet && r.Ok? ==> Finished(d.disk, plan)
    ensures env.quiet && Vacant(old(d.disk), plan) ==>
              Vacant(d.disk, plan) || Installed(d.disk, plan) || Finished(d.disk, plan)
    ensures env.quiet && env.steady && old(d.Fresh()) && old(d.disk).At(Target) == None ==>
              (r.Ok? <==> Vacant(old(d.disk), plan) && Intact(old(d.disk), plan, validate) && boundary)
    ensures r.Ok? ==> r.value == Published
  {
    var _ :- CheckVacant(d, plan, pinned, validate, env);
    var _ :- Ensure(boundary, Refused);
    d.Interfere(env);
    var _ :- d.RenameNoreplaceIfIdentity(Lock, plan.prepared.identity, Target, env);
    r := ConfirmAndRetire(d, plan, pinned, validate, true, env);
  }

  /** Moves the prepared image under the lock name, unless an earlier attempt did. */
  method TakeLock(d: Directory, plan: Plan, validate: Validate, env: Env) returns (r: Result<(), Failure>)
    requires plan.Valid()
    modifies d
    ensures Gentle(plan, env, d.platform, old(d.lost), d.lost, old(d.displaced), d.displaced)
    ensures env.quiet ==> Confined(old(d.disk), d.disk, plan) && d.disk.At(Target) == old(d.disk).At(Target)
    ensures env.quiet && old(d.Fresh()) ==> d.Fresh()
    ensures env.quiet && r.Ok? ==>
              d.disk.At(Lock) == Some(plan.prepared.identity) && d.disk.At(plan.prepared.name) == None
    ensures env.quiet && r.Err? ==> d.disk == old(d.disk)
    ensures env.quiet && env.steady ==>
              (r.Ok? <==> Reads(old(d.disk), plan.prepared.identity, AfterImage, validate)
                          && ((old(d.disk).At(Lock) == None && old(d.disk).Has(plan.prepared.name, plan.prepared.identity))
                              || (old(d.disk).Has(Lock, plan.prepared.identity)
                                  && old(d.disk).At(plan.prepared.name) == None)))
  {
    d.Interfere(env);
    var private :- NamedFile(d.disk, plan.prepared.name);
    d.Interfere(env);
    var lock :- NamedFile(d.disk, Lock);
    var _ :- Ensure(private == None || lock == None, Refused);
    var _ :- Ensure(private == Some(plan.prepared.identity) || lock == Some(plan.prepared.identity), Refused);
    d.Interfere(env);
    var after :- ReadNamed(d.disk, if private.Some? then plan.prepared.name else Lock);
    var _ :- Ensure(validate(AfterImage, after), Refused);
    if private.Some? {
      d.Interfere(env);
      var _ :- d.RenameNoreplaceIfIdentity(plan.prepared.name, plan.prepared.identity, Lock, env);
    }
    return Ok(());
  }

  /** Puts the locked image at the target: by exchange on POSIX, by displacing the old file first on Windows. */
  method PublishJournaled(d: Directory, plan: Plan, state: Option<Inode>, env: Env) returns (r: Result<(), Failure>)
    requires plan.Valid() && state == plan.Before()
    modifies d
    ensures Gentle(plan, env, d.platform, old(d.lost), d.lost, old(d.displaced), d.displaced)
    ensures env.quiet ==> Confined(old(d.disk), d.disk, plan)
    ensures env.quiet && old(d.Fresh()) ==> d.Fresh()
    ensures env.quiet && Locked(old(d.disk), plan) ==>
              OnTrack(d.disk, plan, d.platform) && !Reserved(d.disk, plan)
              && (r.Ok? ==> if d.platform == Posix || state == None then Finished(d.disk, plan) else Installed(d.disk, plan))
              && (env.steady && old(d.Fresh()) ==> r.Ok?)
  {
    if state.None? {
      r := d.RenameNoreplaceIfIdentity(Lock, plan.prepared.identity, Target, env);
    } else if d.platform == Posix {
      r := d.ReplaceIfIdentities(Lock, plan.prepared.identity, Target, state.value, env);
    } else {
      var _ :- d.RenameNoreplaceIfIdentity(Target, state.value, plan.prepared.name, env);
      d.Interfere(env);
      r := d.RenameNoreplaceIfIdentity(Lock, plan.prepared.identity, Target, env);
    }
  }

  /** The states a publication completes from, with what it reads there. */
  predicate Completes(d: Disk, plan: Plan, validate: Validate, boundary: bool) {
    d.resolution == plan.expected.resolution
    && (if d.At(Target) == Some(plan.prepared.identity) then
          Reads(d, plan.prepared.identity, AfterImage, validate) && Leftover(d, plan)
        else
          Intact(d, plan, validate) && boundary && (Reserved(d, plan) || Locked(d, plan) || Vacant(d, plan)))
  }

  /** The last checks before the target is replaced. */
  method CheckLocked(d: Directory, plan: Plan, pinned: Resolution, validate: Validate, env: Env)
    returns (r: Result<(), Failure>)
    requires plan.Valid() && pinned == plan.expected.resolution
    modifies d`disk
    ensures env.quiet ==>
              d.disk == old(d.disk) && (Locked(d.disk, plan) ==> (r.Ok? <==> Intact(d.disk, plan, validate)))
    ensures env.quiet && r.Ok? ==> d.disk.resolution == pinned && d.disk.At(Target) == plan.Before()
    ensures r.Err? ==> r.error.Refused?
  {
    d.Interfere(env);
    var _ :- Ensure(d.disk.resolution == pinned, Refused);
    d.Interfere(env);
    var current :- ReadTarget(d.disk);
    var _ :- Ensure(current.1 == plan.Before() && validate(BeforeImage, current.0), Refused);
    d.Interfere(env);
    var locked :- ReadNamed(d.disk, Lock);
    return Ensure(validate(AfterImage, locked), Refused);
  }

  /** With the lock taken: checks everything once more, replaces the target and retires what it displaced. */
  method PublishLocked(d: Directory, plan: Plan, pinned: Resolution, boundary: bool, validate: Validate, env: Env)
    returns (r: Result<Outcome, Failure>)
    requires plan.Valid() && pinned == plan.expected.resolution
    modifies d
    ensures Gentle(plan, env, d.platform, old(d.lost), d.lost, old(d.displaced), d.displaced)
    ensures env.quiet ==> Confined(old(d.disk), d.disk, plan)
    ensures env.quiet && old(d.Fresh()) ==> d.Fresh()
    ensures env.quiet && Locked(old(d.disk), plan) ==>
              OnTrack(d.disk, plan, d.platform) && (r.Ok? ==> Finished(d.disk, plan))
              && (env.steady && old(d.Fresh()) ==> (r.Ok? <==> Intact(old(d.disk), plan, validate) && boundary))
    ensures env.quiet && r.Ok? ==> old(d.disk).resolution == pinned && old(d.disk).At(Target) == plan.Before()
    ensures r.Ok? ==> r.value == Published
  {
    var _ :- CheckLocked(d, plan, pinned, validate, env);
    var _ :- Ensure(boundary, Refused);
    d.Interfere(env);
    var _ :- PublishJournaled(d, plan, plan.Before(), env);
    r := ConfirmAndRetire(d, plan, pinned, validate, d.platform == Windows && plan.Before().Some?, env);
  }

  /** Publishes from the planned before-image at the target. */
  method PublishFromBefore(d: Directory, plan: Plan, pinned: Resolution, boundary: bool, validate: Validate, env: Env)
    returns (r: Result<Outcome, Failure>)
    requires plan.Valid() && pinned == plan.expected.resolution
    modifies d
    ensures Gentle(plan, env, d.platform, old(d.lost), d.lost, old(d.displaced), d.displaced)
    ensures env.quiet ==> Confined(old(d.disk), d.disk, plan)
    ensures env.quiet && old(d.Fresh()) ==> d.Fresh()
    ensures env.quiet && r.Ok? ==> Finished(d.disk, plan)
    ensures env.quiet && (Reserved(old(d.disk), plan) || Locked(old(d.disk), plan)) ==> OnTrack(d.disk, plan, d.platform)
    ensures env.quiet && env.steady && old(d.Fresh()) && old(d.disk).At(Target) == plan.Before()
            && old(d.disk).resolution == pinned && Validated(old(d.disk), plan, validate) ==>
              (r.Ok? <==> Completes(old(d.disk), plan, validate, boundary))
    ensures r.Ok? ==> r.value == Published
  {
    var _ :- TakeLock(d, plan, validate, env);
    r := PublishLocked(d, plan, pinned, boundary, validate, env);
  }

  /** The target's content passes as the before-image. */
  predicate Validated(d: Disk, plan: Plan, validate: Validate) {
    match plan.Before() case None => validate(BeforeImage, "") case Some(i) => Reads(d, i, BeforeImage, validate)
  }

  /**
  Publishes the prepared image, or completes a publication an earlier attempt began.
  */
  method Publish(d: Directory, plan: Plan, boundary: bool, validate: Validate, env: Env)
    returns (r: Result<Outcome, Failure>)
    requires plan.Valid()
    modifies d
    ensures Gentle(plan, env, d.platform, old(d.lost), d.lost, old(d.displaced), d.displaced)
    ensures env.quiet ==> Confined(old(d.disk), d.disk, plan)
    ensures env.quiet && old(d.Fresh()) ==> d.Fresh()
    ensures env.quiet && r.Ok? ==> Finished(d.disk, plan)
    ensures env.quiet && OnTrack(old(d.disk), plan, d.platform) ==> OnTrack(d.disk, plan, d.platform)
    ensures env.quiet && env.steady && old(d.Fresh()) ==> (r.Ok? <==> Completes(old(d.disk), plan, validate, boundary))
    ensures env.quiet && r.Ok? ==>
              (r.value == AlreadyPublished <==> old(d.disk).At(Target) == Some(plan.prepared.identity))
  {
    d.Interfere(env);
    var pinned := d.disk.resolution;
    d.Interfere(env);
    var _ :- Ensure(d.disk.resolution == pinned, Refused);
    d.Interfere(env);
    var found :- ReadTarget(d.disk);
    var same := pinned == plan.expected.resolution;
    if same && found.1 == Some(plan.prepared.identity) {
      var _ :- Ensure(validate(AfterImage, found.0), Refused);
      r := RetireDisplaced(d, plan, pinned, env);
      return;
    }
    if same && found.1.None? && plan.Before().Some? {
      r := InstallAfterDisplacement(d, plan, pinned, boundary, validate, env);
      return;
    }
    var _ :- Ensure(TargetIdentity(pinned, found.1) == plan.expected, Refused);
    var _ :- Ensure(validate(BeforeImage, found.0), Refused);
    r := PublishFromBefore(d, plan, pinned, boundary, validate, env);
  }

  // ----- Restoring the before-image -----

  /** The target is one of the two recorded images. */
  predicate Active(d: Disk, plan: Plan, validate: Validate) {
    d.resolution == plan.expected.resolution
    && ((d.At(Target) == plan.Before() && Validated(d, plan, validate))
        || (d.At(Target) == Some(plan.prepared.identity) && Reads(d, plan.prepared.identity, AfterImage, validate)))
  }

  /** The directory was left in the Windows window, with both images as recorded. */
  predicate NeedsRestore(d: Disk, plan: Plan, validate: Validate) {
    Vacant(d, plan) && Intact(d, plan, validate)
  }

  method EnsureNamed(d: Directory, name: Name, expected: Inode, env: Env) returns (r: Result<(), Failure>)
    requires expected.File?
    modifies d`disk
    ensures env.quiet ==> d.disk == old(d.disk) && (r.Ok? <==> d.disk.Has(name, expected))
    ensures r.Err? ==> r.error.Refused?
  {
    d.Interfere(env);
    var found :- NamedFile(d.disk, name);
    return Ensure(found == Some(expected), Refused);
  }

  /** Reads a file and makes sure that it had its name all along. */
  method ValidateNamed(d: Directory, name: Name, expected: Inode, image: Image, validate: Validate, env: Env)
    returns (r: Result<(), Failure>)
    requires expected.File?
    modifies d`disk
    ensures env.quiet ==>
              d.disk == old(d.disk) && (d.disk.Has(name, expected) ==> (r.Ok? <==> Reads(d.disk, expected, image, validate)))
    ensures r.Err? ==> r.error.Refused?
  {
    d.Interfere(env);
    var config :- ReadNamed(d.disk, name);
    var _ :- Ensure(d.disk.At(name) == Some(expected), Refused);
    var _ :- EnsureNamed(d, name, expected, env);
    return Ensure(validate(image, config), Refused);
  }

  /** The checks before a restoration: both files stand under the other's name, hold their images, and still do. */
  method CheckDisplaced(d: Directory, plan: Plan, pinned: Resolution, validate: Validate, env: Env)
    returns (r: Result<(), Failure>)
    requires plan.Valid() && plan.Before().Some? && pinned == plan.expected.resolution
    modifies d`disk
    ensures env.quiet ==>
              d.disk == old(d.disk)
              && (d.disk.At(Target) == None ==> (r.Ok? <==> NeedsRestore(d.disk, plan, validate)))
    ensures r.Err? ==> r.error.Refused?
  {
    var displaced := plan.Before().value;
    var _ :- EnsureNamed(d, plan.prepared.name, displaced, env);
    var _ :- EnsureNamed(d, Lock, plan.prepared.identity, env);
    var _ :- ValidateNamed(d, plan.prepared.name, displaced, BeforeImage, validate, env);
    var _ :- ValidateNamed(d, Lock, plan.prepared.identity, AfterImage, validate, env);
    d.Interfere(env);
    var _ :- Ensure(d.disk.resolution == pinned, Refused);
    var _ :- EnsureNamed(d, plan.prepared.name, displaced, env);
    r := EnsureNamed(d, Lock, plan.prepared.identity, env);
  }

  /** What inspection and restoration have in common: nothing to do, an error, or the window to restore from. */
  method Inspect(d: Directory, plan: Plan, pinned: Resolution, validate: Validate, env: Env)
    returns (r: Result<bool, Failure>)
    requires plan.Valid()
    modifies d`disk
    ensures env.quiet ==> d.disk == old(d.disk)
    ensures env.quiet && pinned == d.disk.resolution ==>
              (r == Ok(true) <==> NeedsRestore(d.disk, plan, validate)) && (r == Ok(false) <==> Active(d.disk, plan, validate))
    ensures r == Ok(true) ==> plan.Before().Some? && pinned == plan.expected.resolution
    ensures r.Err? ==> r.error.Refused?
  {
    d.Interfere(env);
    var _ :- Ensure(d.disk.resolution == pinned, Refused);
    d.Interfere(env);
    var found :- ReadTarget(d.disk);
    var same := pinned == plan.expected.resolution;
    if same && found.1 == plan.Before() {
      var _ :- Ensure(validate(BeforeImage, found.0), Refused);
    } else if same && found.1 == Some(plan.prepared.identity) {
      var _ :- Ensure(validate(AfterImage, found.0), Refused);
    } else {
      var _ :- Ensure(same && found.1.None?, Refused);
      var _ :- CheckDisplaced(d, plan, pinned, validate, env);
      return Ok(true);
    }
    d.Interfere(env);
    var _ :- Ensure(d.disk.resolution == pinned, Refused);
    return Ok(false);
  }

  /** Whether the before-image has to be restored, without changing anything. */
  method RequiresRestore(d: Directory, plan: Plan, validate: Validate, env: Env) returns (r: Result<bool, Failure>)
    requires plan.Valid()
    modifies d`disk
    ensures env.quiet ==>
              d.disk == old(d.disk)
              && (r == Ok(true) <==> NeedsRestore(d.disk, plan, validate))
              && (r == Ok(false) <==> Active(d.disk, plan, validate))
  {
    d.Interfere(env);
    r := Inspect(d, plan, d.disk.resolution, validate, env);
  }

  /** Puts a displaced before-image back at the target; the prepared image stays locked. */
  method Restore(d: Directory, plan: Plan, validate: Validate, env: Env) returns (r: Result<bool, Failure>)
    requires plan.Valid()
    modifies d
    ensures Gentle(plan, env, d.platform, old(d.lost), d.lost, old(d.displaced), d.displaced)
    ensures env.quiet ==> Confined(old(d.disk), d.disk, plan)
    ensures env.quiet && old(d.Fresh()) ==> d.Fresh()
    ensures env.quiet && OnTrack(old(d.disk), plan, d.platform) ==> OnTrack(d.disk, plan, d.platform)
    ensures env.quiet && r == Ok(true) ==> NeedsRestore(old(d.disk), plan, validate) && Locked(d.disk, plan)
    ensures env.quiet && !NeedsRestore(old(d.disk), plan, validate) ==> d.disk == old(d.disk)
    ensures env.quiet && env.steady ==>
              (r == Ok(true) <==> NeedsRestore(old(d.disk), plan, validate))
              && (r == Ok(false) <==> Active(old(d.disk), plan, validate))
  {
    d.Interfere(env);
    var pinned := d.disk.resolution;
    var vacant :- Inspect(d, plan, pinned, validate, env);
    if !vacant {
      return Ok(false);
    }
    var displaced := plan.Before().value;
    d.Interfere(env);
    var _ :- d.RenameNoreplaceIfIdentity(plan.prepared.name, displaced, Target, env);
    d.Interfere(env);
    var _ :- Ensure(d.disk.resolution == pinned, Refused);
    d.Interfere(env);
    var restored :- ReadTarget(d.disk);
    var _ :- Ensure(restored.1 == plan.Before() && validate(BeforeImage, restored.0), Refused);
    var _ :- EnsureNamed(d, Lock, plan.prepared.identity, env);
    return Ok(true);
  }

  // ----- Before publication -----

  /** The target is the planned one, found through the planned resolution. */
  predicate AsPlanned(d: Disk, expected: TargetIdentity) {
    d.resolution == expected.resolution && d.At(Target) == expected.target
    && (expected.target.Some? ==> expected.target.value.File? && expected.target.value in d.contents)
  }

  method EnsureAsPlanned(d: Directory, expected: TargetIdentity, pinned: Resolution, env: Env)
    returns (r: Result<Config, Failure>)
    modifies d`disk
    ensures env.quiet ==>
              d.disk == old(d.disk)
              && (pinned == d.disk.resolution ==> (r.Ok? <==> AsPlanned(d.disk, expected)))
              && (r.Ok? ==> ReadTarget(d.disk) == Ok((r.value, expected.target)))
    ensures r.Err? ==> r.error.Refused?
  {
    d.Interfere(env);
    var _ :- Ensure(d.disk.resolution == pinned, Refused);
    d.Interfere(env);
    var found :- ReadTarget(d.disk);
    var _ :- Ensure(TargetIdentity(pinned, found.1) == expected, Refused);
    return Ok(found.0);
  }

  /** The target still is the file seen before, or still absent. */
  method EnsureTargetUnchanged(d: Directory, expected: TargetIdentity, pinned: Resolution, env: Env)
    returns (r: Result<(), Failure>)
    modifies d`disk
    ensures env.quiet ==> d.disk == old(d.disk) && (pinned == d.disk.resolution && AsPlanned(d.disk, expected) ==> r.Ok?)
    ensures env.quiet && r.Ok? ==> d.disk.resolution == pinned && d.disk.At(Target) == expected.target
    ensures r.Err? ==> r.error.Refused?
  {
    d.Interfere(env);
    var _ :- Ensure(d.disk.resolution == pinned, Refused);
    d.Interfere(env);
    var found :- NamedFile(d.disk, Target);
    return Ensure(found == expected.target, Refused);
  }

  /** Gives up a prepared file that was never published. */
  method Discard(d: Directory, plan: Plan, env: Env) returns (r: Result<(), Failure>)
    requires plan.Valid()
    modifies d
    ensures d.lost <= old(d.lost) + {plan.prepared.identity} && (d.platform == Posix ==> d.lost == old(d.lost))
    ensures env.coarse ==> d.displaced <= old(d.displaced) + {plan.prepared.identity}
    ensures env.quiet ==>
              SameElsewhere(old(d.disk.names), d.disk.names, {plan.prepared.name})
              && d.disk.contents == old(d.disk.contents) && d.disk.resolution == old(d.disk.resolution)
    ensures env.quiet && r.Ok? ==> d.disk.At(plan.prepared.name) == None
    ensures env.quiet && r.Err? && env.steady && old(d.Fresh()) ==> d.disk == old(d.disk)
    ensures env.quiet && env.steady && old(d.Fresh()) ==>
              (r.Ok? <==> AsPlanned(old(d.disk), plan.expected)
                          && (old(d.disk).At(plan.prepared.name) == None
                              || old(d.disk).Has(plan.prepared.name, plan.prepared.identity)))
  {
    d.Interfere(env);
    var pinned := d.disk.resolution;
    var _ :- EnsureAsPlanned(d, plan.expected, pinned, env);
    d.Interfere(env);
    var private :- NamedFile(d.disk, plan.prepared.name);
    var _ :- Ensure(private.None? || private == Some(plan.prepared.identity), Refused);
    if private.Some? {
      d.Interfere(env);
      var _ :- d.RemoveFileIfIdentity(plan.prepared.name, plan.prepared.identity, env);
    }
    var _ :- EnsureAsPlanned(d, plan.expected, pinned, env);
    return Ok(());
  }

  const ATTEMPTS: nat := 100

  /** Creates an empty private file; the system gives it an identity of its own. */
  method CreatePrivate(d: Directory, counter: nat, inode: Inode, env: Env) returns (r: Result<Prepared, Failure>)
    requires inode.File?
    modifies d`disk
    ensures r.Ok? ==> r.value.name.Private? && r.value.identity == inode
    ensures env.quiet && r.Ok? ==>
              r.value.name !in old(d.disk.names)
              && d.disk == old(d.disk).(names := old(d.disk.names)[r.value.name := inode],
                                        contents := old(d.disk.contents)[inode := ""])
    ensures env.quiet && r.Err? ==> d.disk == old(d.disk)
    ensures env.quiet && env.steady ==>
              (r.Ok? <==> exists k :: counter <= k < counter + 100 && Private(k) !in old(d.disk.names))
  {
    for k := counter to counter + ATTEMPTS
      invariant env.quiet ==> d.disk == old(d.disk) && forall j :: counter <= j < k ==> Private(j) in d.disk.names
    {
      d.Interfere(env);
      var _ :- d.Survive(env, false);
      if Private(k) !in d.disk.names {
        d.disk := d.disk.(names := d.disk.names[Private(k) := inode], contents := d.disk.contents[inode := ""]);
        return Ok(Prepared(Private(k), inode));
      }
    }
    return Err(Refused);
  }

  /** Reserves a private file while the target is as planned; if that changes the file is given up again. */
  method Reserve(d: Directory, expected: TargetIdentity, counter: nat, inode: Inode, env: Env)
    returns (r: Result<Prepared, Failure>)
    requires inode.File?
    modifies d
    ensures d.lost <= old(d.lost) + {inode} && (d.platform == Posix ==> d.lost == old(d.lost))
    ensures env.coarse ==> d.displaced <= old(d.displaced) + {inode}
    ensures env.quiet && r.Ok? ==>
              AsPlanned(old(d.disk), expected) && r.value.identity == inode && r.value.name.Private?
              && r.value.name !in old(d.disk.names)
              && d.disk == old(d.disk).(names := old(d.disk.names)[r.value.name := inode],
                                        contents := old(d.disk.contents)[inode := ""])
    ensures env.quiet && inode !in old(d.disk.names.Values) && r.Err? ==> d.disk == old(d.disk)
    ensures env.quiet && old(d.Fresh()) ==> d.Fresh()
    ensures env.quiet && env.steady && inode !in old(d.disk.names.Values) ==>
              (r.Ok? <==> AsPlanned(old(d.disk), expected)
                          && exists k :: counter <= k < counter + 100 && Private(k) !in old(d.disk.names))
  {
    d.Interfere(env);
    var pinned := d.disk.resolution;
    var _ :- EnsureAsPlanned(d, expected, pinned, env);
    r := CreatePrivate(d, counter, inode, env);
    if r.Err? {
      return;
    }
    var again := EnsureTargetUnchanged(d, expected, pinned, env);
    if again.Err? {
      d.Interfere(env);
      var _ := d.RemoveFileIfIdentity(r.value.name, inode, env);
      return Err(again.error);
    }
  }

  /** Writes the edited config into the reserved file. */
  method Prepare(d: Directory, plan: Plan, edit: Config -> Result<Config, Failure>, env: Env)
    returns (r: Result<(), Failure>)
    requires plan.Valid()
    modifies d`disk
    ensures env.quiet ==>
              d.disk == old(d.disk).(contents := d.disk.contents)
              && d.disk.contents - {plan.prepared.identity} == old(d.disk.contents) - {plan.prepared.identity}
    ensures env.quiet && r.Ok? ==>
              AsPlanned(old(d.disk), plan.expected) && old(d.disk).Has(plan.prepared.name, plan.prepared.identity)
              && edit(ReadTarget(old(d.disk)).value.0).Ok?
              && d.disk.contents ==
                 old(d.disk.contents)[plan.prepared.identity := edit(ReadTarget(old(d.disk)).value.0).value]
    ensures env.quiet && env.steady ==>
              (r.Ok? <==> AsPlanned(old(d.disk), plan.expected) && edit(ReadTarget(old(d.disk)).value.0).Ok?
                          && old(d.disk).Has(plan.prepared.name, plan.prepared.identity))
  {
    d.Interfere(env);
    var pinned := d.disk.resolution;
    var config :- EnsureAsPlanned(d, plan.expected, pinned, env);
    var text :- edit(config);
    d.Interfere(env);
    var entry :- d.EntryIdentity(plan.prepared.name);
    var _ :- Ensure(entry == plan.prepared.identity, Refused);
    var _ :- d.Survive(env, false);
    d.disk := d.disk.(contents := d.disk.contents[plan.prepared.identity := ""]);
    var _ :- d.Survive(env, false);
    d.disk := d.disk.(contents := d.disk.contents[plan.prepared.identity := text]);
    var _ :- EnsureNamed(d, plan.prepared.name, plan.prepared.identity, env);
    r := EnsureTargetUnchanged(d, plan.expected, pinned, env);
  }
}
