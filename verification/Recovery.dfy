/**
Publication over whole runs: any sequence of attempts, each cut off anywhere, leaves the directory in a state a
last undisturbed attempt completes from, and no file of anyone is lost on the way.
*/
module Recovery {
  import opened Common
  import opened Namespace
  import opened Publication

  // ----- What every reachable state promises -----

  /** Until the prepared file is installed, the before-image keeps one of the three names. */
  lemma BeforeImageIsKept(d: Disk, plan: Plan, platform: Platform)
    requires plan.Valid() && OnTrack(d, plan, platform) && plan.Before().Some?
    ensures d.Has(Target, plan.prepared.identity)
            || exists n :: n in {Target, Lock, plan.prepared.name} && d.Has(n, plan.Before().value)
  {
    if Reserved(d, plan) || Locked(d, plan) {
      assert d.Has(Target, plan.Before().value);
    } else if Vacant(d, plan) {
      assert d.Has(plan.prepared.name, plan.Before().value);
    }
  }

  /**
  Whoever reads the target reads one of the two images, or finds no file: only where there was none before, or in
  the Windows window.
  */
  lemma TargetIsAnImage(d: Disk, plan: Plan, platform: Platform, validate: Validate)
    requires plan.Valid() && OnTrack(d, plan, platform) && Intact(d, plan, validate)
    ensures ReadTarget(d).Ok?
    ensures d.At(Target) == None <==> Vacant(d, plan) || (plan.Before() == None && (Reserved(d, plan) || Locked(d, plan)))
    ensures d.At(Target).Some? ==>
              validate(if d.At(Target) == plan.Before() then BeforeImage else AfterImage, ReadTarget(d).value.0)
    ensures platform == Posix && plan.Before().Some? ==> d.At(Target).Some?
  {
  }

  /** Every state an attempt may be cut off in is one a publication completes from. */
  lemma OnTrackCompletes(d: Disk, plan: Plan, platform: Platform, validate: Validate)
    requires plan.Valid() && OnTrack(d, plan, platform) && Intact(d, plan, validate)
    ensures Completes(d, plan, validate, true)
    ensures d.At(Target) != Some(plan.prepared.identity) ==> !Completes(d, plan, validate, false)
  {
  }

  /** Inspection, restoration and publication agree on every such state: restore from the window, then publish. */
  lemma OnTrackIsActiveOrVacant(d: Disk, plan: Plan, platform: Platform, validate: Validate)
    requires plan.Valid() && OnTrack(d, plan, platform) && Intact(d, plan, validate)
    ensures Active(d, plan, validate) <==> !NeedsRestore(d, plan, validate)
  {
  }

  // ----- Runs -----

  datatype Attempt = TryPublish(boundary: bool) | TryRestore | TryInspect

  /** One attempt in a quiet directory, cut off anywhere. */
  method Try(d: Directory, plan: Plan, attempt: Attempt, validate: Validate, coarse: bool)
    requires plan.Valid() && OnTrack(d.disk, plan, d.platform) && Intact(d.disk, plan, validate) && d.Fresh()
    modifies d
    ensures OnTrack(d.disk, plan, d.platform) && Intact(d.disk, plan, validate) && d.Fresh()
    ensures Confined(old(d.disk), d.disk, plan)
    ensures d.platform == Posix ==> d.lost == old(d.lost)
    ensures d.lost <= old(d.lost) + plan.BeforeSet()
  {
    var env := Env(true, false, coarse);
    match attempt
    case TryPublish(boundary) => var _ := Publish(d, plan, boundary, validate, env);
    case TryRestore => var _ := Restore(d, plan, validate, env);
    case TryInspect => var _ := RequiresRestore(d, plan, validate, env);
  }

  /**
  After any attempts, each cut off anywhere, one uninterrupted publication succeeds: the prepared file is the
  target, the lock and private names are free, and nothing else has changed.
  */
  method RecoverAndPublish(d: Directory, plan: Plan, attempts: seq<Attempt>, validate: Validate, coarse: bool)
    returns (r: Result<Outcome, Failure>)
    requires plan.Valid() && OnTrack(d.disk, plan, d.platform) && Intact(d.disk, plan, validate) && d.Fresh()
    modifies d
    ensures r.Ok? && Finished(d.disk, plan) && Intact(d.disk, plan, validate)
    ensures Confined(old(d.disk), d.disk, plan)
    ensures d.platform == Posix ==> d.lost == old(d.lost)
  {
    for i := 0 to |attempts|
      invariant OnTrack(d.disk, plan, d.platform) && Intact(d.disk, plan, validate) && d.Fresh()
      invariant Confined(old(d.disk), d.disk, plan)
      invariant d.platform == Posix ==> d.lost == old(d.lost)
    {
      Try(d, plan, attempts[i], validate, coarse);
    }
    OnTrackCompletes(d.disk, plan, d.platform, validate);
    r := Publish(d, plan, true, validate, Env(true, true, coarse));
  }

  /** An attempt among others: what is tried, and what may happen around it. */
  datatype Disturbed = Disturbed(attempt: Attempt, env: Env)

  /**
  Whatever other processes do between and during any attempts, however these are cut off and from whatever state
  they start: the only inode that may lose its last name is the before-image, on Windows; and as long as
  primitives are single steps, no entry of a foreign inode is ever taken or overwritten.
  */
  method RunDisturbed(d: Directory, plan: Plan, run: seq<Disturbed>, validate: Validate)
    requires plan.Valid()
    modifies d
    ensures d.lost <= old(d.lost) + plan.BeforeSet() && (d.platform == Posix ==> d.lost == old(d.lost))
    ensures (forall t <- run :: t.env.coarse) ==> d.displaced <= old(d.displaced) + plan.Own()
  {
    for i := 0 to |run|
      invariant d.lost <= old(d.lost) + plan.BeforeSet() && (d.platform == Posix ==> d.lost == old(d.lost))
      invariant (forall t <- run :: t.env.coarse) ==> d.displaced <= old(d.displaced) + plan.Own()
    {
      d.Interfere(run[i].env);
      match run[i].attempt
      case TryPublish(boundary) => var _ := Publish(d, plan, boundary, validate, run[i].env);
      case TryRestore => var _ := Restore(d, plan, validate, run[i].env);
      case TryInspect => var _ := RequiresRestore(d, plan, validate, run[i].env);
    }
  }

  /** Restoring from the window yields the before-image, a second restoration does nothing, and publication completes. */
  method RestoreTwiceThenPublish(d: Directory, plan: Plan, validate: Validate)
    requires plan.Valid() && NeedsRestore(d.disk, plan, validate) && d.Fresh()
    modifies d
    ensures Finished(d.disk, plan)
  {
    var env := Env(true, true, true);
    var first := Restore(d, plan, validate, env);
    assert first == Ok(true) && Locked(d.disk, plan) && d.disk.At(Target) == plan.Before();
    ghost var restored := d.disk;
    assert Active(d.disk, plan, validate);
    var second := Restore(d, plan, validate, env);
    assert second == Ok(false) && d.disk == restored;
    OnTrackCompletes(d.disk, plan, d.platform, validate);
    var r := Publish(d, plan, true, validate, env);
    assert r == Ok(Published);
  }

  /**
  From planning to publication: reserving, preparing, any interrupted attempts and one uninterrupted publication
  replace the target's text by the edited text.
  */
  method EditConfig(d: Directory, counter: nat, inode: Inode, edit: Config -> Result<Config, Failure>,
                    attempts: seq<Attempt>, coarse: bool)
    returns (r: Result<Outcome, Failure>)
    requires inode.File? && inode !in d.disk.names.Values && inode !in d.disk.contents && d.Fresh()
    requires Lock !in d.disk.names
    modifies d
    ensures var before := ReadTarget(old(d.disk));
            (r.Ok? <==> before.Ok? && edit(before.value.0).Ok?
                        && exists k :: counter <= k < counter + 100 && Private(k) !in old(d.disk.names))
            && (r.Ok? ==> ReadTarget(d.disk) == Ok((edit(before.value.0).value, Some(inode)))
                          && SameElsewhere(old(d.disk.names), d.disk.names, {Target}))
  {
    var env := Env(true, true, coarse);
    var found := ReadTarget(d.disk);
    if found.Err? {
      return Err(Refused);
    }
    var expected := TargetIdentity(d.disk.resolution, found.value.1);
    var prepared :- Reserve(d, expected, counter, inode, env);
    var plan := Plan(expected, prepared);
    assert plan.Valid();
    var _ :- Prepare(d, plan, edit, env);
    var after := edit(found.value.0).value;
    var validate := (image: Image, config: Config) => config == if image == BeforeImage then found.value.0 else after;
    assert Reserved(d.disk, plan);
    r := RecoverAndPublish(d, plan, attempts, validate, coarse);
  }
}
