/**
One directory and the primitives that change it only while its entries are the expected files. Another process may
act and the running one may be cut off between any two system calls; ghost sets record what the calls did.
*/
module Namespace {
  import opened Common

  /** What an entry is: its identity, and whether it is a regular file. */
  datatype Inode = File(id: nat) | Irregular(id: nat)

  /** The names a publication uses, the private names entries are retired to, and all others. */
  datatype Name = Target | Lock | Private(n: nat) | Retired(k: nat) | Other(text: string)

  type Names = map<Name, Inode>

  type Config = string

  /** How the target's directory was reached: its identity and the symbolic links followed. */
  type Resolution = seq<nat>

  datatype Disk = Disk(names: Names, contents: map<Inode, Config>, resolution: Resolution) {
    predicate Has(name: Name, inode: Inode) { name in names && names[name] == inode }

    function At(name: Name): Option<Inode> { if name in names then Some(names[name]) else None }
  }

  datatype Failure = Refused | Interrupted

  datatype Platform = Posix | Windows

  /**
  What may happen around the calls: other processes stay away (quiet), the process is not cut off (steady), and
  a primitive is a single conditional step (coarse) rather than a sequence of system calls.
  */
  datatype Env = Env(quiet: bool, steady: bool, coarse: bool)

  function Moved(names: Names, from: Name, to: Name): Names
    requires from in names
  {
    (names - {from})[to := names[from]]
  }

  function Exchanged(names: Names, a: Name, b: Name): Names
    requires a in names && b in names
  {
    names[a := names[b]][b := names[a]]
  }

  /** The inodes that lose an entry between two states of the directory. */
  function Displaced(before: Names, after: Names): set<Inode> {
    set n | n in before && (n !in after || after[n] != before[n]) :: before[n]
  }

  lemma MovedKeepsAll(names: Names, from: Name, to: Name)
    requires from in names && to !in names
    ensures Moved(names, from, to).Values == names.Values
    ensures Displaced(names, Moved(names, from, to)) == {names[from]}
    ensures to in Moved(names, from, to) && Moved(names, from, to)[to] == names[from]
  {
    var after := Moved(names, from, to);
    assert after[to] == names[from];
    forall i | i in names.Values ensures i in after.Values {
      var n :| n in names && names[n] == i;
      assert if n == from then after[to] == i else after[n] == i;
    }
  }

  lemma ExchangedKeepsAll(names: Names, a: Name, b: Name)
    requires a in names && b in names
    ensures Exchanged(names, a, b).Values == names.Values
    ensures Displaced(names, Exchanged(names, a, b)) <= {names[a], names[b]}
  {
    var after := Exchanged(names, a, b);
    forall i | i in names.Values ensures i in after.Values {
      var n :| n in names && names[n] == i;
      assert if n == a then after[b] == i else if n == b then after[a] == i else after[n] == i;
    }
  }

  /** Only these names and retired ones differ. */
  ghost predicate SameElsewhere(before: Names, after: Names, changed: set<Name>) {
    forall n :: n !in changed && !n.Retired? ==> (n in before <==> n in after) && (n in before ==> after[n] == before[n])
  }

  lemma SameAsBefore(names: Names, changed: set<Name>)
    ensures SameElsewhere(names, names, changed)
  {
  }

  /** An entry moved to a retired name: nothing else differs, and it can be moved back. */
  lemma MovedAside(names: Names, name: Name, quarantine: Name)
    requires name in names && quarantine !in names && quarantine.Retired?
    ensures var moved := Moved(names, name, quarantine);
            SameElsewhere(names, moved, {name}) && name !in moved && moved.Keys == names.Keys - {name} + {quarantine}
            && Moved(moved, quarantine, name) == names
    ensures SameElsewhere(names, names, {name}) && Displaced(names, names) == {}
  {
  }

  class Directory {
    const platform: Platform
    var disk: Disk
    /** The process's counter for private names. */
    var sequence: nat
    /** Inodes some system call of this process left without any name. */
    ghost var lost: set<Inode>
    /** Inodes some primitive of this process, taken as one step, took an entry from. */
    ghost var displaced: set<Inode>

    /** No retired name from the counter on is in use. */
    ghost predicate Fresh()
      reads this
    {
      forall k :: sequence <= k ==> Retired(k) !in disk.names
    }

    // ----- Other processes -----

    method Interfere(env: Env)
      modifies this`disk
      ensures env.quiet ==> disk == old(disk)
    {
      if !env.quiet {
        disk := *;
      }
    }

    /** Interference inside a primitive. */
    method InterfereInside(env: Env)
      modifies this`disk
      ensures env.quiet || env.coarse ==> disk == old(disk)
    {
      if !env.coarse {
        Interfere(env);
      }
    }

    // ----- System calls -----

    /** The process may be cut off before any call; inside a primitive only if it is not a single step. */
    method Survive(env: Env, inside: bool) returns (r: Result<(), Failure>)
      ensures env.steady || (inside && env.coarse) ==> r.Ok?
      ensures r.Err? ==> r.error == Interrupted
    {
      var cut: bool := *;
      if cut && !env.steady && !(inside && env.coarse) {
        return Err(Interrupted);
      }
      return Ok(());
    }

    /** Renames an entry unless the new name is taken. */
    method Rename(from: Name, to: Name, env: Env, inside: bool) returns (r: Result<(), Failure>)
      modifies this`disk, this`lost
      ensures r.Ok? ==> from in old(disk.names) && to !in old(disk.names)
                        && disk == old(disk).(names := Moved(old(disk.names), from, to))
      ensures r.Err? ==> disk == old(disk)
      ensures lost == old(lost)
      ensures r.Err? && r.error.Refused? ==> !(from in old(disk.names) && to !in old(disk.names))
      ensures r.Err? && r.error.Interrupted? ==> !env.steady && !(inside && env.coarse)
    {
      var _ :- Survive(env, inside);
      if from !in disk.names || to in disk.names {
        return Err(Refused);
      }
      ghost var before := disk.names;
      MovedKeepsAll(before, from, to);
      disk := disk.(names := Moved(disk.names, from, to));
      lost := lost + (before.Values - disk.names.Values);
      return Ok(());
    }

    /** Exchanges two entries. */
    method Exchange(a: Name, b: Name, env: Env) returns (r: Result<(), Failure>)
      modifies this`disk, this`lost
      ensures r.Ok? ==> a in old(disk.names) && b in old(disk.names)
                        && disk == old(disk).(names := Exchanged(old(disk.names), a, b))
      ensures r.Err? ==> disk == old(disk)
      ensures lost == old(lost)
      ensures r.Err? && r.error.Refused? ==> !(a in old(disk.names) && b in old(disk.names))
      ensures r.Err? && r.error.Interrupted? ==> !env.steady
    {
      var _ :- Survive(env, false);
      if a !in disk.names || b !in disk.names {
        return Err(Refused);
      }
      ghost var before := disk.names;
      ExchangedKeepsAll(before, a, b);
      disk := disk.(names := Exchanged(disk.names, a, b));
      lost := lost + (before.Values - disk.names.Values);
      return Ok(());
    }

    // ----- Primitives -----

    /** The identity of an entry, of whatever kind; it is an error if there is none. */
    function EntryIdentity(name: Name): (r: Result<Inode, Failure>)
      reads this`disk
      ensures forall i :: r == Ok(i) <==> disk.Has(name, i)
    {
      if name in disk.names then Ok(disk.names[name]) else Err(Refused)
    }

    /**
    Renames an entry unless the new name is taken, if it has the expected identity. POSIX checks, renames, checks
    again and renames back on a mismatch; Windows renames through a handle of the checked file.
    */
    method RenameNoreplaceIfIdentity(from: Name, expected: Inode, to: Name, env: Env)
      returns (r: Result<(), Failure>)
      requires from != to
      modifies this`disk, this`lost, this`displaced
      ensures lost == old(lost)
      ensures r.Ok? ==> disk.Has(to, expected)
      ensures env.coarse ==> displaced <= old(displaced) + {expected}
      ensures env.quiet && r.Ok? ==>
                old(disk).Has(from, expected) && to !in old(disk.names)
                && disk == old(disk).(names := Moved(old(disk.names), from, to))
      ensures env.quiet && r.Err? ==> disk == old(disk)
      ensures env.quiet && env.steady ==> (r.Ok? <==> old(disk).Has(from, expected) && to !in old(disk.names))
    {
      hide Moved;
      var source :- EntryIdentity(from);
      if source != expected {
        return Err(Refused);
      }
      if platform == Posix {
        InterfereInside(env);
      }
      var _ :- RenameOnce(from, to, env);
      if platform == Windows {
        return Ok(());
      }
      InterfereInside(env);
      var found :- EntryIdentity(to);
      if found == expected {
        return Ok(());
      }
      InterfereInside(env);
      var _ := Rename(to, from, env, true);
      return Err(Refused);
    }

    /** The rename of a primitive, with the entry it takes recorded. */
    method RenameOnce(from: Name, to: Name, env: Env) returns (r: Result<(), Failure>)
      modifies this`disk, this`lost, this`displaced
      ensures lost == old(lost)
      ensures r.Ok? ==> from in old(disk.names) && to !in old(disk.names)
                        && disk == old(disk).(names := Moved(old(disk.names), from, to))
                        && disk.Has(to, old(disk.names)[from]) && displaced == old(displaced) + {old(disk.names)[from]}
      ensures r.Err? ==> disk == old(disk) && displaced == old(displaced)
      ensures r.Err? && env.steady ==> !(from in old(disk.names) && to !in old(disk.names))
    {
      ghost var before := disk.names;
      var _ :- Rename(from, to, env, false);
      MovedKeepsAll(before, from, to);
      displaced := displaced + Displaced(before, disk.names);
      return Ok(());
    }

    /** A private name no entry has. */
    method PrivateAbsentName() returns (r: Result<Name, Failure>)
      modifies this`sequence
      ensures r.Ok? ==> r.value.Retired? && r.value !in disk.names
      ensures r.Ok? <==> exists k :: old(sequence) <= k < old(sequence) + 4096 && Retired(k) !in disk.names
      ensures old(Fresh()) ==> r == Ok(Retired(old(sequence))) && sequence == old(sequence) + 1
    {
      for i := 0 to 4096
        invariant sequence == old(sequence) + i
        invariant forall k :: old(sequence) <= k < sequence ==> Retired(k) in disk.names
        invariant old(Fresh()) ==> i == 0 && sequence == old(sequence) && Retired(sequence) !in disk.names
      {
        var name := Retired(sequence);
        sequence := sequence + 1;
        if name !in disk.names {
          return Ok(name);
        }
      }
      return Err(Refused);
    }

    /** POSIX removal: moves the entry to a private name and keeps it there, or moves it back on a mismatch. */
    method Retire(name: Name, expected: Inode, env: Env) returns (r: Result<(), Failure>)
      requires !name.Retired?
      modifies this`disk, this`sequence, this`lost, this`displaced
      ensures lost == old(lost)
      ensures r.Ok? ==> exists k: nat :: disk.Has(Retired(k), expected)
      ensures env.coarse ==> displaced <= old(displaced) + {expected}
      ensures env.quiet ==>
                SameElsewhere(old(disk.names), disk.names, {name}) && disk.contents == old(disk.contents)
                && disk.resolution == old(disk.resolution)
      ensures env.quiet && r.Ok? ==> old(disk).Has(name, expected) && name !in disk.names
      ensures env.quiet && old(disk).Has(name, expected) && r.Err? ==> disk == old(disk)
      ensures env.quiet && old(Fresh()) ==> Fresh()
      ensures env.quiet && env.steady && old(disk).Has(name, expected) && old(Fresh()) ==> r.Ok?
    {
      hide Moved, Displaced, SameElsewhere;
      SameAsBefore(disk.names, {name});
      var quarantine :- PrivateAbsentName();
      InterfereInside(env);
      ghost var start := disk.names;
      var _ :- Rename(name, quarantine, env, false);
      MovedKeepsAll(start, name, quarantine);
      MovedAside(start, name, quarantine);
      InterfereInside(env);
      var found :- EntryIdentity(quarantine);
      if found == expected {
        displaced := displaced + Displaced(start, disk.names);
        return Ok(());
      }
      InterfereInside(env);
      var _ := Rename(quarantine, name, env, true);
      displaced := displaced + Displaced(start, disk.names);
      return Err(Refused);
    }

    /**
    Takes an entry's name from it if it has the expected identity; Windows deletes it through a handle of the
    checked file.
    */
    method RemoveFileIfIdentity(name: Name, expected: Inode, env: Env) returns (r: Result<(), Failure>)
      requires !name.Retired?
      modifies this`disk, this`sequence, this`lost, this`displaced
      ensures lost <= old(lost) + {expected} && (platform == Posix ==> lost == old(lost))
      ensures env.coarse ==> displaced <= old(displaced) + {expected}
      ensures env.quiet ==>
                SameElsewhere(old(disk.names), disk.names, {name}) && disk.contents == old(disk.contents)
                && disk.resolution == old(disk.resolution)
      ensures env.quiet && r.Ok? ==> old(disk).Has(name, expected) && name !in disk.names
      ensures env.quiet && old(disk).Has(name, expected) && r.Err? ==> disk == old(disk)
      ensures env.quiet && old(Fresh()) ==> Fresh()
      ensures env.quiet && env.steady && old(disk).Has(name, expected) && old(Fresh()) ==> r.Ok?
    {
      if platform == Posix {
        r := Retire(name, expected, env);
        return;
      }
      var target :- EntryIdentity(name);
      var _ :- Ensure(target == expected, Refused);
      var _ :- Survive(env, false);
      lost := lost + (disk.names.Values - (disk.names - {name}).Values);
      displaced := displaced + Displaced(disk.names, disk.names - {name});
      disk := disk.(names := disk.names - {name});
      return Ok(());
    }

    /**
    Exchanges the prepared file into the target's place while both have the expected identities, then takes the
    displaced file's name; a mismatch found afterwards is exchanged back if nothing else changed.
    */
    method ReplaceIfIdentities(prepared: Name, expectedPrepared: Inode, target: Name, expectedTarget: Inode, env: Env)
      returns (r: Result<(), Failure>)
      requires platform == Posix && prepared != target && !prepared.Retired? && !target.Retired?
      requires expectedPrepared != expectedTarget
      modifies this`disk, this`sequence, this`lost, this`displaced
      ensures lost == old(lost)
      ensures env.coarse ==> displaced <= old(displaced) + {expectedPrepared, expectedTarget}
      ensures env.quiet && r.Ok? ==>
                old(disk).Has(prepared, expectedPrepared) && old(disk).Has(target, expectedTarget)
                && prepared !in disk.names && disk.Has(target, expectedPrepared)
                && SameElsewhere(old(disk.names), disk.names, {prepared, target}) && disk.contents == old(disk.contents)
                && disk.resolution == old(disk.resolution)
      ensures env.quiet && r.Err? ==>
                disk == old(disk)
                || ((!env.steady || !old(Fresh())) && old(disk).Has(prepared, expectedPrepared) && old(disk).Has(target, expectedTarget)
                    && disk == old(disk).(names := Exchanged(old(disk.names), prepared, target)))
      ensures env.quiet && old(Fresh()) ==> Fresh()
      ensures (env.quiet && env.steady && old(Fresh()) && old(disk).Has(prepared, expectedPrepared)
               && old(disk).Has(target, expectedTarget)) ==> r.Ok?
    {
      if EntryIdentity(prepared) != Ok(expectedPrepared) || EntryIdentity(target) != Ok(expectedTarget) {
        return Err(Refused);
      }
      InterfereInside(env);
      ghost var start := disk.names;
      var _ :- Exchange(prepared, target, env);
      ExchangedKeepsAll(start, prepared, target);
      displaced := displaced + Displaced(start, disk.names);
      InterfereInside(env);
      var published :- EntryIdentity(target);
      var retired :- EntryIdentity(prepared);
      if published != expectedPrepared || retired != expectedTarget {
        InterfereInside(env);
        if EntryIdentity(target) == Ok(published) && EntryIdentity(prepared) == Ok(retired) {
          InterfereInside(env);
          var _ :- Exchange(prepared, target, env);
        }
        return Err(Refused);
      }
      InterfereInside(env);
      r := RemoveFileIfIdentity(prepared, expectedTarget, env);
    }
  }
}
