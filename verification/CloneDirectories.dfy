/**
The parent directory of a clone destination, with the calls a clone attempt makes on it. Another process may act
between calls; a ghost set records every directory the calls delete.
*/
module CloneDirectories {
  import opened Common

  type Id = nat

  datatype Name = Requested | Private(n: nat) | Other(text: string)

  /** Names inside a directory, by their rank in byte order. */
  type EntryName = nat

  type Entries = map<EntryName, Id>

  /** The parent's entries, and the contents of every directory; ids without contents are no directories. */
  datatype Disk = Disk(parent: map<Name, Id>, dirs: map<Id, Entries>) {
    predicate Has(name: Name, id: Id) { name in parent && parent[name] == id }

    predicate Empty(id: Id) { id in dirs && dirs[id] == map[] }

    /** A directory with exactly this name. */
    ghost predicate Named(name: Name, id: Id) {
      id in dirs && Has(name, id) && forall n :: n in parent && parent[n] == id ==> n == name
    }
  }

  datatype Failure = Refused

  const MAX_PRIVATE_NAMES: nat := 4096

  function Renamed(parent: map<Name, Id>, from: Name, to: Name): map<Name, Id>
    requires from in parent
  {
    (parent - {from})[to := parent[from]]
  }

  function Without(disk: Disk, id: Id): Disk {
    Disk(map n | n in disk.parent && disk.parent[n] != id :: disk.parent[n], disk.dirs - {id})
  }

  lemma WithoutNamed(disk: Disk, name: Name, id: Id)
    requires disk.Named(name, id)
    ensures Without(disk, id) == Disk(disk.parent - {name}, disk.dirs - {id})
  {
  }

  class Parent {
    var disk: Disk
    /** The process's counter for private names. */
    var sequence: nat
    /** Directories this process deleted. */
    ghost var deleted: set<Id>

    /** No private name from the counter on is in use. */
    ghost predicate Fresh()
      reads this
    {
      forall k :: sequence <= k ==> Private(k) !in disk.parent
    }

    method Interfere(quiet: bool)
      modifies this`disk
      ensures quiet ==> disk == old(disk)
    {
      if !quiet {
        disk := *;
      }
    }

    /** A handle of the directory with a name, following no link. */
    function OpenDir(name: Name): (r: Result<Id, Failure>)
      reads this`disk
      ensures forall id: Id :: r == Ok(id) <==> disk.Has(name, id) && id in disk.dirs
    {
      if name in disk.parent && disk.parent[name] in disk.dirs then Ok(disk.parent[name]) else Err(Refused)
    }

    /** Makes an empty directory; the system gives it an identity of its own. */
    method CreateDir(name: Name, id: Id) returns (r: Result<(), Failure>)
      modifies this`disk
      ensures r.Ok? <==> name !in old(disk.parent)
      ensures r.Ok? ==> disk == Disk(old(disk.parent)[name := id], old(disk.dirs)[id := map[]])
      ensures r.Err? ==> disk == old(disk)
    {
      var _ :- Ensure(name !in disk.parent, Refused);
      disk := Disk(disk.parent[name := id], disk.dirs[id := map[]]);
      return Ok(());
    }

    /** Renames an entry unless the new name is taken. */
    method RenameNoreplace(from: Name, to: Name) returns (r: Result<(), Failure>)
      modifies this`disk
      ensures r.Ok? <==> from in old(disk.parent) && to !in old(disk.parent)
      ensures r.Ok? ==> disk == Disk(Renamed(old(disk.parent), from, to), old(disk.dirs))
      ensures r.Err? ==> disk == old(disk)
    {
      var _ :- Ensure(from in disk.parent && to !in disk.parent, Refused);
      disk := Disk(Renamed(disk.parent, from, to), disk.dirs);
      return Ok(());
    }

    /** Moves an entry between two directories unless the new one has the name. */
    method MoveEntry(from: Id, to: Id, name: EntryName) returns (r: Result<(), Failure>)
      modifies this`disk
      ensures r.Ok? <==> from in old(disk.dirs) && to in old(disk.dirs)
                         && name in old(disk.dirs)[from] && name !in old(disk.dirs)[to]
      ensures r.Ok? ==>
                disk == old(disk).(dirs := old(disk.dirs)[from := old(disk.dirs)[from] - {name}]
                                                         [to := old(disk.dirs)[to][name := old(disk.dirs)[from][name]]])
      ensures r.Err? ==> disk == old(disk)
    {
      var _ :- Ensure(from in disk.dirs && to in disk.dirs && name in disk.dirs[from] && name !in disk.dirs[to], Refused);
      var id := disk.dirs[from][name];
      disk := disk.(dirs := disk.dirs[from := disk.dirs[from] - {name}][to := disk.dirs[to][name := id]]);
      return Ok(());
    }

    /** Deletes the directory of a handle, with all it holds or only when it is empty. */
    method RemoveOpenDir(id: Id, recursive: bool) returns (r: Result<(), Failure>)
      modifies this`disk, this`deleted
      ensures deleted <= old(deleted) + {id}
      ensures r.Ok? <==> id in old(disk.dirs) && (recursive || old(disk.dirs)[id] == map[])
      ensures r.Ok? ==> disk == Without(old(disk), id)
      ensures r.Err? ==> disk == old(disk) && deleted == old(deleted)
    {
      var _ :- Ensure(id in disk.dirs && (recursive || disk.dirs[id] == map[]), Refused);
      disk := Without(disk, id);
      deleted := deleted + {id};
      return Ok(());
    }

    /** Deletes whatever empty directory has a name. */
    method RemoveDir(name: Name)
      modifies this`disk, this`deleted
      ensures old(OpenDir(name)).Err? ==> disk == old(disk) && deleted == old(deleted)
    {
      var found := OpenDir(name);
      if found.Ok? {
        var _ := RemoveOpenDir(found.value, false);
      }
    }

    /** Deletes the empty directory with a name if it has the expected identity. */
    method RemoveDirIfIdentity(name: Name, expected: Id, quiet: bool) returns (r: Result<(), Failure>)
      modifies this`disk, this`deleted
      ensures deleted <= old(deleted) + {expected}
      ensures quiet && !(old(disk).Has(name, expected) && old(disk).Empty(expected)) ==> disk == old(disk)
    {
      var found :- OpenDir(name);
      var _ :- Ensure(found == expected, Refused);
      Interfere(quiet);
      r := RemoveOpenDir(found, false);
    }

    /** A private name no entry has. */
    method PrivateAbsentName(quiet: bool) returns (r: Result<Name, Failure>)
      modifies this`disk, this`sequence
      ensures r.Ok? ==> r.value.Private?
      ensures old(sequence) <= sequence
      ensures quiet ==> disk == old(disk) && (r.Ok? ==> r.value !in disk.parent)
      ensures quiet && old(Fresh()) ==> r == Ok(Private(old(sequence))) && sequence == old(sequence) + 1
    {
      for i := 0 to MAX_PRIVATE_NAMES
        invariant quiet ==> disk == old(disk)
        invariant old(sequence) <= sequence
        invariant quiet && old(Fresh()) ==> i == 0 && sequence == old(sequence) && Private(sequence) !in disk.parent
      {
        Interfere(quiet);
        var name := Private(sequence);
        sequence := sequence + 1;
        if name !in disk.parent {
          return Ok(name);
        }
      }
      return Err(Refused);
    }

    /** Makes an empty directory with a private name. */
    method CreatePrivateDirectory(id: Id, quiet: bool) returns (r: Result<Name, Failure>)
      modifies this`disk, this`sequence
      ensures r.Ok? ==> r.value.Private?
      ensures old(sequence) <= sequence
      ensures quiet && r.Ok? ==> r.value !in old(disk.parent)
                                 && disk == Disk(old(disk.parent)[r.value := id], old(disk.dirs)[id := map[]])
      ensures quiet && r.Err? ==> disk == old(disk)
      ensures quiet && old(Fresh()) ==> r.Ok? && Fresh()
    {
      for i := 0 to MAX_PRIVATE_NAMES
        invariant quiet ==> disk == old(disk)
        invariant old(sequence) <= sequence
        invariant quiet && old(Fresh()) ==> i == 0 && sequence == old(sequence) && Private(sequence) !in disk.parent
      {
        Interfere(quiet);
        var name := Private(sequence);
        sequence := sequence + 1;
        var created := CreateDir(name, id);
        if created.Ok? {
          return Ok(name);
        }
      }
      return Err(Refused);
    }
  }
}
