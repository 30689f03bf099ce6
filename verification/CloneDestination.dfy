/**
A clone attempt: an empty reservation at the requested name, a private staging directory beside it, publication of
the staged clone, and cleanup after a failure at any point.
*/
module CloneDestination {
  import opened Common
  import opened CloneDirectories

  /** A directory moved aside: its private name and a handle of it. */
  datatype Backup = Backup(name: Name, handle: Id)

  /** How an identity check inside a publication goes: as the disk says, or wrong, or with an error. */
  datatype Check = Honest | Mismatch | Broken

  /** An entry moved into the destination. */
  datatype Moved = Moved(name: EntryName, identity: Id)

  predicate Holds(entries: Entries, moved: seq<Moved>) {
    entries.Keys == (set e | e in moved :: e.name) && forall e <- moved :: e.name in entries && entries[e.name] == e.identity
  }

  // ----- The order of names -----

  predicate Ascending(names: seq<EntryName>) { forall i, j :: 0 <= i < j < |names| ==> names[i] < names[j] }

  lemma {:induction false} LeastExists(names: set<EntryName>) returns (least: EntryName)
    requires names != {}
    ensures least in names && forall m :: m in names ==> least <= m
    decreases |names|
  {
    var some :| some in names;
    least := some;
    if names - {some} != {} {
      var other := LeastExists(names - {some});
      least := if some < other then some else other;
    }
    assert forall m :: m in names ==> m == some || m in names - {some};
  }

  /** The names of a directory's entries, sorted. */
  method SortedNames(entries: Entries) returns (names: seq<EntryName>)
    ensures Ascending(names) && forall n :: n in names <==> n in entries
  {
    names := [];
    var rest := entries.Keys;
    while rest != {}
      invariant Ascending(names) && forall n :: n in entries <==> n in names || n in rest
      invariant forall i, n :: 0 <= i < |names| && n in rest ==> names[i] < n
      decreases |rest|
    {
      ghost var least := LeastExists(rest);
      var n :| n in rest && forall m :: m in rest ==> n <= m;
      names := names + [n];
      rest := rest - {n};
    }
  }

  /** The entries that come before a name. */
  function Below(entries: Entries, bound: EntryName): Entries {
    map n | n in entries && n < bound :: entries[n]
  }

  /** The least name after the first ones of a sorted list. */
  function Bound(names: seq<EntryName>, i: nat): EntryName
    requires i <= |names|
  {
    if i == 0 then 0 else names[i - 1] + 1
  }

  /** The entries with the first names have moved from one directory to the other, and nothing else has changed. */
  ghost predicate PrefixMoved(before: Disk, after: Disk, from: Id, to: Id, bound: EntryName) {
    from in before.dirs && to in before.dirs
    && var s, d := before.dirs[from], before.dirs[to];
       var first := Below(s, bound);
       first.Keys !! d.Keys && after.parent == before.parent
       && after.dirs == before.dirs[from := s - first.Keys][to := d + first]
  }

  /** All entries have moved. */
  function Merged(disk: Disk, from: Id, to: Id): Disk
    requires from in disk.dirs && to in disk.dirs
  {
    disk.(dirs := disk.dirs[from := map[]][to := disk.dirs[to] + disk.dirs[from]])
  }

  /** While entries move, each is in exactly one of the two directories, and the destination's own entries stay. */
  lemma EntriesAreInOnePlace(before: Disk, after: Disk, from: Id, to: Id, bound: EntryName)
    requires from != to && PrefixMoved(before, after, from, to, bound)
    ensures from in after.dirs && to in after.dirs
    ensures forall n <- before.dirs[from] ::
              if n < bound then
                n !in after.dirs[from] && n in after.dirs[to] && after.dirs[to][n] == before.dirs[from][n]
              else
                n in after.dirs[from] && after.dirs[from][n] == before.dirs[from][n]
                && (n in after.dirs[to] ==> n in before.dirs[to])
    ensures forall n <- before.dirs[to] :: n in after.dirs[to] && after.dirs[to][n] == before.dirs[to][n]
    ensures forall n <- after.dirs[to] :: n in before.dirs[to] || (n in before.dirs[from] && n < bound)
  {
  }

  /**
  The move stops at the first entry that is in the destination already or is not accepted: that entry has moved in
  the second case only, and all before it have.
  */
  ghost predicate StopsAt(s: Entries, d: Entries, accept: EntryName -> bool, bound: EntryName) {
    exists n :: n in s && (n in d || !accept(n)) && (forall m :: m in s && m < n ==> m !in d && accept(m))
                && bound == if n in d then n else n + 1
  }

  /** The prefix left by a move that stopped. */
  ghost predicate StoppedMove(before: Disk, after: Disk, from: Id, to: Id, accept: EntryName -> bool, bound: EntryName) {
    PrefixMoved(before, after, from, to, bound) && StopsAt(before.dirs[from], before.dirs[to], accept, bound)
  }

  /** Entries with the same names before them: a bound just behind one entry and the next entry's own name. */
  lemma SamePrefix(before: Disk, after: Disk, from: Id, to: Id, names: seq<EntryName>, i: nat)
    requires i < |names| && from in before.dirs && Ascending(names) && forall n :: n in names <==> n in before.dirs[from]
    requires PrefixMoved(before, after, from, to, Bound(names, i))
    ensures PrefixMoved(before, after, from, to, names[i])
  {
    var s := before.dirs[from];
    assert Below(s, Bound(names, i)) == Below(s, names[i]) by {
      forall n | n in s ensures n < Bound(names, i) <==> n < names[i] {
        var j :| 0 <= j < |names| && names[j] == n;
        if j < i { assert j == i - 1 || names[j] < names[i - 1]; }
      }
    }
  }

  /** Stopping at the i-th name, after all before it were good. */
  lemma StopsHere(before: Disk, after: Disk, from: Id, to: Id, accept: EntryName -> bool, names: seq<EntryName>,
                  moved: seq<Moved>, i: nat)
    requires from in before.dirs && to in before.dirs && i < |names| && |moved| == i
    requires Ascending(names) && forall n :: n in names <==> n in before.dirs[from]
    requires forall j :: 0 <= j < i ==> AllGood(before, from, to, accept, names[j], moved[j])
    requires names[i] in before.dirs[to] || !accept(names[i])
    ensures StopsAt(before.dirs[from], before.dirs[to], accept,
                    if names[i] in before.dirs[to] then names[i] else names[i] + 1)
  {
    var s, d := before.dirs[from], before.dirs[to];
    forall m | m in s && m < names[i] ensures m !in d && accept(m) {
      var j :| 0 <= j < |names| && names[j] == m;
      assert j < i;
      assert AllGood(before, from, to, accept, names[j], moved[j]);
    }
    assert names[i] in s;
  }

  lemma NextBound(s: Entries, names: seq<EntryName>, i: nat)
    requires Ascending(names) && (forall n :: n in names <==> n in s) && i < |names|
    ensures names[i] !in Below(s, Bound(names, i))
    ensures Below(s, Bound(names, i + 1)) == Below(s, Bound(names, i))[names[i] := s[names[i]]]
  {
    forall n | n in s ensures n < names[i] + 1 <==> n < Bound(names, i) || n == names[i] {
      var j :| 0 <= j < |names| && names[j] == n;
      if j < i {
        assert j == i - 1 || names[j] < names[i - 1];
      }
    }
  }

  lemma LastBound(s: Entries, names: seq<EntryName>)
    requires Ascending(names) && forall n :: n in names <==> n in s
    ensures Below(s, Bound(names, |names|)) == s
  {
    forall n | n in s ensures n < Bound(names, |names|) {
      var j :| 0 <= j < |names| && names[j] == n;
      assert j == |names| - 1 || names[j] < names[|names| - 1];
    }
  }

  lemma NothingMoved(disk: Disk, from: Id, to: Id)
    requires from in disk.dirs && to in disk.dirs
    ensures PrefixMoved(disk, disk, from, to, 0)
  {
    var s, d := disk.dirs[from], disk.dirs[to];
    assert Below(s, 0) == map[];
    assert s - Below(s, 0).Keys == s && d + Below(s, 0) == d;
  }

  /** What is left to move after the first names. */
  lemma Remaining(before: Disk, after: Disk, from: Id, to: Id, names: seq<EntryName>, i: nat)
    requires i < |names| && from != to && PrefixMoved(before, after, from, to, Bound(names, i))
    requires Ascending(names) && (forall n :: n in names <==> n in before.dirs[from])
    ensures from in after.dirs && to in after.dirs && names[i] in after.dirs[from]
    ensures after.dirs[from][names[i]] == before.dirs[from][names[i]]
    ensures names[i] in after.dirs[to] <==> names[i] in before.dirs[to]
  {
    NextBound(before.dirs[from], names, i);
  }

  lemma MovedStep(before: Disk, after: Disk, after': Disk, from: Id, to: Id, names: seq<EntryName>, i: nat)
    requires i < |names| && from != to && PrefixMoved(before, after, from, to, Bound(names, i))
    requires Ascending(names) && (forall n :: n in names <==> n in before.dirs[from])
    requires names[i] !in before.dirs[to] && from in after.dirs && to in after.dirs && names[i] in after.dirs[from]
    requires after'.parent == after.parent
    requires after'.dirs == after.dirs[from := after.dirs[from] - {names[i]}]
                                      [to := after.dirs[to][names[i] := after.dirs[from][names[i]]]]
    ensures PrefixMoved(before, after', from, to, Bound(names, i + 1))
  {
    var s, d := before.dirs[from], before.dirs[to];
    NextBound(s, names, i);
    var first, first' := Below(s, Bound(names, i)), Below(s, Bound(names, i + 1));
    SplitStep(s, d, first, first', names[i]);
    assert after.dirs[from] == s - first.Keys && after.dirs[to] == d + first;
    hide Below, Bound;
    assert after'.dirs == before.dirs[from := s - first'.Keys][to := d + first'];
  }

  lemma SplitStep(s: Entries, d: Entries, first: Entries, first': Entries, n: EntryName)
    requires n in s && n !in first && n !in d && first' == first[n := s[n]] && first.Keys !! d.Keys
    ensures n in s - first.Keys && s - first.Keys - {n} == s - first'.Keys
    ensures (d + first)[n := s[n]] == d + first' && first'.Keys !! d.Keys
  {
  }

  lemma EverythingMoved(before: Disk, after: Disk, from: Id, to: Id, names: seq<EntryName>)
    requires from != to && PrefixMoved(before, after, from, to, Bound(names, |names|))
    requires Ascending(names) && (forall n :: n in names <==> n in before.dirs[from])
    ensures var s, d := before.dirs[from], before.dirs[to];
            s.Keys !! d.Keys && after == Merged(before, from, to)
  {
    var s := before.dirs[from];
    LastBound(s, names);
    assert s - s.Keys == map[];
  }

  lemma BoundNext(names: seq<EntryName>, i: nat)
    requires i < |names|
    ensures Bound(names, i + 1) == names[i] + 1
  {
  }

  lemma FirstBound(names: seq<EntryName>)
    ensures Bound(names, 0) == 0
  {
  }

  /** The entry was free to move, moved and was accepted. */
  ghost predicate AllGood(before: Disk, from: Id, to: Id, accept: EntryName -> bool, name: EntryName, moved: Moved)
    requires from in before.dirs && to in before.dirs
  {
    name in before.dirs[from] && name !in before.dirs[to] && accept(name) && moved == Moved(name, before.dirs[from][name])
  }

  lemma MovedHolds(before: Disk, from: Id, to: Id, accept: EntryName -> bool, names: seq<EntryName>, moved: seq<Moved>)
    requires from in before.dirs && to in before.dirs && |moved| == |names|
    requires forall n :: n in names <==> n in before.dirs[from]
    requires forall j :: 0 <= j < |names| ==> AllGood(before, from, to, accept, names[j], moved[j])
    ensures Holds(before.dirs[from], moved) && forall n <- before.dirs[from] :: accept(n)
  {
    var s := before.dirs[from];
    forall n | n in s ensures accept(n) && n in set e | e in moved :: e.name {
      var j :| 0 <= j < |names| && names[j] == n;
      assert AllGood(before, from, to, accept, names[j], moved[j]) && moved[j] in moved;
    }
    forall e | e in moved ensures e.name in s && s[e.name] == e.identity {
      var j :| 0 <= j < |moved| && moved[j] == e;
      assert AllGood(before, from, to, accept, names[j], moved[j]);
    }
  }

  class Attempt {
    const parent: Parent
    const reservationOwned: bool
    const stagingName: Name
    /** The directories pinned at the start; the fields below give up their handles one by one. */
    ghost const pinnedReservation: Id
    ghost const pinnedStaging: Id
    var reservation: Option<Id>
    var staging: Option<Id>

    constructor (parent: Parent, reservation: Id, owned: bool, stagingName: Name, staging: Id)
      requires stagingName.Private?
      ensures Valid() && this.parent == parent && this.reservationOwned == owned && this.stagingName == stagingName
      ensures pinnedReservation == reservation && pinnedStaging == staging && Pins(true, true)
    {
      this.parent := parent;
      this.reservationOwned := owned;
      this.stagingName := stagingName;
      this.pinnedReservation := reservation;
      this.pinnedStaging := staging;
      this.reservation := Some(reservation);
      this.staging := Some(staging);
    }

    ghost predicate Valid()
      reads this
    {
      stagingName.Private?
      && (reservation.Some? ==> reservation.value == pinnedReservation)
      && (staging.Some? ==> staging.value == pinnedStaging)
    }

    ghost predicate Pins(reservation: bool, staging: bool)
      reads this
    {
      this.reservation.Some? == reservation && this.staging.Some? == staging
    }

    /** What the attempt may delete. */
    ghost function Own(): set<Id> { {pinnedStaging} + (if reservationOwned then {pinnedReservation} else {}) }

    /** The requested name has the reservation and the staging name has the staged clone. */
    ghost predicate InPlace(disk: Disk) {
      disk.Named(Requested, pinnedReservation) && disk.Named(stagingName, pinnedStaging)
    }

    // ----- Rolling back -----

    /** Puts the backup back at the requested name, or, if that is taken, gives up the empty reservation. */
    method RestoreOrDiscard(backup: Name, quiet: bool)
      requires Valid() && reservationOwned
      modifies this`reservation, parent`disk, parent`deleted
      ensures Valid() && parent.deleted <= old(parent.deleted) + Own()
      ensures quiet && backup in old(parent.disk.parent) && Requested !in old(parent.disk.parent) ==>
                parent.disk == Disk(Renamed(old(parent.disk.parent), backup, Requested), old(parent.disk.dirs))
                && reservation == old(reservation)
    {
      parent.Interfere(quiet);
      var restored := parent.RenameNoreplace(backup, Requested);
      if restored.Err? && reservation.Some? {
        var identity := reservation.value;
        reservation := None;
        parent.Interfere(quiet);
        var _ := parent.RemoveDirIfIdentity(backup, identity, quiet);
      }
    }

    /** Moves a published clone back to its staging name, if it is the staged one, and restores the backup. */
    method Rollback(backup: Name, quiet: bool)
      requires Valid() && reservationOwned && backup.Private?
      modifies this`reservation, parent`disk, parent`deleted
      ensures Valid() && parent.deleted <= old(parent.deleted) + Own()
      ensures quiet && staging.Some? && old(parent.disk).Has(Requested, pinnedStaging)
              && pinnedStaging in old(parent.disk.dirs)
              && stagingName !in old(parent.disk.parent) && backup in old(parent.disk.parent) ==>
                parent.disk == Disk(Renamed(Renamed(old(parent.disk.parent), Requested, stagingName), backup, Requested),
                                    old(parent.disk.dirs))
                && reservation == old(reservation)
    {
      parent.Interfere(quiet);
      var current := parent.OpenDir(Requested);
      if staging.Some? && current == Ok(staging.value) {
        parent.Interfere(quiet);
        var _ := parent.RenameNoreplace(Requested, stagingName);
      }
      RestoreOrDiscard(backup, quiet);
    }
  
    // ----- Publishing -----

    /** Whether the check says that the directories are the same. */
    function Matches(check: Check, a: Id, b: Id): Result<bool, Failure> {
      match check
      case Honest => Ok(a == b)
      case Mismatch => Ok(false)
      case Broken => Err(Refused)
    }

    /** Moves the reservation aside, if it still is the pinned one. */
    method TakeReservation(check: Check, quiet: bool) returns (r: Result<Backup, Failure>)
      requires Valid() && reservationOwned && reservation.Some?
      modifies this`reservation, parent`disk, parent`sequence, parent`deleted
      ensures Valid() && parent.deleted <= old(parent.deleted) + Own()
      ensures old(parent.sequence) <= parent.sequence
      ensures r.Ok? ==> r.value.name.Private? && r.value.handle == pinnedReservation && reservation == old(reservation)
      ensures quiet && old(parent.Fresh()) ==> parent.Fresh()
      ensures quiet && old(parent.Fresh()) && InPlace(old(parent.disk)) ==>
                reservation == old(reservation)
                && (if check == Honest then
                      r.Ok? && r.value.name !in old(parent.disk.parent)
                      && parent.disk == Disk(Renamed(old(parent.disk.parent), Requested, r.value.name), old(parent.disk.dirs))
                    else r.Err? && parent.disk == old(parent.disk))
    {
      var backup :- parent.PrivateAbsentName(quiet);
      parent.Interfere(quiet);
      ghost var before := parent.disk.parent;
      var _ :- parent.RenameNoreplace(Requested, backup);
      if quiet && before == old(parent.disk.parent) && backup !in before { RenamedBack(before, Requested, backup); }
      parent.Interfere(quiet);
      var found := parent.OpenDir(backup);
      var same := if found.Err? then Err(Refused) else Matches(check, reservation.value, found.value);
      if same != Ok(true) {
        RestoreOrDiscard(backup, quiet);
        return Err(Refused);
      }
      return Ok(Backup(backup, found.value));
    }

    /** Moves the staged clone to the requested name, if it still is the pinned one, and deletes the empty backup. */
    method InstallStaged(backup: Name, handle: Id, check: Check, quiet: bool) returns (r: Result<(), Failure>)
      requires Valid() && reservationOwned && backup.Private? && handle == pinnedReservation
      modifies this`reservation, this`staging, parent`disk, parent`deleted
      ensures Valid() && parent.deleted <= old(parent.deleted) + Own()
      ensures r.Ok? ==> Pins(false, false)
      ensures quiet && old(staging.Some?) && Aside(old(parent.disk), backup) ==>
                var back := Disk(Renamed(old(parent.disk.parent), backup, Requested), old(parent.disk.dirs));
                if check == Honest && old(parent.disk).Empty(pinnedReservation) then
                  r.Ok? && parent.disk == Disk(Renamed(old(parent.disk.parent) - {backup}, stagingName, Requested),
                                               old(parent.disk.dirs) - {pinnedReservation})
                else
                  r.Err? && parent.disk == back && staging == old(staging)
                  && reservation == (if check == Honest then None else old(reservation))
    {
      ghost var before := parent.disk.parent;
      parent.Interfere(quiet);
      var renamed := parent.RenameNoreplace(stagingName, Requested);
      if renamed.Err? {
        RestoreOrDiscard(backup, quiet);
        return Err(Refused);
      }
      parent.Interfere(quiet);
      var published := parent.OpenDir(Requested);
      var same := if published.Err? || staging.None? then Err(Refused) else Matches(check, staging.value, published.value);
      if quiet && stagingName in before && Requested !in before { RenamedBack(before, stagingName, Requested); }
      if same != Ok(true) {
        Rollback(backup, quiet);
        return Err(Refused);
      }
      r := DiscardBackup(backup, handle, quiet);
    }

    /** Deletes the empty backup; if it has gained content, everything is moved back. */
    method DiscardBackup(backup: Name, handle: Id, quiet: bool) returns (r: Result<(), Failure>)
      requires Valid() && reservationOwned && backup.Private? && handle == pinnedReservation
      modifies this`reservation, this`staging, parent`disk, parent`deleted
      ensures Valid() && parent.deleted <= old(parent.deleted) + Own()
      ensures r.Ok? ==> Pins(false, false)
      ensures quiet && old(staging.Some?) && old(parent.disk).Named(backup, pinnedReservation)
              && old(parent.disk).Has(Requested, pinnedStaging) && pinnedStaging in old(parent.disk).dirs
              && stagingName !in old(parent.disk).parent ==>
                if old(parent.disk).Empty(pinnedReservation) then
                  r.Ok? && parent.disk == Disk(old(parent.disk.parent) - {backup}, old(parent.disk.dirs) - {pinnedReservation})
                else
                  r.Err? && staging == old(staging) && reservation == None
                  && parent.disk == Disk(Renamed(Renamed(old(parent.disk.parent), Requested, stagingName), backup, Requested),
                                         old(parent.disk.dirs))
    {
      reservation := None;
      parent.Interfere(quiet);
      if parent.disk.Named(backup, pinnedReservation) { WithoutNamed(parent.disk, backup, pinnedReservation); }
      var removed := parent.RemoveOpenDir(handle, false);
      if removed.Err? {
        Rollback(backup, quiet);
        return Err(Refused);
      }
      staging := None;
      return Ok(());
    }

    /** The reservation was moved aside; nothing has the requested name. */
    ghost predicate Aside(disk: Disk, backup: Name) {
      Requested !in disk.parent && disk.Named(backup, pinnedReservation) && disk.Named(stagingName, pinnedStaging)
      && backup != stagingName && pinnedReservation != pinnedStaging
    }

    /** Publishes the staged clone in place of the attempt's own reservation. */
    method PublishReplacing(first: Check, second: Check, quiet: bool) returns (r: Result<(), Failure>)
      requires Valid() && reservationOwned
      modifies this`reservation, this`staging, parent`disk, parent`sequence, parent`deleted
      ensures Valid() && parent.deleted <= old(parent.deleted) + Own()
      ensures quiet && old(parent.Fresh()) && old(Pins(true, true)) && InPlace(old(parent.disk)) ==> parent.Fresh()
      ensures quiet && old(parent.Fresh()) && old(Pins(true, true)) && InPlace(old(parent.disk)) ==>
                if first == Honest && second == Honest && old(parent.disk).Empty(pinnedReservation) then
                  r.Ok? && Pins(false, false) && parent.disk == Published(old(parent.disk))
                else
                  r.Err? && parent.disk == old(parent.disk)
                  && Pins(first != Honest || second != Honest, true)
    {
      var _ :- Ensure(reservation.Some?, Refused);
      ghost var before := parent.disk.parent;
      var backup :- TakeReservation(first, quiet);
      ghost var aside := parent.disk;
      if quiet && Requested in before && backup.name !in before { RenamedBack(before, Requested, backup.name); }
      r := InstallStaged(backup.name, backup.handle, second, quiet);
    }

    /** The reservation is gone and the staged clone has its name. */
    ghost function Published(disk: Disk): Disk
      requires stagingName in disk.parent
    {
      Disk((disk.parent - {Requested, stagingName})[Requested := disk.parent[stagingName]], disk.dirs - {pinnedReservation})
    }

    /** Moves one entry, and makes sure that it arrived. */
    method MoveOne(from: Id, to: Id, name: EntryName, accept: EntryName -> bool, quiet: bool)
      returns (r: Result<Moved, Failure>)
      modifies parent`disk
      ensures quiet && from != to && from in old(parent.disk).dirs && to in old(parent.disk).dirs
              && name in old(parent.disk).dirs[from] ==>
                var s, d := old(parent.disk).dirs[from], old(parent.disk).dirs[to];
                if name in d then r.Err? && parent.disk == old(parent.disk)
                else
                  parent.disk.parent == old(parent.disk).parent
                  && parent.disk.dirs == old(parent.disk).dirs[from := old(parent.disk).dirs[from] - {name}]
                                                                   [to := d[name := s[name]]]
                  && r == (if accept(name) then Ok(Moved(name, s[name])) else Err(Refused))
    {
      parent.Interfere(quiet);
      var _ :- Ensure(from in parent.disk.dirs && name in parent.disk.dirs[from], Refused);
      var identity := parent.disk.dirs[from][name];
      parent.Interfere(quiet);
      var _ :- parent.MoveEntry(from, to, name);
      parent.Interfere(quiet);
      var _ :- Ensure(to in parent.disk.dirs && name in parent.disk.dirs[to] && parent.disk.dirs[to][name] == identity,
                      Refused);
      var _ :- Ensure(accept(name), Refused);
      return Ok(Moved(name, identity));
    }

    /** Moves all entries in the order of their names, up to the first failure. */
    method MoveAll(from: Id, to: Id, accept: EntryName -> bool, quiet: bool)
      returns (r: Result<seq<Moved>, Failure>)
      modifies parent`disk
      ensures quiet && from != to && from in old(parent.disk).dirs && to in old(parent.disk).dirs ==>
                var s, d := old(parent.disk).dirs[from], old(parent.disk).dirs[to];
                parent.disk.parent == old(parent.disk).parent && from in parent.disk.dirs && to in parent.disk.dirs
                && (r.Err? ==> exists bound ::
                      StoppedMove(old(parent.disk), parent.disk, from, to, accept, bound))
                && (r.Ok? <==> s.Keys !! d.Keys && forall n <- s :: accept(n))
                && (r.Ok? ==> parent.disk == Merged(old(parent.disk), from, to) && Holds(s, r.value))
    {
      hide PrefixMoved, Bound, Below, Ascending, StopsAt;
      parent.Interfere(quiet);
      var _ :- Ensure(from in parent.disk.dirs, Refused);
      var names := SortedNames(parent.disk.dirs[from]);
      ghost var start := old(parent.disk);
      ghost var calm := quiet && from != to && from in start.dirs && to in start.dirs;
      if calm { NothingMoved(start, from, to); FirstBound(names); }
      var moved: seq<Moved> := [];
      for i := 0 to |names|
        invariant |moved| == i
        invariant calm ==> parent.disk.parent == start.parent && from in parent.disk.dirs && to in parent.disk.dirs
        invariant calm ==> PrefixMoved(start, parent.disk, from, to, Bound(names, i))
        invariant calm ==> forall j :: 0 <= j < i ==> AllGood(start, from, to, accept, names[j], moved[j])
      {
        ghost var before := parent.disk;
        if calm { Remaining(start, before, from, to, names, i); }
        var one := MoveOne(from, to, names[i], accept, quiet);
        if calm && names[i] !in start.dirs[to] {
          MovedStep(start, before, parent.disk, from, to, names, i);
        }
        if one.Err? {
          if calm {
            StopsHere(start, parent.disk, from, to, accept, names, moved, i);
            if names[i] in start.dirs[to] { SamePrefix(start, parent.disk, from, to, names, i); }
            else { BoundNext(names, i); }
            assert StoppedMove(start, parent.disk, from, to, accept,
                               if names[i] in start.dirs[to] then names[i] else names[i] + 1);
          }
          return Err(Refused);
        }
        moved := moved + [one.value];
      }
      if calm {
        EverythingMoved(start, parent.disk, from, to, names);
        MovedHolds(start, from, to, accept, names, moved);
      }
      return Ok(moved);
    }

    /** The destination holds exactly the moved entries, each with its identity. */
    method ValidatePublished(directory: Id, moved: seq<Moved>, quiet: bool) returns (r: Result<(), Failure>)
      modifies parent`disk
      ensures quiet ==> parent.disk == old(parent.disk)
      ensures quiet ==> (r.Ok? <==> directory in parent.disk.dirs && Holds(parent.disk.dirs[directory], moved))
    {
      parent.Interfere(quiet);
      var _ :- Ensure(directory in parent.disk.dirs, Refused);
      var _ :- Ensure(parent.disk.dirs[directory].Keys == (set e | e in moved :: e.name), Refused);
      for i := 0 to |moved|
        invariant quiet ==>
                    parent.disk == old(parent.disk)
                    && forall j :: 0 <= j < i ==> parent.disk.dirs[directory][moved[j].name] == moved[j].identity
      {
        parent.Interfere(quiet);
        var _ :- Ensure(directory in parent.disk.dirs && moved[i].name in parent.disk.dirs[directory]
                        && parent.disk.dirs[directory][moved[i].name] == moved[i].identity, Refused);
      }
      return Ok(());
    }

    /** Checks the filled destination and deletes the empty staging directory. */
    method ConfirmInto(from: Id, to: Id, moved: seq<Moved>, quiet: bool) returns (r: Result<(), Failure>)
      requires Valid() && reservation == Some(to) && staging == Some(from)
      modifies this`reservation, this`staging, parent`disk, parent`deleted
      ensures Valid() && parent.deleted <= old(parent.deleted) + {from}
      ensures r.Err? ==> parent.deleted == old(parent.deleted) && reservation == old(reservation) && staging == old(staging)
      ensures r.Ok? ==> Pins(false, false)
      ensures quiet && InPlace(old(parent.disk)) && old(parent.disk).Empty(from) ==>
                (r.Ok? <==> Holds(old(parent.disk).dirs[to], moved))
                && (r.Ok? ==> parent.disk == Disk(old(parent.disk.parent) - {stagingName}, old(parent.disk.dirs) - {from}))
                && (r.Err? ==> parent.disk == old(parent.disk))
    {
      hide Holds;
      parent.Interfere(quiet);
      var current :- parent.OpenDir(Requested);
      var _ :- Ensure(current == to, Refused);
      var _ :- ValidatePublished(to, moved, quiet);
      parent.Interfere(quiet);
      if parent.disk.Named(stagingName, from) { WithoutNamed(parent.disk, stagingName, from); }
      var _ :- parent.RemoveOpenDir(from, false);
      staging, reservation := None, None;
      return Ok(());
    }

    /**
    Publishes into a directory that was there before, entry by entry. A failure leaves the first entries published
    and the others staged.
    */
    method PublishIntoPreexisting(accept: EntryName -> bool, quiet: bool) returns (r: Result<(), Failure>)
      requires Valid()
      modifies this`reservation, this`staging, parent`disk, parent`deleted
      ensures quiet && old(Ready()) ==> parent.Fresh()
      ensures Valid() && parent.deleted <= old(parent.deleted) + {pinnedStaging}
      ensures r.Err? ==> parent.deleted == old(parent.deleted) && reservation == old(reservation) && staging == old(staging)
      ensures quiet && old(Pins(true, true)) && InPlace(old(parent.disk)) ==>
                var s, d := old(parent.disk).dirs[pinnedStaging], old(parent.disk).dirs[pinnedReservation];
                (r.Ok? <==> d == map[] && forall n <- s :: accept(n))
                && (r.Ok? ==> Pins(false, false) && parent.disk == Filled(old(parent.disk)))
                && (r.Err? ==> parent.disk.parent == old(parent.disk.parent) && InPlace(parent.disk)
                               && ((d != map[] && parent.disk == Merged(old(parent.disk), pinnedStaging, pinnedReservation))
                                   || exists bound :: StoppedMove(old(parent.disk), parent.disk, pinnedStaging,
                                                                  pinnedReservation, accept, bound)))
    {
      hide StoppedMove, Holds;
      ghost var start := parent.disk;
      ghost var calm := quiet && Pins(true, true) && InPlace(start);
      var _ :- Ensure(reservation.Some? && staging.Some?, Refused);
      var from, to := staging.value, reservation.value;
      var moved :- MoveAll(from, to, accept, quiet);
      if calm { MergedParts(start, from, to, moved); }
      r := ConfirmInto(from, to, moved, quiet);
    }

    /** The destination holds the staged entries and the staging directory is gone. */
    ghost function Filled(disk: Disk): Disk
      requires pinnedStaging in disk.dirs
    {
      Disk(disk.parent - {stagingName}, disk.dirs[pinnedReservation := disk.dirs[pinnedStaging]] - {pinnedStaging})
    }

    /** Publishes the staged clone if the requested name still has the empty pinned directory. */
    method Publish(first: Check, second: Check, accept: EntryName -> bool, quiet: bool) returns (r: Result<(), Failure>)
      requires Valid()
      modifies this`reservation, this`staging, parent`disk, parent`sequence, parent`deleted
      ensures Valid() && parent.deleted <= old(parent.deleted) + Own()
      ensures quiet && old(Ready()) ==> parent.Fresh()
      ensures quiet && old(reservation.Some?)
              && !(old(parent.disk).Has(Requested, pinnedReservation) && old(parent.disk).Empty(pinnedReservation)) ==>
                r.Err? && parent.disk == old(parent.disk) && parent.deleted == old(parent.deleted)
                && reservation == old(reservation) && staging == old(staging)
      ensures quiet && old(Ready()) && reservationOwned ==>
                if first == Honest && second == Honest && old(parent.disk).Empty(pinnedReservation) then
                  r.Ok? && Pins(false, false) && parent.disk == Published(old(parent.disk))
                else r.Err? && Pins(true, true) && parent.disk == old(parent.disk)
      ensures quiet && old(Ready()) && !reservationOwned ==>
                var s, d := old(parent.disk).dirs[pinnedStaging], old(parent.disk).dirs[pinnedReservation];
                (r.Ok? <==> d == map[] && forall n <- s :: accept(n))
                && (r.Ok? ==> Pins(false, false) && parent.disk == Filled(old(parent.disk)))
                && (r.Err? ==> Ready() && parent.disk.parent == old(parent.disk.parent))
                && (r.Err? && d == map[] ==> exists bound ::
                      StoppedMove(old(parent.disk), parent.disk, pinnedStaging, pinnedReservation, accept, bound))
    {
      hide StoppedMove, Published, Filled;
      var _ :- Ensure(reservation.Some?, Refused);
      parent.Interfere(quiet);
      var current :- parent.OpenDir(Requested);
      var _ :- Ensure(current == reservation.value, Refused);
      parent.Interfere(quiet);
      var _ :- Ensure(parent.disk.Empty(current), Refused);
      if reservationOwned {
        r := PublishReplacing(first, second, quiet);
      } else {
        r := PublishIntoPreexisting(accept, quiet);
      }
    }

    /** Both directories are pinned and in place. */
    ghost predicate Ready()
      reads this, parent
    {
      Pins(true, true) && InPlace(parent.disk) && parent.Fresh()
    }

    // ----- Cleaning up -----

    /**
    Deletes a directory of the attempt's own: moved to a private name first, so that what is deleted is what was
    checked, and moved back if it is not the one or cannot be deleted.
    */
    method RemoveOwned(name: Name, owned: Option<Id>, recursive: bool, quiet: bool) returns (r: Result<(), Failure>)
      modifies parent`disk, parent`sequence, parent`deleted
      ensures parent.deleted <= old(parent.deleted) + (if owned.Some? then {owned.value} else {})
      ensures old(parent.sequence) <= parent.sequence
      ensures quiet && (owned.None? || name !in old(parent.disk.parent)) ==> r.Ok? && parent.disk == old(parent.disk)
      ensures quiet && owned.Some? && old(parent.disk).Named(name, owned.value) && old(parent.Fresh()) ==>
                if recursive || old(parent.disk).Empty(owned.value) then
                  r.Ok? && parent.disk == Disk(old(parent.disk.parent) - {name}, old(parent.disk.dirs) - {owned.value})
                else r.Err? && parent.disk == old(parent.disk)
    {
      if owned.None? {
        return Ok(());
      }
      parent.Interfere(quiet);
      if name !in parent.disk.parent {
        return Ok(());
      }
      var current :- parent.OpenDir(name);
      var _ :- Ensure(current == owned.value, Refused);
      var trash :- parent.PrivateAbsentName(quiet);
      parent.Interfere(quiet);
      ghost var before := parent.disk.parent;
      var _ :- parent.RenameNoreplace(name, trash);
      RenamedBack(before, name, trash);
      parent.Interfere(quiet);
      var moved := parent.OpenDir(trash);
      if moved != Ok(owned.value) {
        parent.Interfere(quiet);
        var _ := parent.RenameNoreplace(trash, name);
        return Err(Refused);
      }
      parent.Interfere(quiet);
      if parent.disk.Named(trash, owned.value) { WithoutNamed(parent.disk, trash, owned.value); }
      r := parent.RemoveOpenDir(owned.value, recursive);
      if r.Err? {
        parent.Interfere(quiet);
        var _ := parent.RenameNoreplace(trash, name);
      }
    }

    /** After a failure: deletes the staging directory and, if it is the attempt's own and still empty, the reservation. */
    method Cleanup(quiet: bool) returns (r: Result<(), Failure>)
      requires Valid()
      modifies this`reservation, this`staging, parent`disk, parent`sequence, parent`deleted
      ensures Valid() && parent.deleted <= old(parent.deleted) + Own()
      ensures quiet && old(Ready()) ==>
                parent.disk == (if reservationOwned && old(parent.disk).Empty(pinnedReservation) then
                                  Disk(old(parent.disk.parent) - {stagingName} - {Requested},
                                       old(parent.disk.dirs) - {pinnedStaging} - {pinnedReservation})
                                else
                                  Disk(old(parent.disk.parent) - {stagingName}, old(parent.disk.dirs) - {pinnedStaging}))
      ensures quiet && old(Ready()) ==> (r.Ok? <==> !reservationOwned || old(parent.disk).Empty(pinnedReservation))
    {
      var staged := staging;
      staging := None;
      var first := RemoveOwned(stagingName, staged, true, quiet);
      var second: Result<(), Failure> := Ok(());
      if reservationOwned {
        var reserved := reservation;
        reservation := None;
        second := RemoveOwned(Requested, reserved, false, quiet);
      }
      return if first.Err? then first else second;
    }

    /** Publishes, and cleans up if that fails. */
    method Commit(first: Check, second: Check, accept: EntryName -> bool, quiet: bool) returns (r: Result<(), Failure>)
      requires Valid()
      modifies this`reservation, this`staging, parent`disk, parent`sequence, parent`deleted
      ensures parent.deleted <= old(parent.deleted) + Own()
      ensures quiet && old(Ready()) && reservationOwned && old(parent.disk).Empty(pinnedReservation) ==>
                (r.Ok? <==> first == Honest && second == Honest)
                && parent.disk == (if r.Ok? then Published(old(parent.disk))
                                   else Disk(old(parent.disk.parent) - {stagingName} - {Requested},
                                             old(parent.disk.dirs) - {pinnedStaging} - {pinnedReservation}))
      ensures quiet && old(Ready()) && !reservationOwned && old(parent.disk).Empty(pinnedReservation) ==>
                var s := old(parent.disk).dirs[pinnedStaging];
                (r.Ok? <==> forall n <- s :: accept(n))
                && (r.Ok? ==> parent.disk == Filled(old(parent.disk)))
                && (r.Err? ==> parent.disk.parent == old(parent.disk.parent) - {stagingName} && exists bound ::
                      StoppedAndKept(old(parent.disk), parent.disk, pinnedStaging, pinnedReservation, accept, bound))
    {
      hide StoppedMove, Published, Filled, StoppedAndKept;
      ghost var start := parent.disk;
      r := Publish(first, second, accept, quiet);
      if r.Err? {
        ghost var failed := parent.disk;
        var _ := Cleanup(quiet);
        if quiet && old(Ready()) && !reservationOwned && start.Empty(pinnedReservation) {
          ghost var bound :| StoppedMove(start, failed, pinnedStaging, pinnedReservation, accept, bound);
          StoppedCleaned(start, failed, parent.disk, pinnedStaging, pinnedReservation, accept, bound);
        }
      }
    }
  }

  /** A destination with the staged entries added holds exactly those only if it was empty. */
  lemma OnlyMoved(s: Entries, d: Entries, moved: seq<Moved>)
    requires s.Keys !! d.Keys && Holds(s, moved)
    ensures Holds(d + s, moved) <==> d == map[]
  {
    if Holds(d + s, moved) {
      assert d.Keys <= (d + s).Keys == s.Keys;
      assert forall n :: n in d ==> n in d.Keys && n in s.Keys;
    } else {
      assert d == map[] ==> d + s == s;
    }
  }

  lemma MergedParts(disk: Disk, from: Id, to: Id, moved: seq<Moved>)
    requires from != to && from in disk.dirs && to in disk.dirs && disk.dirs[from].Keys !! disk.dirs[to].Keys
    requires Holds(disk.dirs[from], moved)
    ensures Merged(disk, from, to).Empty(from) && Merged(disk, from, to).parent == disk.parent
    ensures Holds(Merged(disk, from, to).dirs[to], moved) <==> disk.dirs[to] == map[]
    ensures disk.dirs[to] == map[] ==>
              Merged(disk, from, to).dirs - {from} == disk.dirs[to := disk.dirs[from]] - {from}
  {
    OnlyMoved(disk.dirs[from], disk.dirs[to], moved);
    assert disk.dirs[to] == map[] ==> disk.dirs[to] + disk.dirs[from] == disk.dirs[from];
  }

  /** The staging directory is gone and the destination keeps the first entries. */
  ghost predicate PrefixKept(before: Disk, after: Disk, from: Id, to: Id, bound: EntryName) {
    from in before.dirs && after.dirs == before.dirs[to := Below(before.dirs[from], bound)] - {from}
  }

  /** And the move stopped there for a reason. */
  ghost predicate StoppedAndKept(before: Disk, after: Disk, from: Id, to: Id, accept: EntryName -> bool, bound: EntryName) {
    PrefixKept(before, after, from, to, bound) && StopsAt(before.dirs[from], map[], accept, bound)
  }

  lemma StoppedCleaned(before: Disk, failed: Disk, after: Disk, from: Id, to: Id, accept: EntryName -> bool,
                       bound: EntryName)
    requires from != to && StoppedMove(before, failed, from, to, accept, bound) && before.dirs[to] == map[]
    requires after.dirs == failed.dirs - {from}
    ensures StoppedAndKept(before, after, from, to, accept, bound)
  {
    PrefixCleaned(before, failed, after, from, to, bound);
  }

  lemma PrefixCleaned(before: Disk, failed: Disk, after: Disk, from: Id, to: Id, bound: EntryName)
    requires from != to && PrefixMoved(before, failed, from, to, bound) && before.dirs[to] == map[]
    requires after.dirs == failed.dirs - {from}
    ensures PrefixKept(before, after, from, to, bound)
  {
    hide Below;
    assert before.dirs[to] + Below(before.dirs[from], bound) == Below(before.dirs[from], bound);
  }

  lemma RenamedBack(parent: map<Name, Id>, from: Name, to: Name)
    requires from in parent && to !in parent
    ensures Renamed(Renamed(parent, from, to), to, from) == parent
  {
  }

  // ----- A whole clone -----

  /** Reserves the requested name and makes the staging directory; the system gives both identities of their own. */
  method Start(parent: Parent, preexisting: bool, reserved: Id, staged: Id, quiet: bool)
    returns (r: Result<Attempt, Failure>)
    requires reserved != staged
    modifies parent
    ensures r.Ok? ==> r.value.Valid() && r.value.Pins(true, true) && fresh(r.value) && r.value.parent == parent
                      && r.value.reservationOwned == !preexisting && parent.deleted == old(parent.deleted)
    ensures quiet && old(parent.Fresh()) && Unused(old(parent.disk), {reserved, staged}) ==>
              parent.Fresh() && parent.deleted == old(parent.deleted)
              && (r.Ok? <==> if preexisting then
                               exists id: Id :: old(parent.disk).Has(Requested, id) && old(parent.disk).Empty(id)
                             else Requested !in old(parent.disk.parent))
              && (r.Err? ==> parent.disk == old(parent.disk))
              && (r.Ok? ==> Started(old(parent.disk), parent.disk, r.value, preexisting)
                            && r.value.pinnedStaging == staged && (!preexisting ==> r.value.pinnedReservation == reserved))
  {
    parent.Interfere(quiet);
    var reservation: Id;
    if preexisting {
      reservation :- parent.OpenDir(Requested);
      parent.Interfere(quiet);
      var _ :- Ensure(parent.disk.Empty(reservation), Refused);
    } else {
      var _ :- parent.CreateDir(Requested, reserved);
      parent.Interfere(quiet);
      reservation :- parent.OpenDir(Requested);
    }
    var stagingName :- parent.CreatePrivateDirectory(staged, quiet);
    parent.Interfere(quiet);
    var staging := parent.OpenDir(stagingName);
    if staging.Err? {
      parent.Interfere(quiet);
      parent.RemoveDir(stagingName);
      if !preexisting {
        parent.Interfere(quiet);
        var _ := parent.RemoveOpenDir(reservation, false);
      }
      return Err(Refused);
    }
    var attempt := new Attempt(parent, reservation, !preexisting, stagingName, staging.value);
    return Ok(attempt);
  }

  ghost predicate Unused(disk: Disk, ids: set<Id>) {
    forall id <- ids :: id !in disk.dirs && forall n :: n in disk.parent ==> disk.parent[n] != id
  }

  /** An empty staging directory was added, and an empty reservation unless there was one. */
  ghost predicate Started(before: Disk, after: Disk, attempt: Attempt, preexisting: bool) {
    attempt.stagingName !in before.parent
    && (if preexisting then
          before.Has(Requested, attempt.pinnedReservation)
          && after == Disk(before.parent[attempt.stagingName := attempt.pinnedStaging],
                           before.dirs[attempt.pinnedStaging := map[]])
        else
          Requested !in before.parent
          && after == Disk(before.parent[Requested := attempt.pinnedReservation]
                                        [attempt.stagingName := attempt.pinnedStaging],
                           before.dirs[attempt.pinnedReservation := map[]][attempt.pinnedStaging := map[]]))
  }

  /** Taking both new directories away again leaves the directory as it was. */
  lemma StartedUndone(before: Disk, after: Disk, attempt: Attempt, entries: Entries)
    requires Started(before, after, attempt, false) && attempt.stagingName != Requested
    requires attempt.pinnedReservation !in before.dirs && attempt.pinnedStaging !in before.dirs
    ensures var ready := after.(dirs := after.dirs[attempt.pinnedStaging := entries]);
            Disk(ready.parent - {attempt.stagingName} - {Requested},
                 ready.dirs - {attempt.pinnedStaging} - {attempt.pinnedReservation}) == before
  {
  }

  lemma StartedPublished(before: Disk, after: Disk, attempt: Attempt, entries: Entries)
    requires Started(before, after, attempt, false) && attempt.stagingName != Requested
    requires attempt.pinnedReservation !in before.dirs && attempt.pinnedReservation != attempt.pinnedStaging
    ensures attempt.Published(after.(dirs := after.dirs[attempt.pinnedStaging := entries])) ==
            Disk(before.parent[Requested := attempt.pinnedStaging], before.dirs[attempt.pinnedStaging := entries])
  {
  }

  /**
  A clone to a new destination, with no interference. If both identity checks pass, the staged clone has the
  requested name and nothing else is left; if either fails, the parent directory is as it was before the start.
  */
  method CloneToNew(parent: Parent, reserved: Id, staged: Id, entries: Entries, first: Check, second: Check)
    returns (r: Result<(), Failure>)
    requires parent.Fresh() && reserved != staged && Unused(parent.disk, {reserved, staged})
    modifies parent
    ensures r.Ok? <==> Requested !in old(parent.disk.parent) && first == Honest && second == Honest
    ensures r.Ok? ==> parent.disk == Disk(old(parent.disk.parent)[Requested := staged], old(parent.disk.dirs)[staged := entries])
    ensures r.Err? ==> parent.disk == old(parent.disk)
    ensures parent.deleted <= old(parent.deleted) + {reserved, staged}
  {
    hide Below, PrefixKept;
    var attempt :- Start(parent, false, reserved, staged, true);
    StartedUndone(old(parent.disk), parent.disk, attempt, entries);
    StartedPublished(old(parent.disk), parent.disk, attempt, entries);
    parent.disk := parent.disk.(dirs := parent.disk.dirs[staged := entries]);
    r := attempt.Commit(first, second, _ => true, true);
  }

  /**
  A clone into an empty directory that was there before, with no interference. If every entry is accepted the
  directory holds exactly the staged entries; otherwise it keeps those up to the first one rejected, in the order of
  their names, and nothing is moved back. Either way only the staging directory is deleted.
  */
  method CloneIntoExisting(parent: Parent, destination: Id, reserved: Id, staged: Id, entries: Entries,
                           accept: EntryName -> bool)
    returns (r: Result<(), Failure>)
    requires parent.Fresh() && reserved != staged && Unused(parent.disk, {reserved, staged})
    requires parent.disk.Named(Requested, destination) && parent.disk.Empty(destination)
    modifies parent
    ensures r.Ok? <==> forall n <- entries :: accept(n)
    ensures parent.disk.parent == old(parent.disk.parent)
    ensures r.Ok? ==> parent.disk.dirs == old(parent.disk.dirs)[destination := entries]
    ensures r.Err? ==> exists n: EntryName :: FirstRejected(entries, accept, n)
                                              && parent.disk.dirs == Kept(old(parent.disk), destination, entries, n + 1)
    ensures parent.deleted <= old(parent.deleted) + {staged}
  {
    hide Below, StoppedAndKept, FirstRejected, Kept;
    ghost var before := parent.disk;
    var started := Start(parent, true, reserved, staged, true);
    var attempt := started.value;
    parent.disk := parent.disk.(dirs := parent.disk.dirs[staged := entries]);
    ghost var ready := parent.disk;
    r := attempt.Commit(Honest, Honest, accept, true);
    if r.Err? {
      ghost var bound: EntryName :| StoppedAndKept(ready, parent.disk, staged, destination, accept, bound);
      StoppedLeaves(before, ready, parent.disk, staged, destination, entries, accept, bound);
    }
  }

  lemma StoppedLeaves(before: Disk, ready: Disk, after: Disk, staged: Id, destination: Id, entries: Entries,
                      accept: EntryName -> bool, bound: EntryName)
    requires staged != destination && staged !in before.dirs && destination in before.dirs && before.Empty(destination)
    requires ready.dirs == before.dirs[staged := entries]
    requires StoppedAndKept(ready, after, staged, destination, accept, bound)
    ensures bound > 0 && FirstRejected(entries, accept, bound - 1) && after.dirs == Kept(before, destination, entries, bound)
  {
    hide Below;
    assert before.dirs[staged := entries][destination := Below(entries, bound)] - {staged} ==
           before.dirs[destination := Below(entries, bound)];
  }

  ghost predicate FirstRejected(entries: Entries, accept: EntryName -> bool, n: EntryName) {
    n in entries && !accept(n) && forall m :: m in entries && m < n ==> accept(m)
  }

  function Kept(disk: Disk, destination: Id, entries: Entries, bound: EntryName): map<Id, Entries> {
    disk.dirs[destination := Below(entries, bound)]
  }
}
