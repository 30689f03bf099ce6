/**
The greedy O(ND) line diff.

`Script` says what an edit script from a point of the edit graph to its far corner is, `Reach` says which
points of the UNCLIPPED grid (x may pass |a|, y may pass |b|) can be reached with exactly d edits, and
`Furthest` names the point the search keeps for one diagonal. `Diff` is the search over the mutable
frontier, `Backtrack` the walk that rebuilds the script from the saved frontiers.
*/
module Myers {

  datatype Edit = Equal(a: nat, b: nat) | Delete(a: nat) | Insert(b: nat)

  /** `s` leads from the grid point (x, y) to (|a|, |b|), using every line once, in order. */
  ghost predicate Script<T>(a: seq<T>, b: seq<T>, x: int, y: int, s: seq<Edit>)
    decreases |s|
  {
    if s == [] then x == |a| && y == |b|
    else match s[0]
      case Equal(i, j) =>
        x == i < |a| && y == j < |b| && a[i] == b[j] && Script(a, b, x + 1, y + 1, s[1..])
      case Delete(i) => x == i < |a| && Script(a, b, x + 1, y, s[1..])
      case Insert(j) => y == j < |b| && Script(a, b, x, y + 1, s[1..])
  }

  /** The number of deletions and insertions. */
  function Cost(s: seq<Edit>): nat {
    if s == [] then 0 else (if s[0].Equal? then 0 else 1) + Cost(s[1..])
  }

  /** What a script makes of `a` and `b`: kept lines come from `a`, inserted ones from `b`. */
  ghost function Rebuild<T>(a: seq<T>, b: seq<T>, x: int, y: int, s: seq<Edit>): (r: seq<T>)
    requires Script(a, b, x, y, s)
    decreases |s|
  {
    if s == [] then []
    else match s[0]
      case Equal(i, _) => [a[i]] + Rebuild(a, b, x + 1, y + 1, s[1..])
      case Delete(_) => Rebuild(a, b, x + 1, y, s[1..])
      case Insert(j) => [b[j]] + Rebuild(a, b, x, y + 1, s[1..])
  }

  /** A valid script turns the old sequence into the new one. */
  lemma {:induction false} ScriptRebuildsNew<T>(a: seq<T>, b: seq<T>, x: int, y: int, s: seq<Edit>)
    requires 0 <= y <= |b| && Script(a, b, x, y, s)
    ensures Rebuild(a, b, x, y, s) == b[y..]
    decreases |s|
  {
    if s == [] {
    } else {
      match s[0]
      case Equal(i, j) => ScriptRebuildsNew(a, b, x + 1, y + 1, s[1..]);
      case Delete(i) => ScriptRebuildsNew(a, b, x + 1, y, s[1..]);
      case Insert(j) => ScriptRebuildsNew(a, b, x, y + 1, s[1..]);
    }
  }

  /** The length of a longest common subsequence of a[x..] and b[y..]. */
  ghost function Lcs<T>(a: seq<T>, b: seq<T>, x: nat, y: nat): nat
    requires x <= |a| && y <= |b|
    decreases |a| - x + |b| - y
  {
    if x == |a| || y == |b| then 0
    else if a[x] == b[y] then 1 + Lcs(a, b, x + 1, y + 1)
    else Max(Lcs(a, b, x + 1, y), Lcs(a, b, x, y + 1))
  }

  function Max(i: int, j: int): int { if i < j then j else i }

  /** Dropping the first line of either side costs at most one common line. */
  lemma {:induction false} LcsShrinks<T>(a: seq<T>, b: seq<T>, x: nat, y: nat)
    requires x <= |a| && y <= |b|
    ensures x < |a| ==> Lcs(a, b, x + 1, y) <= Lcs(a, b, x, y) <= 1 + Lcs(a, b, x + 1, y)
    ensures y < |b| ==> Lcs(a, b, x, y + 1) <= Lcs(a, b, x, y) <= 1 + Lcs(a, b, x, y + 1)
    decreases |a| - x + |b| - y
  {
    if x < |a| && y < |b| {
      LcsShrinks(a, b, x + 1, y + 1);
      LcsShrinks(a, b, x + 1, y);
      LcsShrinks(a, b, x, y + 1);
    }
  }

  /** No script is cheaper than the lines outside a longest common subsequence. */
  lemma {:induction false} ScriptCostsAtLeast<T>(a: seq<T>, b: seq<T>, x: nat, y: nat, s: seq<Edit>)
    requires x <= |a| && y <= |b| && Script(a, b, x, y, s)
    ensures Cost(s) >= |a| - x + |b| - y - 2 * Lcs(a, b, x, y)
    decreases |s|
  {
    if s != [] {
      LcsShrinks(a, b, x, y);
      match s[0]
      case Equal(i, j) => ScriptCostsAtLeast(a, b, x + 1, y + 1, s[1..]);
      case Delete(i) => ScriptCostsAtLeast(a, b, x + 1, y, s[1..]);
      case Insert(j) => ScriptCostsAtLeast(a, b, x, y + 1, s[1..]);
    }
  }

  /** A script of that cost exists. */
  lemma {:induction false} LcsScript<T>(a: seq<T>, b: seq<T>, x: nat, y: nat) returns (s: seq<Edit>)
    requires x <= |a| && y <= |b|
    ensures Script(a, b, x, y, s)
    ensures Cost(s) == |a| - x + |b| - y - 2 * Lcs(a, b, x, y)
    decreases |a| - x + |b| - y
  {
    if x == |a| && y == |b| {
      s := [];
    } else if x < |a| && y < |b| && a[x] == b[y] {
      var rest := LcsScript(a, b, x + 1, y + 1);
      s := [Equal(x, y)] + rest;
    } else if y == |b| || (x < |a| && Lcs(a, b, x + 1, y) >= Lcs(a, b, x, y + 1)) {
      var rest := LcsScript(a, b, x + 1, y);
      s := [Delete(x)] + rest;
    } else {
      var rest := LcsScript(a, b, x, y + 1);
      s := [Insert(y)] + rest;
    }
  }

  // ----- Reachability on the unclipped grid -----

  /** (x, y) can be reached from the origin with exactly d edits; matches are free but stay inside the grid. */
  ghost predicate Reach<T>(a: seq<T>, b: seq<T>, d: nat, x: int, y: int)
    decreases d, if x >= 0 then x else 0
  {
    x >= 0 && y >= 0 &&
    ( (d == 0 && x == 0 && y == 0)
      || (d > 0 && Reach(a, b, d - 1, x - 1, y))
      || (d > 0 && Reach(a, b, d - 1, x, y - 1))
      || (Match(a, b, x - 1, y - 1) && Reach(a, b, d, x - 1, y - 1)))
  }

  /** The free diagonal move from (x, y). */
  ghost predicate Match<T>(a: seq<T>, b: seq<T>, x: int, y: int) {
    0 <= x < |a| && 0 <= y < |b| && a[x] == b[y]
  }

  /** x is the largest coordinate on diagonal k that d edits reach. */
  ghost predicate Furthest<T>(a: seq<T>, b: seq<T>, d: nat, k: int, x: int) {
    ReachOn(a, b, d, k, x) && forall x' :: ReachOn(a, b, d, k, x') ==> x' <= x
  }

  /** d edits reach the point of diagonal k whose first coordinate is x. */
  ghost predicate ReachOn<T>(a: seq<T>, b: seq<T>, d: nat, k: int, x: int) {
    Reach(a, b, d, x, x - k)
  }

  lemma MatchIsFree<T>(a: seq<T>, b: seq<T>, d: nat, k: int, x: int)
    requires ReachOn(a, b, d, k, x) && Match(a, b, x, x - k)
    ensures ReachOn(a, b, d, k, x + 1)
  {
  }

  /** d edits only reach diagonals of d's parity between -d and d. */
  lemma {:induction false} ReachDiagonal<T>(a: seq<T>, b: seq<T>, d: nat, x: int, y: int)
    requires Reach(a, b, d, x, y)
    ensures 0 - d <= x - y <= d && (x - y - d) % 2 == 0
    decreases d, x
  {
    if d > 0 && Reach(a, b, d - 1, x - 1, y) {
      ReachDiagonal(a, b, d - 1, x - 1, y);
    } else if d > 0 && Reach(a, b, d - 1, x, y - 1) {
      ReachDiagonal(a, b, d - 1, x, y - 1);
    } else if x != 0 || y != 0 || d != 0 {
      ReachDiagonal(a, b, d, x - 1, y - 1);
    }
  }

  /** Clipping: overshooting an edge wastes edits, so the corner is reached with that many fewer. */
  lemma {:induction false} ClipToCorner<T>(a: seq<T>, b: seq<T>, d: nat, x: int, y: int)
    requires Reach(a, b, d, x, y)
    ensures var px, py := Min(x, |a|), Min(y, |b|);
            x - px + y - py <= d && Reach(a, b, d - (x - px + y - py), px, py)
    decreases d, x
  {
    var px, py := Min(x, |a|), Min(y, |b|);
    if d > 0 && Reach(a, b, d - 1, x - 1, y) {
      ClipToCorner(a, b, d - 1, x - 1, y);
    } else if d > 0 && Reach(a, b, d - 1, x, y - 1) {
      ClipToCorner(a, b, d - 1, x, y - 1);
    } else if x != 0 || y != 0 || d != 0 {
      ClipToCorner(a, b, d, x - 1, y - 1);
    }
  }

  function Min(i: int, j: int): int { if i < j then i else j }

  /** Deleting everything and inserting everything reaches any point. */
  lemma {:induction false} ReachByEditsOnly<T>(a: seq<T>, b: seq<T>, x: nat, y: nat)
    ensures Reach(a, b, x + y, x, y)
    decreases x + y
  {
    if x > 0 {
      ReachByEditsOnly(a, b, x - 1, y);
    } else if y > 0 {
      ReachByEditsOnly(a, b, x, y - 1);
    }
  }

  /** A script from (x, y) extends any path to (x, y) to the corner. */
  lemma {:induction false} ScriptReaches<T>(a: seq<T>, b: seq<T>, d: nat, x: int, y: int, s: seq<Edit>)
    requires Reach(a, b, d, x, y) && Script(a, b, x, y, s)
    ensures Reach(a, b, d + Cost(s), |a|, |b|)
    decreases |s|
  {
    if s != [] {
      match s[0]
      case Equal(i, j) => ScriptReaches(a, b, d, x + 1, y + 1, s[1..]);
      case Delete(i) => ScriptReaches(a, b, d + 1, x + 1, y, s[1..]);
      case Insert(j) => ScriptReaches(a, b, d + 1, x, y + 1, s[1..]);
    }
  }

  // ----- The saved frontiers -----

  /** The entry a frontier holds for diagonal k. */
  function At(v: seq<int>, offset: int, k: int): int
    requires 0 <= k + offset < |v|
  {
    v[k + offset]
  }

  /** Every diagonal of depth e holds its furthest point. */
  ghost predicate Frontier<T>(a: seq<T>, b: seq<T>, v: seq<int>, offset: nat, e: nat) {
    |v| == 2 * offset + 1 && e <= offset &&
    forall k :: OnDepth(k, e) ==> Furthest(a, b, e, k, At(v, offset, k))
  }

  /** The diagonals the search visits at depth d. */
  predicate OnDepth(k: int, d: nat) { 0 - d <= k <= d && (k - d) % 2 == 0 }

  /** The snapshot depth d starts from: the frontier of depth d - 1, or the origin's seed at depth 0. */
  ghost predicate Saved<T>(a: seq<T>, b: seq<T>, v: seq<int>, offset: nat, d: nat) {
    |v| == 2 * offset + 1 && 0 < offset && d <= offset &&
    (if d == 0 then At(v, offset, 1) == 0 else Frontier(a, b, v, offset, d - 1))
  }

  /** Whether depth d extends diagonal k by an insertion (from diagonal k + 1). */
  predicate Downward(v: seq<int>, offset: nat, d: nat, k: int)
    requires |v| == 2 * offset + 1 && 0 < offset && d <= offset && OnDepth(k, d)
  {
    k == 0 - d || (k != d && v[k - 1 + offset] < v[k + 1 + offset])
  }

  /** Where that edit arrives. */
  function Landing(v: seq<int>, offset: nat, d: nat, k: int): int
    requires |v| == 2 * offset + 1 && 0 < offset && d <= offset && OnDepth(k, d)
  {
    if Downward(v, offset, d, k) then v[k + 1 + offset] else v[k - 1 + offset] + 1
  }

  /** The landing point is reachable, and everything beyond it on its diagonal is reached by matches alone. */
  lemma LandingIsTheLastEdit<T>(a: seq<T>, b: seq<T>, v: seq<int>, offset: nat, d: nat, k: int)
    requires Saved(a, b, v, offset, d) && OnDepth(k, d)
    ensures ReachOn(a, b, d, k, Landing(v, offset, d, k))
    ensures d > 0 ==> var k' := if Downward(v, offset, d, k) then k + 1 else k - 1;
                      v[k' + offset] >= 0 && v[k' + offset] - k' >= 0
    ensures forall x :: ReachOn(a, b, d, k, x) && x > Landing(v, offset, d, k) ==>
                          Match(a, b, x - 1, x - 1 - k) && ReachOn(a, b, d, k, x - 1)
  {
    var x0 := Landing(v, offset, d, k);
    if d > 0 {
      if k < d {
        assert OnDepth(k + 1, d - 1) && At(v, offset, k + 1) == v[k + 1 + offset];
      }
      if k > 0 - d {
        assert OnDepth(k - 1, d - 1) && At(v, offset, k - 1) == v[k - 1 + offset];
      }
    }
    forall x | ReachOn(a, b, d, k, x) && x > x0
      ensures Match(a, b, x - 1, x - 1 - k) && ReachOn(a, b, d, k, x - 1)
    {
      if d > 0 && Reach(a, b, d - 1, x - 1, x - k) {
        ReachDiagonal(a, b, d - 1, x - 1, x - k);
        assert ReachOn(a, b, d - 1, k - 1, x - 1);
      } else if d > 0 && Reach(a, b, d - 1, x, x - k - 1) {
        ReachDiagonal(a, b, d - 1, x, x - k - 1);
        assert ReachOn(a, b, d - 1, k + 1, x);
      }
    }
  }

  /** Where the snake from the landing point gets stuck is the furthest point of the diagonal. */
  lemma {:induction false} StuckIsFurthest<T>(a: seq<T>, b: seq<T>, v: seq<int>, offset: nat, d: nat, k: int, x: int)
    requires Saved(a, b, v, offset, d) && OnDepth(k, d)
    requires x >= Landing(v, offset, d, k) && ReachOn(a, b, d, k, x) && !Match(a, b, x, x - k)
    ensures Furthest(a, b, d, k, x)
  {
    forall x' | ReachOn(a, b, d, k, x') ensures x' <= x {
      NothingBeyondStuck(a, b, v, offset, d, k, x, x');
    }
  }

  lemma {:induction false} NothingBeyondStuck<T>(a: seq<T>, b: seq<T>, v: seq<int>, offset: nat, d: nat, k: int,
                                                 x: int, x': int)
    requires Saved(a, b, v, offset, d) && OnDepth(k, d)
    requires x >= Landing(v, offset, d, k) && !Match(a, b, x, x - k) && ReachOn(a, b, d, k, x')
    ensures x' <= x
    decreases x'
  {
    LandingIsTheLastEdit(a, b, v, offset, d, k);
    if x' > x {
      NothingBeyondStuck(a, b, v, offset, d, k, x, x' - 1);
    }
  }

  /** Depth d has handled the diagonals below k: they are furthest and short of the corner; the others are as saved. */
  ghost predicate RowSoFar<T>(a: seq<T>, b: seq<T>, row: seq<int>, saved: seq<int>, offset: nat, d: nat, k: int) {
    Saved(a, b, saved, offset, d) && |row| == |saved| &&
    (forall j :: (j - d) % 2 != 0 && 0 <= j + offset < |row| ==>
      At(row, offset, j) == At(saved, offset, j)) &&
    (forall j :: OnDepth(j, d) && j < k ==>
      Furthest(a, b, d, j, At(row, offset, j)) && Short(a, b, j, At(row, offset, j)))
  }

  /** The exit test fails at coordinate x of diagonal k. */
  predicate Short<T>(a: seq<T>, b: seq<T>, k: int, x: int) { x < |a| || x - k < |b| }

  lemma RowReadsSaved<T>(a: seq<T>, b: seq<T>, row: seq<int>, saved: seq<int>, offset: nat, d: nat, k: int)
    requires RowSoFar(a, b, row, saved, offset, d, k) && OnDepth(k, d)
    ensures Landing(row, offset, d, k) == Landing(saved, offset, d, k)
  {
    if k < d || d == 0 { assert At(row, offset, k + 1) == At(saved, offset, k + 1); }
    if k > 0 - d { assert At(row, offset, k - 1) == At(saved, offset, k - 1); }
  }

  lemma RowExtends<T>(a: seq<T>, b: seq<T>, row: seq<int>, saved: seq<int>, offset: nat, d: nat, k: int, x: int)
    requires RowSoFar(a, b, row, saved, offset, d, k) && OnDepth(k, d)
    requires Furthest(a, b, d, k, x) && Short(a, b, k, x)
    ensures RowSoFar(a, b, row[k + offset := x], saved, offset, d, k + 2)
  {
    var row' := row[k + offset := x];
    forall j | 0 <= j + offset < |row| && j != k ensures At(row', offset, j) == At(row, offset, j) {}
    assert At(row', offset, k) == x;
  }

  /** A finished row is the frontier of its depth, and the corner is out of reach of that depth. */
  lemma RowCompletes<T>(a: seq<T>, b: seq<T>, row: seq<int>, saved: seq<int>, offset: nat, d: nat, k: int)
    requires RowSoFar(a, b, row, saved, offset, d, k) && k > d
    ensures Frontier(a, b, row, offset, d)
    ensures !Reach(a, b, d, |a|, |b|)
  {
    if Reach(a, b, d, |a|, |b|) {
      ReachDiagonal(a, b, d, |a|, |b|);
      assert OnDepth(|a| - |b|, d) && ReachOn(a, b, d, |a| - |b|, |a|);
      assert false;
    }
  }

  // ----- The algorithm -----

  /** Extend every diagonal of depth d by one edit and its snake, stopping as soon as the corner is reached. */
  method SearchDepth<T(==)>(a: seq<T>, b: seq<T>, v: array<int>, offset: nat, d: nat) returns (fired: bool)
    requires Saved(a, b, v[..], offset, d)
    requires forall e: nat :: e < d ==> !Reach(a, b, e, |a|, |b|)
    modifies v
    ensures fired ==> Furthest(a, b, d, |a| - |b|, |a|)
    ensures !fired ==> Frontier(a, b, v[..], offset, d) && !Reach(a, b, d, |a|, |b|)
  {
    var n, m := |a|, |b|;
    ghost var saved := v[..];
    var k := 0 - d;
    while k <= d
      invariant 0 - d <= k <= d + 2 && (k - d) % 2 == 0
      invariant RowSoFar(a, b, v[..], saved, offset, d, k)
    {
      ghost var row := v[..];
      assert OnDepth(k, d);
      RowReadsSaved(a, b, row, saved, offset, d, k);
      var x := if k == 0 - d || (k != d && v[k - 1 + offset] < v[k + 1 + offset])
               then v[k + 1 + offset] else v[k - 1 + offset] + 1;
      var y := x - k;
      LandingIsTheLastEdit(a, b, saved, offset, d, k);
      while x < n && y < m && a[x] == b[y]
        invariant y == x - k && x >= Landing(saved, offset, d, k) && ReachOn(a, b, d, k, x)
        invariant v[..] == row
      {
        MatchIsFree(a, b, d, k, x);
        x := x + 1;
        y := y + 1;
      }
      StuckIsFurthest(a, b, saved, offset, d, k, x);
      v[k + offset] := x;
      assert v[..] == row[k + offset := x];
      if x >= n && y >= m {
        FiresAtTheCorner(a, b, d, x, y);
        return true;
      }
      RowExtends(a, b, row, saved, offset, d, k, x);
      k := k + 2;
    }
    RowCompletes(a, b, v[..], saved, offset, d, k);
    return false;
  }

  /** The shortest edit script turning `a` into `b`. */
  method Diff<T(==)>(a: seq<T>, b: seq<T>) returns (edits: seq<Edit>)
    ensures Script(a, b, 0, 0, edits)
    ensures forall s :: Script(a, b, 0, 0, s) ==> Cost(edits) <= Cost(s)
    ensures Cost(edits) == |a| + |b| - 2 * Lcs(a, b, 0, 0)
    ensures Rebuild(a, b, 0, 0, edits) == b
    ensures DeletesFirst(edits)
  {
    if |a| == 0 && |b| == 0 {
      return [];
    }
    var n, m := |a|, |b|;
    var max := n + m;
    var offset := max;
    var width := 2 * max + 1;
    var v := new int[width](_ => 0);
    var trace: seq<seq<int>> := [];
    var d, fired := 0, false;
    while d <= max && !fired
      invariant 0 <= d <= max + 1 && |trace| == if fired then d + 1 else d
      invariant d <= max && !fired ==> Saved(a, b, v[..], offset, d)
      invariant forall e: nat :: e < |trace| ==> Saved(a, b, trace[e], offset, e)
      invariant forall e: nat :: e < d ==> !Reach(a, b, e, n, m)
      invariant fired ==> Furthest(a, b, d, n - m, n)
      decreases max - d, !fired
    {
      trace := trace + [v[..]];
      fired := SearchDepth(a, b, v, offset, d);
      if !fired {
        d := d + 1;
      }
    }
    if !fired {
      ReachByEditsOnly(a, b, n, m);
      assert false;
    }
    edits := Backtrack(a, b, trace, d, offset);
    forall s | Script(a, b, 0, 0, s) ensures Cost(edits) <= Cost(s) {
      ScriptReaches(a, b, 0, 0, 0, s);
    }
    ghost var best := LcsScript(a, b, 0, 0);
    ScriptCostsAtLeast(a, b, 0, 0, edits);
    ScriptRebuildsNew(a, b, 0, 0, edits);
  }

  /** The exit test first holds exactly at the corner, although frontier points may lie past either edge. */
  lemma FiresAtTheCorner<T>(a: seq<T>, b: seq<T>, d: nat, x: int, y: int)
    requires Reach(a, b, d, x, y) && x >= |a| && y >= |b|
    requires forall e: nat :: e < d ==> !Reach(a, b, e, |a|, |b|)
    ensures x == |a| && y == |b|
  {
    ClipToCorner(a, b, d, x, y);
  }

  function Reversed(s: seq<Edit>): seq<Edit> {
    if s == [] then [] else [s[|s| - 1]] + Reversed(s[..|s| - 1])
  }

  /** The edits collected so far, back to front, lead from (x, y) to the corner at this cost. */
  ghost predicate Suffix<T>(a: seq<T>, b: seq<T>, x: int, y: int, edits: seq<Edit>, cost: int) {
    x <= |a| && y <= |b| && Script(a, b, x, y, Reversed(edits)) && Cost(Reversed(edits)) == cost
  }

  lemma PushEqual<T>(a: seq<T>, b: seq<T>, x: int, y: int, edits: seq<Edit>, cost: int)
    requires Suffix(a, b, x, y, edits, cost) && Match(a, b, x - 1, y - 1)
    ensures Suffix(a, b, x - 1, y - 1, edits + [Equal(x - 1, y - 1)], cost)
  {
    assert Reversed(edits + [Equal(x - 1, y - 1)]) == [Equal(x - 1, y - 1)] + Reversed(edits);
  }

  /** The edit between two neighbouring grid points: an insertion when x stays, a deletion otherwise. */
  lemma PushEdit<T>(a: seq<T>, b: seq<T>, x: int, y: int, edits: seq<Edit>, cost: int, prevX: nat, prevY: nat)
    requires Suffix(a, b, x, y, edits, cost)
    requires (prevX == x && prevY == y - 1) || (prevX == x - 1 && prevY == y)
    ensures prevX == x ==> Suffix(a, b, prevX, prevY, edits + [Insert(prevY)], cost + 1)
    ensures prevX != x ==> Suffix(a, b, prevX, prevY, edits + [Delete(prevX)], cost + 1)
  {
    assert Reversed(edits + [Insert(prevY)]) == [Insert(prevY)] + Reversed(edits);
    assert Reversed(edits + [Delete(prevX)]) == [Delete(prevX)] + Reversed(edits);
  }

  /** Every step of diagonal k from lo up to hi is a free match. */
  ghost predicate Snake<T>(a: seq<T>, b: seq<T>, k: int, lo: int, hi: int)
    decreases hi - lo
  {
    lo == hi || (lo < hi && Match(a, b, hi - 1, hi - 1 - k) && Snake(a, b, k, lo, hi - 1))
  }

  lemma {:induction false} SnakeFromLanding<T>(a: seq<T>, b: seq<T>, v: seq<int>, offset: nat, d: nat, k: int, x: int)
    requires Saved(a, b, v, offset, d) && OnDepth(k, d)
    requires ReachOn(a, b, d, k, x) && x >= Landing(v, offset, d, k)
    ensures Snake(a, b, k, Landing(v, offset, d, k), x)
    decreases x - Landing(v, offset, d, k)
  {
    LandingIsTheLastEdit(a, b, v, offset, d, k);
    if x > Landing(v, offset, d, k) {
      SnakeFromLanding(a, b, v, offset, d, k, x - 1);
    }
  }

  /** The saved frontier determines the edit and the snake that led to a furthest point. */
  lemma EditAndSnakeBehind<T>(a: seq<T>, b: seq<T>, v: seq<int>, offset: nat, d: nat, x: int, y: int)
    requires Saved(a, b, v, offset, d) && Furthest(a, b, d, x - y, x)
    ensures OnDepth(x - y, d) && |v| == 2 * offset + 1 && 0 < offset && d <= offset
    ensures Snake(a, b, x - y, Landing(v, offset, d, x - y), x)
    ensures d == 0 ==> x == y && Landing(v, offset, 0, 0) == 0
    ensures d > 0 ==> var k' := if Downward(v, offset, d, x - y) then x - y + 1 else x - y - 1;
                      Furthest(a, b, d - 1, k', v[k' + offset]) && v[k' + offset] >= 0 && v[k' + offset] - k' >= 0
  {
    ReachDiagonal(a, b, d, x, y);
    var k := x - y;
    LandingIsTheLastEdit(a, b, v, offset, d, k);
    assert ReachOn(a, b, d, k, Landing(v, offset, d, k));
    SnakeFromLanding(a, b, v, offset, d, k, x);
    var k' := if Downward(v, offset, d, k) then k + 1 else k - 1;
    if d > 0 {
      assert OnDepth(k', d - 1) && At(v, offset, k') == v[k' + offset];
    }
  }

  /** Collected back to front: no insertion right behind a deletion, so none right before one in the script. */
  ghost predicate Tidy(edits: seq<Edit>) {
    forall i :: 0 <= i < |edits| - 1 && edits[i].Delete? ==> !edits[i + 1].Insert?
  }

  /** In the script: where lines are replaced, deletions come first. */
  ghost predicate DeletesFirst(s: seq<Edit>) {
    forall i :: 0 <= i < |s| - 1 && s[i].Insert? ==> !s[i + 1].Delete?
  }

  lemma {:induction false} ReversedAt(s: seq<Edit>, i: nat)
    requires i < |s|
    ensures |Reversed(s)| == |s| && Reversed(s)[i] == s[|s| - 1 - i]
  {
    if i > 0 { ReversedAt(s[..|s| - 1], i - 1); } else { ReversedLength(s[..|s| - 1]); }
  }

  lemma {:induction false} ReversedLength(s: seq<Edit>)
    ensures |Reversed(s)| == |s|
  {
    if s != [] { ReversedLength(s[..|s| - 1]); }
  }

  lemma ReversedTidy(s: seq<Edit>)
    requires Tidy(s)
    ensures DeletesFirst(Reversed(s))
  {
    ReversedLength(s);
    forall i | 0 <= i < |s| - 1 && Reversed(s)[i].Insert? ensures !Reversed(s)[i + 1].Delete? {
      ReversedAt(s, i);
      ReversedAt(s, i + 1);
      var j := |s| - 2 - i;
      assert s[j + 1].Insert? ==> !s[j].Delete?;
    }
  }

  /** A deletion at depth d + 1 is not preceded directly by an insertion at depth d: the search would have gone on from the diagonal above. */
  lemma NoInsertionBehind<T>(a: seq<T>, b: seq<T>, v: seq<int>, w: seq<int>, offset: nat, d: nat, k: int)
    requires d > 0 && Saved(a, b, v, offset, d) && Saved(a, b, w, offset, d + 1) && OnDepth(k, d)
    requires OnDepth(k + 1, d + 1) && !Downward(w, offset, d + 1, k + 1)
    requires Downward(v, offset, d, k)
    ensures w[k + offset] > v[k + 1 + offset]
  {
    if k < d {
      var x := v[k + 1 + offset];
      assert OnDepth(k + 1, d - 1) && At(v, offset, k + 1) == x;
      assert Reach(a, b, d - 1, x, x - k - 1);
      assert Reach(a, b, d, x + 1, x - k - 1) && ReachOn(a, b, d, k + 2, x + 1);
      assert OnDepth(k + 2, d) && At(w, offset, k + 2) >= x + 1;
    }
  }

  /** The last collected edit was a deletion from (x, y), chosen at depth d + 1. */
  ghost predicate Deleted(w: seq<int>, offset: nat, d: nat, x: int, y: int) {
    |w| == 2 * offset + 1 && 0 < offset && d + 1 <= offset && OnDepth(x - y + 1, d + 1)
    && !Downward(w, offset, d + 1, x - y + 1) && w[x - y + offset] == x
  }

  lemma BehindDeletion<T>(a: seq<T>, b: seq<T>, v: seq<int>, w: seq<int>, offset: nat, d: nat, x: int, y: int)
    requires d > 0 && Saved(a, b, v, offset, d) && Saved(a, b, w, offset, d + 1) && OnDepth(x - y, d)
    requires Deleted(w, offset, d, x, y)
    ensures Downward(v, offset, d, x - y) ==> v[x - y + 1 + offset] != x
  {
    if Downward(v, offset, d, x - y) { NoInsertionBehind(a, b, v, w, offset, d, x - y); }
  }

  lemma PushTidy(edits: seq<Edit>, e: Edit)
    requires Tidy(edits) && (edits != [] && edits[|edits| - 1].Delete? ==> !e.Insert?)
    ensures Tidy(edits + [e])
  {
  }

  /** Collect the matches of a snake until its landing point, where one coordinate meets the previous frontier. */
  method PopSnake<T>(a: seq<T>, b: seq<T>, fromX: int, fromY: int, prevX: int, prevY: int, collected: seq<Edit>,
                     ghost landing: int, ghost cost: int) returns (edits: seq<Edit>, x: int, y: int)
    requires Suffix(a, b, fromX, fromY, collected, cost)
    requires Snake(a, b, fromX - fromY, landing, fromX)
    requires landing >= prevX && landing - (fromX - fromY) >= prevY
    requires landing == prevX || landing - (fromX - fromY) == prevY
    ensures x == landing && x - y == fromX - fromY && Suffix(a, b, x, y, edits, cost)
    ensures Tidy(collected) ==> Tidy(edits)
    ensures (edits == collected && x == fromX) || (edits != [] && edits[|edits| - 1].Equal?)
  {
    edits, x, y := collected, fromX, fromY;
    while x > prevX && y > prevY
      invariant x - y == fromX - fromY && Snake(a, b, x - y, landing, x) && Suffix(a, b, x, y, edits, cost)
      invariant Tidy(collected) ==> Tidy(edits)
      invariant (edits == collected && x == fromX) || (edits != [] && edits[|edits| - 1].Equal?)
    {
      PushEqual(a, b, x, y, edits, cost);
      edits := edits + [Equal(x - 1, y - 1)];
      x, y := x - 1, y - 1;
    }
  }

  lemma SuffixIsScript<T>(a: seq<T>, b: seq<T>, x: int, y: int, edits: seq<Edit>, cost: int)
    requires Suffix(a, b, x, y, edits, cost)
    ensures Script(a, b, x, y, Reversed(edits)) && Cost(Reversed(edits)) == cost
  {
  }

  lemma NothingCollected<T>(a: seq<T>, b: seq<T>)
    ensures Suffix(a, b, |a|, |b|, [], 0) && Tidy([])
  {
  }

  /** Walk the saved frontiers backwards from the corner. */
  method Backtrack<T>(a: seq<T>, b: seq<T>, trace: seq<seq<int>>, depth: nat, offset: nat) returns (edits: seq<Edit>)
    requires depth < |trace|
    requires forall e: nat :: e <= depth ==> Saved(a, b, trace[e], offset, e)
    requires Furthest(a, b, depth, |a| - |b|, |a|)
    ensures Script(a, b, 0, 0, edits) && Cost(edits) == depth
    ensures DeletesFirst(edits)
  {
    hide Furthest, Suffix, Tidy, Saved, DeletesFirst, Snake;
    assert Suffix(a, b, |a|, |b|, [], 0) && Tidy([]) by { NothingCollected(a, b); }
    edits := [];
    var x, y := |a|, |b|;
    for d := depth + 1 downto 0
      invariant d > 0 ==> Furthest(a, b, d - 1, x - y, x) && Suffix(a, b, x, y, edits, depth + 1 - d)
      invariant d == 0 ==> Suffix(a, b, 0, 0, edits, depth)
      invariant Tidy(edits)
      invariant d > 0 && edits != [] && edits[|edits| - 1].Delete? ==> d <= depth && Deleted(trace[d], offset, d - 1, x, y)
    {
      var v := trace[d];
      var k := x - y;
      EditAndSnakeBehind(a, b, v, offset, d, x, y);
      ghost var landing := Landing(v, offset, d, k);
      var prevK := if k == 0 - d || (k != d && v[k - 1 + offset] < v[k + 1 + offset]) then k + 1 else k - 1;
      var prevX := v[prevK + offset];
      var prevY := prevX - prevK;
      if d > 0 && edits != [] && edits[|edits| - 1].Delete? { BehindDeletion(a, b, v, trace[d + 1], offset, d, x, y); }
      edits, x, y := PopSnake(a, b, x, y, prevX, prevY, edits, landing, depth - d);
      if d > 0 {
        PushEdit(a, b, x, y, edits, depth - d, prevX, prevY);
        PushTidy(edits, if x == prevX then Insert(prevY) else Delete(prevX));
        if x == prevX {
          edits := edits + [Insert(prevY)];
        } else {
          edits := edits + [Delete(prevX)];
        }
      }
      x, y := prevX, prevY;
    }
    ReversedTidy(edits);
    SuffixIsScript(a, b, 0, 0, edits, depth);
    edits := Reversed(edits);
  }
}
