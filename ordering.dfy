/**
 * The registry's editing operations as functions of the collection and the
 * order lists: moving a record inside its (category, subcategory) group,
 * moving a category or subcategory entry in its order list, the add/edit
 * form, and delete.
 */
module Ordering {
  import opened Text
  import opened Record

  /** The two move buttons. */
  datatype Direction = Up | Down

  /** `[xs[i], xs[j]] = [xs[j], xs[i]]`. */
  function Swap<T>(xs: seq<T>, i: nat, j: nat): (r: seq<T>)
    requires i < |xs| && j < |xs|
    ensures |r| == |xs| && r[i] == xs[j] && r[j] == xs[i]
    ensures forall p :: 0 <= p < |xs| && p != i && p != j ==> r[p] == xs[p]
  {
    xs[i := xs[j]][j := xs[i]]
  }

  lemma SwapMultiset<T>(xs: seq<T>, i: nat, j: nat)
    requires i < |xs| && j < |xs|
    ensures multiset(Swap(xs, i, j)) == multiset(xs)
  {
  }

  lemma SwapBack<T>(xs: seq<T>, i: nat, j: nat)
    requires i < |xs| && j < |xs|
    ensures Swap(Swap(xs, i, j), j, i) == xs
  {
  }

  lemma SwapUniqueIds(stds: seq<Standard>, i: nat, j: nat)
    requires i < |stds| && j < |stds| && UniqueIds(stds)
    ensures UniqueIds(Swap(stds, i, j))
  {
    var r := Swap(stds, i, j);
    forall a, b | 0 <= a < b < |r| ensures r[a].id != r[b].id {
      var a' := if a == i then j else if a == j then i else a;
      var b' := if b == i then j else if b == j then i else b;
      assert r[a] == stds[a'] && r[b] == stds[b'] && a' != b';
    }
  }

  // ---------------------------------------------------------------------
  // moveStandard
  // ---------------------------------------------------------------------

  /** Two records are drawn in the same subcategory block. */
  predicate SameGroup(a: Standard, b: Standard) {
    CategoryKey(a) == CategoryKey(b) && SubcategoryKey(a) == SubcategoryKey(b)
  }

  /** `moveStandard(id, direction)`: the target is found by id, its group is
      every record drawn in the same subcategory block. */
  function MovedStandard(stds: seq<Standard>, id: string, dir: Direction): (r: seq<Standard>)
    ensures |r| == |stds|
  {
    var m := FindIndex(stds, id);
    if m == -1 then stds
    else SwapInGroup(stds, id, GroupItems(stds, CategoryKey(stds[m]), SubcategoryKey(stds[m])), dir)
  }

  /** The target's neighbour in `group` in direction `dir`, unless the target
      is first (up) or last (down), swapped with the target by their
      positions in the whole collection, both found by id. */
  function SwapInGroup(stds: seq<Standard>, id: string, group: seq<Standard>, dir: Direction): (r: seq<Standard>)
    requires FindIndex(stds, id) != -1
    requires forall s :: s in group ==> s in stds
    ensures |r| == |stds|
  {
    var si := FindIndex(group, id);
    if si == -1 then stds
    else if dir.Up? && si == 0 then stds
    else if dir.Down? && si == |group| - 1 then stds
    else
      var swapStd := group[if dir.Up? then si - 1 else si + 1];
      assert swapStd in stds;
      Swap(stds, FindIndex(stds, id), FindIndex(stds, swapStd.id))
  }

  /** The positions of the group's records in the collection. */
  function Positions(stds: seq<Standard>, c: string, k: string): seq<nat> {
    if stds == [] then []
    else
      var n := |stds| - 1;
      Positions(stds[..n], c, k) + (if CategoryKey(stds[n]) == c && SubcategoryKey(stds[n]) == k then [n] else [])
  }

  /** The group's records sit at strictly increasing positions, and every
      record of the group is at one of them. */
  predicate PositionsOf(stds: seq<Standard>, c: string, k: string, ps: seq<nat>) {
    && |ps| == |GroupItems(stds, c, k)|
    && (forall i :: 0 <= i < |ps| ==> ps[i] < |stds| && stds[ps[i]] == GroupItems(stds, c, k)[i])
    && (forall i, j :: 0 <= i < j < |ps| ==> ps[i] < ps[j])
    && (forall p :: 0 <= p < |stds| && CategoryKey(stds[p]) == c && SubcategoryKey(stds[p]) == k ==> p in ps)
  }

  lemma {:induction false} PositionsIncreasing(stds: seq<Standard>, c: string, k: string)
    ensures forall i :: 0 <= i < |Positions(stds, c, k)| ==> Positions(stds, c, k)[i] < |stds|
    ensures forall i, j :: 0 <= i < j < |Positions(stds, c, k)| ==> Positions(stds, c, k)[i] < Positions(stds, c, k)[j]
  {
    if stds != [] {
      var n := |stds| - 1;
      PositionsIncreasing(stds[..n], c, k);
      var pp := Positions(stds[..n], c, k);
      var ps := Positions(stds, c, k);
      assert |stds[..n]| == n;
      assert forall i :: 0 <= i < |pp| ==> pp[i] < n;
      assert ps == pp + (if CategoryKey(stds[n]) == c && SubcategoryKey(stds[n]) == k then [n] else []);
      forall i, j | 0 <= i < j < |ps| ensures ps[i] < ps[j] {
        if j < |pp| {
          assert ps[i] == pp[i] && ps[j] == pp[j];
        } else {
          assert ps[i] == pp[i] && ps[j] == n;
        }
      }
    }
  }

  lemma {:induction false} PositionsItems(stds: seq<Standard>, c: string, k: string)
    ensures var ps := Positions(stds, c, k);
            |ps| == |GroupItems(stds, c, k)| &&
            forall i :: 0 <= i < |ps| ==> ps[i] < |stds| && stds[ps[i]] == GroupItems(stds, c, k)[i]
  {
    if stds != [] {
      var n := |stds| - 1;
      var p := stds[..n];
      PositionsItems(p, c, k);
      PositionsIncreasing(p, c, k);
      var pp := Positions(p, c, k);
      var gp := GroupItems(p, c, k);
      forall i | 0 <= i < |pp| ensures stds[pp[i]] == gp[i] {
        assert stds[pp[i]] == p[pp[i]];
      }
    }
  }

  lemma {:induction false} PositionsComplete(stds: seq<Standard>, c: string, k: string)
    ensures forall p :: 0 <= p < |stds| && CategoryKey(stds[p]) == c && SubcategoryKey(stds[p]) == k ==>
              p in Positions(stds, c, k)
  {
    if stds != [] {
      var n := |stds| - 1;
      var p := stds[..n];
      PositionsComplete(p, c, k);
      forall q | 0 <= q < n && CategoryKey(stds[q]) == c && SubcategoryKey(stds[q]) == k
        ensures q in Positions(stds, c, k)
      {
        assert p[q] == stds[q];
      }
    }
  }

  lemma PositionsFacts(stds: seq<Standard>, c: string, k: string)
    ensures PositionsOf(stds, c, k, Positions(stds, c, k))
  {
    PositionsIncreasing(stds, c, k);
    PositionsItems(stds, c, k);
    PositionsComplete(stds, c, k);
  }

  predicate Toward(dir: Direction, m: int, p: int) {
    if dir.Up? then p < m else m < p
  }

  predicate Between(m: int, n: int, p: int) {
    (m < p < n) || (n < p < m)
  }

  /** `n` is the nearest record of `stds[m]`'s group in direction `dir`. */
  predicate Nearest(stds: seq<Standard>, m: nat, dir: Direction, n: int)
    requires m < |stds|
  {
    0 <= n < |stds| && Toward(dir, m, n) && SameGroup(stds[n], stds[m]) &&
    forall p :: 0 <= p < |stds| && Between(m, n, p) ==> !SameGroup(stds[p], stds[m])
  }

  /** There is at most one nearest neighbour. */
  lemma NearestUnique(stds: seq<Standard>, m: nat, dir: Direction, n1: int, n2: int)
    requires m < |stds| && Nearest(stds, m, dir, n1) && Nearest(stds, m, dir, n2)
    ensures n1 == n2
  {
  }

  lemma {:induction false} FindIndexAt(stds: seq<Standard>, id: string, i: nat)
    requires i < |stds| && stds[i].id == id
    requires forall q :: 0 <= q < i ==> stds[q].id != id
    ensures FindIndex(stds, id) == i
  {
    if i > 0 {
      FindIndexAt(stds[1..], id, i - 1);
    }
  }

  lemma {:induction false} IndexOfAt(xs: seq<string>, x: string, i: nat)
    requires i < |xs| && xs[i] == x
    requires forall q :: 0 <= q < i ==> xs[q] != x
    ensures IndexOf(xs, x) == i
  {
    if i > 0 {
      IndexOfAt(xs[1..], x, i - 1);
    }
  }

  /** The target's place in its group. */
  lemma TargetInGroup(stds: seq<Standard>, id: string) returns (si: nat)
    requires UniqueIds(stds) && FindIndex(stds, id) != -1
    ensures var m := FindIndex(stds, id);
            var ps := Positions(stds, CategoryKey(stds[m]), SubcategoryKey(stds[m]));
            si < |ps| && ps[si] == m &&
            FindIndex(GroupItems(stds, CategoryKey(stds[m]), SubcategoryKey(stds[m])), id) == si
  {
    var m := FindIndex(stds, id);
    var c, k := CategoryKey(stds[m]), SubcategoryKey(stds[m]);
    var ps := Positions(stds, c, k);
    var group := GroupItems(stds, c, k);
    PositionsFacts(stds, c, k);
    assert m in ps;
    si :| 0 <= si < |ps| && ps[si] == m;
    assert group[si].id == id;
    forall i | 0 <= i < si ensures group[i].id != id {
      assert ps[i] < ps[si];
      assert stds[ps[i]].id != stds[m].id;
    }
    FindIndexAt(group, id, si);
  }

  predicate AtBoundary(dir: Direction, si: int, size: int) {
    (dir.Up? && si == 0) || (dir.Down? && si == size - 1)
  }

  /** At the boundary of its group nothing of the group lies beyond the
      target. */
  lemma NoneToward(stds: seq<Standard>, m: nat, dir: Direction, ps: seq<nat>, si: nat)
    requires m < |stds|
    requires PositionsOf(stds, CategoryKey(stds[m]), SubcategoryKey(stds[m]), ps)
    requires si < |ps| && ps[si] == m && AtBoundary(dir, si, |ps|)
    ensures forall p :: 0 <= p < |stds| && Toward(dir, m, p) ==> !SameGroup(stds[p], stds[m])
  {
    assert forall i :: 0 <= i < |ps| ==> !Toward(dir, m, ps[i]) by {
      forall i | 0 <= i < |ps| ensures !Toward(dir, m, ps[i]) {
        assert i == si || (i < si && ps[i] < ps[si]) || (si < i && ps[si] < ps[i]);
      }
    }
  }

  /** Inside its group, the next position of the group is the nearest
      record of the group in that direction. */
  lemma NearestAt(stds: seq<Standard>, m: nat, dir: Direction, ps: seq<nat>, si: nat)
    requires m < |stds|
    requires PositionsOf(stds, CategoryKey(stds[m]), SubcategoryKey(stds[m]), ps)
    requires si < |ps| && ps[si] == m && !AtBoundary(dir, si, |ps|)
    ensures Nearest(stds, m, dir, ps[if dir.Up? then si - 1 else si + 1])
  {
    var c, k := CategoryKey(stds[m]), SubcategoryKey(stds[m]);
    var j := if dir.Up? then si - 1 else si + 1;
    var n := ps[j];
    assert stds[n] == GroupItems(stds, c, k)[j];
    assert stds[n] in GroupItems(stds, c, k);
    forall i | 0 <= i < |ps| ensures !Between(m, n, ps[i]) {
      assert i == si || i == j || (i < si && i < j && ps[i] < ps[si] && ps[i] < ps[j]) ||
             (i > si && i > j && ps[i] > ps[si] && ps[i] > ps[j]);
    }
  }

  /** At the boundary of its group the target does not move. */
  lemma MovedAtBoundary(stds: seq<Standard>, id: string, dir: Direction, si: nat)
    requires FindIndex(stds, id) != -1
    requires var m := FindIndex(stds, id);
             var group := GroupItems(stds, CategoryKey(stds[m]), SubcategoryKey(stds[m]));
             FindIndex(group, id) == si && AtBoundary(dir, si, |group|)
    ensures MovedStandard(stds, id, dir) == stds
  {
  }

  /** Inside its group the target is swapped with its neighbour in the
      group, found by id. */
  lemma MovedInside(stds: seq<Standard>, id: string, dir: Direction, si: nat)
    requires FindIndex(stds, id) != -1
    requires var m := FindIndex(stds, id);
             var group := GroupItems(stds, CategoryKey(stds[m]), SubcategoryKey(stds[m]));
             si < |group| && FindIndex(group, id) == si && !AtBoundary(dir, si, |group|)
    ensures var m := FindIndex(stds, id);
            var group := GroupItems(stds, CategoryKey(stds[m]), SubcategoryKey(stds[m]));
            var s := group[if dir.Up? then si - 1 else si + 1];
            FindIndex(stds, s.id) != -1 && MovedStandard(stds, id, dir) == Swap(stds, m, FindIndex(stds, s.id))
  {
    var m := FindIndex(stds, id);
    var group := GroupItems(stds, CategoryKey(stds[m]), SubcategoryKey(stds[m]));
    var s := group[if dir.Up? then si - 1 else si + 1];
    assert s in stds;
  }

  /** What moveStandard does with a known id: it is a no-op exactly when no
      record of the target's group lies in that direction; otherwise it
      swaps the target with the nearest one. */
  lemma MovedStandardCases(stds: seq<Standard>, id: string, dir: Direction) returns (n: int)
    requires UniqueIds(stds) && FindIndex(stds, id) != -1
    ensures var m := FindIndex(stds, id);
            && (n == -1 <==> forall p :: 0 <= p < |stds| && Toward(dir, m, p) ==> !SameGroup(stds[p], stds[m]))
            && (n == -1 ==> MovedStandard(stds, id, dir) == stds)
            && (n != -1 ==> Nearest(stds, m, dir, n) && MovedStandard(stds, id, dir) == Swap(stds, m, n))
  {
    var m := FindIndex(stds, id);
    var c, k := CategoryKey(stds[m]), SubcategoryKey(stds[m]);
    var ps := Positions(stds, c, k);
    var group := GroupItems(stds, c, k);
    PositionsFacts(stds, c, k);
    var si := TargetInGroup(stds, id);
    if AtBoundary(dir, si, |ps|) {
      n := -1;
      NoneToward(stds, m, dir, ps, si);
      MovedAtBoundary(stds, id, dir, si);
    } else {
      var j := if dir.Up? then si - 1 else si + 1;
      n := ps[j];
      NearestAt(stds, m, dir, ps, si);
      assert stds[n] == group[j];
      forall q | 0 <= q < n ensures stds[q].id != stds[n].id {
      }
      FindIndexAt(stds, stds[n].id, n);
      MovedInside(stds, id, dir, si);
      assert Toward(dir, m, n) && SameGroup(stds[n], stds[m]);
    }
  }

  /** moveStandard as a specification: a no-op when nothing of the group
      lies in that direction, and otherwise the swap with the nearest
      record of the group (any record nearest in that direction). */
  lemma MovedStandardSpec(stds: seq<Standard>, id: string, dir: Direction, n: int)
    requires UniqueIds(stds) && FindIndex(stds, id) != -1
    ensures var m := FindIndex(stds, id);
            (forall p :: 0 <= p < |stds| && Toward(dir, m, p) ==> !SameGroup(stds[p], stds[m])) ==>
              MovedStandard(stds, id, dir) == stds
    ensures var m := FindIndex(stds, id);
            Nearest(stds, m, dir, n) ==> MovedStandard(stds, id, dir) == Swap(stds, m, n)
  {
    var m := FindIndex(stds, id);
    var n' := MovedStandardCases(stds, id, dir);
    if Nearest(stds, m, dir, n) {
      assert n' != -1 by {
        assert Toward(dir, m, n) && SameGroup(stds[n], stds[m]);
      }
      NearestUnique(stds, m, dir, n, n');
    }
  }

  /** moveStandard permutes the collection and does nothing for an unknown
      id; which positions it changes is stated by `MovedStandardCases` and
      `MovedStandardLocal`. */
  lemma MovedStandardPermutes(stds: seq<Standard>, id: string, dir: Direction)
    ensures multiset(MovedStandard(stds, id, dir)) == multiset(stds)
    ensures FindIndex(stds, id) == -1 ==> MovedStandard(stds, id, dir) == stds
  {
    var m := FindIndex(stds, id);
    if m != -1 {
      var group := GroupItems(stds, CategoryKey(stds[m]), SubcategoryKey(stds[m]));
      SwapInGroupPermutes(stds, id, group, dir);
    }
  }

  /** A move touches only members of the target's group. */
  lemma MovedStandardLocal(stds: seq<Standard>, id: string, dir: Direction)
    requires UniqueIds(stds) && FindIndex(stds, id) != -1
    ensures var r := MovedStandard(stds, id, dir);
            forall p :: 0 <= p < |stds| && r[p] != stds[p] ==>
              SameGroup(stds[p], stds[FindIndex(stds, id)]) && SameGroup(r[p], stds[FindIndex(stds, id)])
  {
    var n := MovedStandardCases(stds, id, dir);
    if n != -1 {
      SwapTouches(stds, FindIndex(stds, id), n);
    }
  }

  /** A record with an id, a name and a category, everything else absent. */
  function Sample(id: string, name: string, category: string): Standard {
    Standard(id, name, Missing, Missing, Present(category), Missing, Missing, Missing, Missing, Missing, Missing)
  }

  lemma SampleGroup()
    ensures var a, b, c := Sample("x", "A", "Marine Standard"), Sample("y", "B", "Railway Standard"),
                           Sample("y", "C", "Marine Standard");
            GroupItems([a, b, c], "Marine Standard", SubcategoryKey(a)) == [a, c]
  {
    var a, b, c := Sample("x", "A", "Marine Standard"), Sample("y", "B", "Railway Standard"),
                   Sample("y", "C", "Marine Standard");
    var k := SubcategoryKey(a);
    assert SubcategoryKey(b) == k && SubcategoryKey(c) == k;
    assert CategoryKey(a) == "Marine Standard" == CategoryKey(c);
    assert CategoryKey(b) == "Railway Standard";
    assert [a, b, c][..2] == [a, b] && [a, b][..1] == [a] && [a][..0] == [];
    assert GroupItems([a], "Marine Standard", k) == [a];
    assert GroupItems([a, b], "Marine Standard", k) == [a];
  }

  /** Ids are not unique in general: two seed rows with the same unknown
      id both become new records. The swap partner is then looked up by
      its id, finds the first record with that id, and the move exchanges
      the target with a record of another group. */
  lemma DuplicateIdMoveLeavesGroup()
    ensures var a, b, c := Sample("x", "A", "Marine Standard"), Sample("y", "B", "Railway Standard"),
                           Sample("y", "C", "Marine Standard");
            MovedStandard([a, b, c], "x", Down) == [b, a, c] && !SameGroup(b, a)
  {
    var a, b, c := Sample("x", "A", "Marine Standard"), Sample("y", "B", "Railway Standard"),
                   Sample("y", "C", "Marine Standard");
    var stds := [a, b, c];
    assert FindIndex(stds, "x") == 0;
    assert FindIndex(stds, "y") == 1;
    SampleGroup();
    var group := GroupItems(stds, "Marine Standard", SubcategoryKey(a));
    assert FindIndex(group, "x") == 0;
    assert Swap(stds, 0, 1) == [b, a, c];
  }

  lemma SwapTouches(stds: seq<Standard>, m: nat, n: nat)
    requires m < |stds| && n < |stds| && SameGroup(stds[n], stds[m])
    ensures forall p :: 0 <= p < |stds| && Swap(stds, m, n)[p] != stds[p] ==>
              SameGroup(stds[p], stds[m]) && SameGroup(Swap(stds, m, n)[p], stds[m])
  {
  }

  lemma SwapInGroupPermutes(stds: seq<Standard>, id: string, group: seq<Standard>, dir: Direction)
    requires FindIndex(stds, id) != -1
    requires forall s :: s in group ==> s in stds
    ensures multiset(SwapInGroup(stds, id, group, dir)) == multiset(stds)
  {
    var si := FindIndex(group, id);
    if si != -1 && !(dir.Up? && si == 0) && !(dir.Down? && si == |group| - 1) {
      var swapStd := group[if dir.Up? then si - 1 else si + 1];
      assert swapStd in stds;
      SwapMultiset(stds, FindIndex(stds, id), FindIndex(stds, swapStd.id));
    }
  }

  /** After swapping the target with its nearest group member above, the
      target is the nearest group member below that member. */
  lemma SwappedNearestDown(stds: seq<Standard>, m: nat, n: nat)
    requires n < m < |stds| && Nearest(stds, m, Up, n)
    ensures Nearest(Swap(stds, m, n), n, Down, m)
  {
    var r := Swap(stds, m, n);
    forall p | 0 <= p < |r| && Between(n, m, p) ensures !SameGroup(r[p], r[n]) {
      assert r[p] == stds[p];
    }
  }

  /** After that swap the target's id is first found at its new place. */
  lemma SwappedFindIndex(stds: seq<Standard>, m: nat, n: nat, id: string)
    requires n < m < |stds| && UniqueIds(stds) && stds[m].id == id
    ensures UniqueIds(Swap(stds, m, n)) && FindIndex(Swap(stds, m, n), id) == n
  {
    var r := Swap(stds, m, n);
    SwapUniqueIds(stds, m, n);
    forall q | 0 <= q < n ensures r[q].id != id {
      assert r[q] == stds[q];
    }
    FindIndexAt(r, id, n);
  }

  /** Moving a record up and then down again restores the collection. */
  lemma MoveUpThenDown(stds: seq<Standard>, id: string)
    requires UniqueIds(stds) && FindIndex(stds, id) != -1
    requires exists p :: 0 <= p < FindIndex(stds, id) && SameGroup(stds[p], stds[FindIndex(stds, id)])
    ensures MovedStandard(MovedStandard(stds, id, Up), id, Down) == stds
  {
    var m := FindIndex(stds, id);
    var n := MovedStandardCases(stds, id, Up);
    var p0 :| 0 <= p0 < m && SameGroup(stds[p0], stds[m]);
    assert Toward(Up, m, p0);
    SwappedFindIndex(stds, m, n, id);
    SwappedNearestDown(stds, m, n);
    MovedStandardSpec(Swap(stds, m, n), id, Down, m);
    SwapBack(stds, m, n);
  }

  // ---------------------------------------------------------------------
  // moveCategory and moveSubcategory
  // ---------------------------------------------------------------------

  /** Swap the entry at `idx` with its neighbour in direction `dir`, unless
      it is the first (up) or last (down). */
  function SwapNeighbour(order: seq<string>, idx: nat, dir: Direction): (r: seq<string>)
    requires idx < |order|
  {
    if dir.Up? && idx == 0 then order
    else if dir.Down? && idx == |order| - 1 then order
    else Swap(order, idx, if dir.Up? then idx - 1 else idx + 1)
  }

  /** `moveCategory(entry, direction)`. */
  function MovedCategory(order: seq<string>, entry: string, dir: Direction): seq<string> {
    var idx := IndexOf(order, entry);
    if idx == -1 then order else SwapNeighbour(order, idx, dir)
  }

  /** `moveSubcategory(entry, direction)`: an absent entry is appended
      without moving. */
  function MovedSubcategory(order: seq<string>, entry: string, dir: Direction): seq<string> {
    var idx := IndexOf(order, entry);
    if idx == -1 then order + [entry] else SwapNeighbour(order, idx, dir)
  }

  /** moveCategory keeps the labels, does nothing for an absent entry or at
      the boundary, and otherwise exchanges the entry with its neighbour. */
  lemma MovedCategoryFacts(order: seq<string>, entry: string, dir: Direction)
    ensures var r := MovedCategory(order, entry, dir);
            var idx := IndexOf(order, entry);
            && multiset(r) == multiset(order)
            && (entry !in order ==> r == order)
            && (idx != -1 && ((dir.Up? && idx == 0) || (dir.Down? && idx == |order| - 1)) ==> r == order)
            && (idx != -1 && !((dir.Up? && idx == 0) || (dir.Down? && idx == |order| - 1)) ==>
                  var other := if dir.Up? then idx - 1 else idx + 1;
                  r[other] == entry && r[idx] == order[other] &&
                  forall p :: 0 <= p < |order| && p != idx && p != other ==> r[p] == order[p])
  {
    var idx := IndexOf(order, entry);
    if idx != -1 && !((dir.Up? && idx == 0) || (dir.Down? && idx == |order| - 1)) {
      SwapMultiset(order, idx, if dir.Up? then idx - 1 else idx + 1);
    }
  }

  /** moveSubcategory on an absent entry appends it; on a present entry it
      moves like moveCategory. */
  lemma MovedSubcategoryFacts(order: seq<string>, entry: string, dir: Direction)
    ensures entry !in order ==> MovedSubcategory(order, entry, dir) == order + [entry] &&
                                IndexOf(order + [entry], entry) == |order|
    ensures entry in order ==> MovedSubcategory(order, entry, dir) == MovedCategory(order, entry, dir)
    ensures entry in MovedSubcategory(order, entry, dir)
  {
    if entry !in order {
      assert (order + [entry])[|order|] == entry;
    } else {
      MovedCategoryFacts(order, entry, dir);
      var idx := IndexOf(order, entry);
      if !((dir.Up? && idx == 0) || (dir.Down? && idx == |order| - 1)) {
        assert MovedCategory(order, entry, dir)[if dir.Up? then idx - 1 else idx + 1] == entry;
      }
    }
  }

  /** Moving an entry up and back down restores the order list. */
  lemma CategoryUpThenDown(order: seq<string>, entry: string)
    requires IndexOf(order, entry) > 0
    ensures MovedCategory(MovedCategory(order, entry, Up), entry, Down) == order
  {
    var idx := IndexOf(order, entry);
    var r := Swap(order, idx, idx - 1);
    assert r[idx - 1] == entry;
    assert forall p :: 0 <= p < idx - 1 ==> r[p] == order[p];
    assert entry !in r[..idx - 1] by {
      assert r[..idx - 1] == order[..idx - 1];
      assert forall p :: 0 <= p < idx - 1 ==> order[p] in order[..idx];
    }
    IndexOfAt(r, entry, idx - 1);
    SwapBack(order, idx, idx - 1);
  }

  // ---------------------------------------------------------------------
  // The add/edit form
  // ---------------------------------------------------------------------

  /** The values of the form as submitted. */
  datatype Form = Form(
    category: string,
    customCategory: string,
    name: string,
    id: string,
    description: string,
    version: string,
    cost: string,
    effectiveDate: string,
    expiryDate: string,
    sourceUrl: string)

  /** The category chosen: the select's value, or for `Other` the trimmed
      custom text, `Other` when that is blank. */
  function FormCategory(f: Form): (r: string)
    ensures f.category != "Other" ==> r == f.category
    ensures f.category == "Other" ==> r == Trim(f.customCategory) || r == "Other"
    ensures r == ""  ==> f.category == ""
  {
    if f.category == "Other" then
      var t := Trim(f.customCategory);
      if t != "" then t else "Other"
    else f.category
  }

  /** No two records share a name key. */
  predicate UniqueNames(stds: seq<Standard>) {
    forall i, j :: 0 <= i < j < |stds| ==> NameKey(stds[i].name) != NameKey(stds[j].name)
  }

  /** `isDuplicate` for the trimmed name input. */
  predicate IsDuplicate(stds: seq<Standard>, nameInput: string) {
    exists i | 0 <= i < |stds| :: NameKey(stds[i].name) == Upper(nameInput)
  }

  /** The record the add path builds; `stressType` is not set. */
  function NewStandard(f: Form, freshId: string): Standard {
    Standard(freshId, Trim(f.name), Present(f.description), Present(f.version),
      Present(FormCategory(f)), Missing, Present(f.cost), Present(f.effectiveDate),
      Present(f.expiryDate), Present(""), Present(f.sourceUrl))
  }

  /** The add path: rejected for a duplicate name, otherwise the new record
      goes to the front. */
  function Added(stds: seq<Standard>, f: Form, freshId: string): Option<seq<Standard>> {
    if IsDuplicate(stds, Trim(f.name)) then None
    else Some([NewStandard(f, freshId)] + stds)
  }

  /** Add is rejected exactly when an existing record has the same name key;
      an accepted add puts the record at the front and leaves the rest as it
      was. */
  lemma AddedFacts(stds: seq<Standard>, f: Form, freshId: string)
    ensures Added(stds, f, freshId).None? <==>
            exists i :: 0 <= i < |stds| && NameKey(stds[i].name) == NameKey(f.name)
    ensures Added(stds, f, freshId).Some? ==>
              var r := Added(stds, f, freshId).value;
              |r| == |stds| + 1 && r[0] == NewStandard(f, freshId) && r[1..] == stds &&
              NameKey(r[0].name) == NameKey(f.name)
  {
    TrimIdempotent(f.name);
    if Added(stds, f, freshId).Some? {
      assert ([NewStandard(f, freshId)] + stds)[1..] == stds;
    }
  }

  /** An accepted add keeps names unique, and ids unique when the fresh id is
      new. */
  lemma AddedKeepsUnique(stds: seq<Standard>, f: Form, freshId: string)
    requires Added(stds, f, freshId).Some?
    ensures UniqueNames(stds) ==> UniqueNames(Added(stds, f, freshId).value)
    ensures UniqueIds(stds) && (forall i :: 0 <= i < |stds| ==> stds[i].id != freshId) ==>
              UniqueIds(Added(stds, f, freshId).value)
  {
    AddedFacts(stds, f, freshId);
    var r := Added(stds, f, freshId).value;
    assert forall i :: 1 <= i < |r| ==> r[i] == stds[i - 1];
  }

  /** The edit path overwrites the form's fields; id, stress type and
      revision summary are kept. */
  function EditedRecord(x: Standard, f: Form): (r: Standard)
    ensures r.id == x.id && r.stressType == x.stressType && r.revisionSummary == x.revisionSummary
  {
    x.(name := Trim(f.name), description := Present(f.description), version := Present(f.version),
       cost := Present(f.cost), effectiveDate := Present(f.effectiveDate),
       expiryDate := Present(f.expiryDate), category := Present(FormCategory(f)),
       sourceUrl := Present(f.sourceUrl))
  }

  /** The edit path for the form's id; an unknown id changes nothing. */
  function Edited(stds: seq<Standard>, f: Form): seq<Standard> {
    var i := FindIndex(stds, f.id);
    if i == -1 then stds else stds[i := EditedRecord(stds[i], f)]
  }

  /** Edit changes only the record with the form's id, keeps every id, and
      editing twice with the same form is editing once. */
  lemma EditedFacts(stds: seq<Standard>, f: Form)
    ensures |Edited(stds, f)| == |stds|
    ensures forall p :: 0 <= p < |stds| ==> Edited(stds, f)[p].id == stds[p].id
    ensures forall p :: 0 <= p < |stds| && p != FindIndex(stds, f.id) ==> Edited(stds, f)[p] == stds[p]
    ensures Edited(Edited(stds, f), f) == Edited(stds, f)
  {
    var r := Edited(stds, f);
    var i := FindIndex(stds, f.id);
    if i != -1 {
      assert FindIndex(r, f.id) == i by {
        assert forall p :: 0 <= p < |stds| ==> r[p].id == stds[p].id;
      }
      TrimIdempotent(f.name);
      assert EditedRecord(r[i], f) == r[i];
    }
  }

  /** The submit handler: edit when the form carries an id, add otherwise
      (a rejected add changes nothing). */
  function Submitted(stds: seq<Standard>, f: Form, freshId: string): seq<Standard> {
    if f.id != "" then Edited(stds, f)
    else match Added(stds, f, freshId)
      case None => stds
      case Some(r) => r
  }

  // ---------------------------------------------------------------------
  // Delete
  // ---------------------------------------------------------------------

  /** `standards.filter(s => s.id !== id)`. */
  function Removed(stds: seq<Standard>, id: string): (r: seq<Standard>)
    ensures forall s :: s in r <==> s in stds && s.id != id
  {
    if stds == [] then []
    else (if stds[0].id != id then [stds[0]] else []) + Removed(stds[1..], id)
  }

  /** Delete runs only for a pending id that is not empty. */
  function Deleted(stds: seq<Standard>, pending: Field): seq<Standard> {
    if Truthy(pending) then Removed(stds, pending.s) else stds
  }

  lemma {:induction false} RemovedAppend(a: seq<Standard>, b: seq<Standard>, id: string)
    ensures Removed(a + b, id) == Removed(a, id) + Removed(b, id)
  {
    if a == [] {
      assert a + b == b;
    } else {
      assert (a + b)[0] == a[0];
      assert (a + b)[1..] == a[1..] + b;
      RemovedAppend(a[1..], b, id);
    }
  }

  lemma {:induction false} RemovedAbsent(stds: seq<Standard>, id: string)
    requires forall k :: 0 <= k < |stds| ==> stds[k].id != id
    ensures Removed(stds, id) == stds
  {
    if stds != [] {
      RemovedAbsent(stds[1..], id);
    }
  }

  /** With distinct ids, delete cuts out exactly the record with that id and
      keeps the others in order; an unknown id changes nothing. */
  lemma RemovedFacts(stds: seq<Standard>, id: string)
    ensures FindIndex(stds, id) == -1 ==> Removed(stds, id) == stds
    ensures UniqueIds(stds) && FindIndex(stds, id) != -1 ==>
              var i := FindIndex(stds, id);
              Removed(stds, id) == stds[..i] + stds[i + 1..]
  {
    var i := FindIndex(stds, id);
    if i == -1 {
      RemovedAbsent(stds, id);
    } else if UniqueIds(stds) {
      forall k | 0 <= k < |stds| && k != i ensures stds[k].id != id {
        assert stds[i].id == id;
        if k < i {
          assert stds[k].id != stds[i].id;
        } else {
          assert stds[i].id != stds[k].id;
        }
      }
      RemovedAt(stds, id, i);
    }
  }

  lemma RemovedAt(stds: seq<Standard>, id: string, i: nat)
    requires i < |stds| && stds[i].id == id
    requires forall k :: 0 <= k < |stds| && k != i ==> stds[k].id != id
    ensures Removed(stds, id) == stds[..i] + stds[i + 1..]
  {
    var a, b := stds[..i], stds[i + 1..];
    assert stds == a + ([stds[i]] + b);
    RemovedAppend(a, [stds[i]] + b, id);
    RemovedAppend([stds[i]], b, id);
    forall q | 0 <= q < |a| ensures a[q].id != id {
      assert a[q] == stds[q];
    }
    RemovedAbsent(a, id);
    forall q | 0 <= q < |b| ensures b[q].id != id {
      assert b[q] == stds[i + 1 + q];
    }
    RemovedAbsent(b, id);
    assert Removed([stds[i]], id) == [] by {
      assert [stds[i]][1..] == [];
    }
    assert Removed([stds[i]] + b, id) == b;
    assert Removed(stds, id) == a + b;
  }

  /** Deleting again changes nothing. */
  lemma RemovedIdempotent(stds: seq<Standard>, id: string)
    ensures Removed(Removed(stds, id), id) == Removed(stds, id)
  {
    var r := Removed(stds, id);
    forall k | 0 <= k < |r| ensures r[k].id != id {
      assert r[k] in r;
    }
    RemovedAbsent(r, id);
  }
}
