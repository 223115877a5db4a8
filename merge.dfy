/**
 * The two merge engines of the registry.
 *
 * The one the confirm buttons reach appends every NEW update as a record at
 * the end, and for every other update overwrites eight fields of the first
 * record with its id, synthesising a revision summary from what changed; it
 * counts both. The older top-level one only copies the non-empty new values
 * onto the first record with the update's id.
 */
module Merge {
  import opened Text
  import opened Record
  import opened Reconcile

  // ---------------------------------------------------------------------
  // The synthesised revision summary
  // ---------------------------------------------------------------------

  /** The year shown for an expiry value: the first four-digit run of a
      non-empty value. */
  function ExpiryYear(f: Field): (r: Option<string>)
    ensures r.Some? ==> Truthy(f) && |r.value| == 4 && forall i :: 0 <= i < 4 ==> IsDigit(r.value[i])
  {
    if Truthy(f) then FirstYear(f.s) else None
  }

  function VersionClause(u: Update): seq<string> {
    if u.oldVersion != u.newVersion then ["版本: " + Show(u.oldVersion) + " → " + Show(u.newVersion)] else []
  }

  function DateClause(u: Update): seq<string> {
    if u.oldEffective != u.newEffective then ["發布日期更新"] else []
  }

  /** Only shown when the expiry value changed; both years when they differ,
      otherwise the new year, nothing when the new value has no year. */
  function StabilityClause(u: Update): seq<string> {
    if u.oldExpiry == u.newExpiry then []
    else
      var o, n := ExpiryYear(u.oldExpiry), ExpiryYear(u.newExpiry);
      if o.Some? && n.Some? && o.value != n.value then ["穩定性: " + o.value + " → " + n.value]
      else if n.Some? then ["穩定性: " + n.value]
      else []
  }

  function CostClause(u: Update): seq<string> {
    if u.oldCost != u.newCost then ["價格: " + Show(Or(u.oldCost, Present("-"))) + " → " + Show(u.newCost)] else []
  }

  /** The change clauses of an update, in their fixed order. */
  function Changes(u: Update): seq<string> {
    VersionClause(u) + DateClause(u) + StabilityClause(u) + CostClause(u)
  }

  function SummaryPrefix(date: string): string {
    "[" + date + "更新]"
  }

  /** The revision summary an UPDATE leaves on its record; `date` is the
      locale date string of the moment of the merge. */
  function RevisionSummary(u: Update, prior: Field, date: string): (r: Field)
    ensures r.Present?
    ensures Changes(u) != [] ==> StartsWith(r.s, SummaryPrefix(date))
    ensures Changes(u) != [] ==> r == Present(SummaryPrefix(date) + Join(Changes(u), "; "))
    ensures Changes(u) == [] ==>
              r == (if Truthy(u.newSummary) then u.newSummary
                    else if Truthy(prior) then prior
                    else Present(""))
  {
    var cs := Changes(u);
    if cs != [] then
      var p := SummaryPrefix(date);
      assert (p + Join(cs, "; "))[..|p|] == p;
      Present(p + Join(cs, "; "))
    else Or(u.newSummary, Or(prior, Present("")))
  }

  /** Which kind of clause a string is: version, date, stability, cost. */
  function ClauseRank(c: string): nat {
    if StartsWith(c, "版本: ") then 0
    else if c == "發布日期更新" then 1
    else if StartsWith(c, "穩定性: ") then 2
    else if StartsWith(c, "價格: ") then 3
    else 4
  }

  predicate HasClause(cs: seq<string>, rank: nat) {
    exists i | 0 <= i < |cs| :: ClauseRank(cs[i]) == rank
  }

  lemma PrefixRank(p: string, rest: string, rank: nat)
    requires (p == "版本: " && rank == 0) || (p == "穩定性: " && rank == 2) || (p == "價格: " && rank == 3)
    ensures ClauseRank(p + rest) == rank
  {
    var c := p + rest;
    assert c[..|p|] == p;
    assert c[0] == p[0];
  }

  /** Each clause function yields at most one clause, of its own kind. */
  lemma ClauseRanks(u: Update)
    ensures |VersionClause(u)| <= 1 && forall x :: x in VersionClause(u) ==> ClauseRank(x) == 0
    ensures |DateClause(u)| <= 1 && forall x :: x in DateClause(u) ==> ClauseRank(x) == 1
    ensures |StabilityClause(u)| <= 1 && forall x :: x in StabilityClause(u) ==> ClauseRank(x) == 2
    ensures |CostClause(u)| <= 1 && forall x :: x in CostClause(u) ==> ClauseRank(x) == 3
  {
    VersionClauseRank(u);
    DateClauseRank(u);
    StabilityClauseRank(u);
    CostClauseRank(u);
  }

  lemma VersionClauseRank(u: Update)
    ensures |VersionClause(u)| <= 1 && forall x :: x in VersionClause(u) ==> ClauseRank(x) == 0
  {
    if VersionClause(u) != [] {
      var rest := Show(u.oldVersion) + " → " + Show(u.newVersion);
      PrefixRank("版本: ", rest, 0);
      assert "版本: " + Show(u.oldVersion) + " → " + Show(u.newVersion) == "版本: " + rest;
    }
  }

  lemma DateClauseRank(u: Update)
    ensures |DateClause(u)| <= 1 && forall x :: x in DateClause(u) ==> ClauseRank(x) == 1
  {
    if DateClause(u) != [] {
      var c := "發布日期更新";
      assert c[..|"版本: "|][0] != "版本: "[0];
    }
  }

  lemma StabilityClauseRank(u: Update)
    ensures |StabilityClause(u)| <= 1 && forall x :: x in StabilityClause(u) ==> ClauseRank(x) == 2
  {
    if StabilityClause(u) != [] {
      var o, n := ExpiryYear(u.oldExpiry), ExpiryYear(u.newExpiry);
      if o.Some? && n.Some? && o.value != n.value {
        PrefixRank("穩定性: ", o.value + " → " + n.value, 2);
        assert "穩定性: " + o.value + " → " + n.value == "穩定性: " + (o.value + " → " + n.value);
      } else {
        PrefixRank("穩定性: ", n.value, 2);
      }
    }
  }

  lemma CostClauseRank(u: Update)
    ensures |CostClause(u)| <= 1 && forall x :: x in CostClause(u) ==> ClauseRank(x) == 3
  {
    if CostClause(u) != [] {
      var rest := Show(Or(u.oldCost, Present("-"))) + " → " + Show(u.newCost);
      PrefixRank("價格: ", rest, 3);
      assert "價格: " + Show(Or(u.oldCost, Present("-"))) + " → " + Show(u.newCost) == "價格: " + rest;
    }
  }

  /** Four pieces of at most one clause each, of ranks 0 to 3: their
      concatenation is strictly ordered by rank and holds a rank exactly
      when its piece is non-empty. */
  lemma RankedConcat(v: seq<string>, d: seq<string>, s: seq<string>, c: seq<string>)
    requires |v| <= 1 && forall x :: x in v ==> ClauseRank(x) == 0
    requires |d| <= 1 && forall x :: x in d ==> ClauseRank(x) == 1
    requires |s| <= 1 && forall x :: x in s ==> ClauseRank(x) == 2
    requires |c| <= 1 && forall x :: x in c ==> ClauseRank(x) == 3
    ensures var cs := v + d + s + c;
            && |cs| <= 4
            && (forall i, j :: 0 <= i < j < |cs| ==> ClauseRank(cs[i]) < ClauseRank(cs[j]))
            && (forall i :: 0 <= i < |cs| ==> ClauseRank(cs[i]) < 4)
            && (HasClause(cs, 0) <==> v != []) && (HasClause(cs, 1) <==> d != [])
            && (HasClause(cs, 2) <==> s != []) && (HasClause(cs, 3) <==> c != [])
  {
    var cs := v + d + s + c;
    PieceRanks(ClauseRank, v, d, s, c);
    OrderedPieces(ClauseRank, v, d, s, c);
    HasPieces(cs, |v|, |d|, |s|, |c|);
  }

  lemma HasPieces(cs: seq<string>, lv: nat, ld: nat, ls: nat, lc: nat)
    requires lv <= 1 && ld <= 1 && ls <= 1 && lc <= 1 && |cs| == lv + ld + ls + lc
    requires forall i :: 0 <= i < |cs| ==> ClauseRank(cs[i]) == PieceRank(lv, ld, ls, i)
    ensures (HasClause(cs, 0) <==> lv != 0) && (HasClause(cs, 1) <==> ld != 0)
    ensures (HasClause(cs, 2) <==> ls != 0) && (HasClause(cs, 3) <==> lc != 0)
  {
    if lv != 0 { assert ClauseRank(cs[0]) == 0; }
    if ld != 0 { assert ClauseRank(cs[lv]) == 1; }
    if ls != 0 { assert ClauseRank(cs[lv + ld]) == 2; }
    if lc != 0 { assert ClauseRank(cs[lv + ld + ls]) == 3; }
  }

  /** The clauses are in the order version, effective date, stability year,
      cost, each kind at most once, and each kind appears exactly when its
      field changed. */
  lemma ChangesShape(u: Update)
    ensures |Changes(u)| <= 4
    ensures forall i, j :: 0 <= i < j < |Changes(u)| ==> ClauseRank(Changes(u)[i]) < ClauseRank(Changes(u)[j])
    ensures forall i :: 0 <= i < |Changes(u)| ==> ClauseRank(Changes(u)[i]) < 4
    ensures HasClause(Changes(u), 0) <==> u.oldVersion != u.newVersion
    ensures HasClause(Changes(u), 1) <==> u.oldEffective != u.newEffective
    ensures HasClause(Changes(u), 2) <==> u.oldExpiry != u.newExpiry && ExpiryYear(u.newExpiry).Some?
    ensures HasClause(Changes(u), 3) <==> u.oldCost != u.newCost
  {
    ClauseRanks(u);
    RankedConcat(VersionClause(u), DateClause(u), StabilityClause(u), CostClause(u));
  }

  /** The check-updates reconciler never sets `oldExpiry`, so a merged
      UPDATE whose seed expiry holds a year always gets a stability clause,
      and therefore a synthesised summary, even when the expiry did not
      change. */
  lemma CheckUpdatesStabilityClause(c: Standard, e: Standard, y: string)
    requires Truthy(c.expiryDate) && FirstYear(c.expiryDate.s) == Some(y)
    ensures "穩定性: " + y in Changes(ChangeUpdate(c, e))
    ensures StartsWith(RevisionSummary(ChangeUpdate(c, e), e.revisionSummary, "d").s, SummaryPrefix("d"))
  {
    var u := ChangeUpdate(c, e);
    assert StabilityClause(u) == ["穩定性: " + y];
    assert Changes(u)[|VersionClause(u) + DateClause(u)|] == "穩定性: " + y;
  }

  // ---------------------------------------------------------------------
  // The merge engine of the confirm buttons
  // ---------------------------------------------------------------------

  /** The record a NEW update adds: it has no stress type and no source URL. */
  function NewRecord(u: Update): (r: Standard)
    ensures r.id == u.id && r.name == u.name
    ensures r.stressType == Missing && r.sourceUrl == Missing
  {
    Standard(u.id, u.name, u.newDescription, u.newVersion, u.newCategory, Missing,
             u.newCost, u.newEffective, u.newExpiry, u.newSummary, Missing)
  }

  /** A record after an UPDATE: the eight fields are overwritten whether or
      not the new values are present; id, name and stress type stay. */
  function Merged(x: Standard, u: Update, date: string): (r: Standard)
    ensures r.id == x.id && r.name == x.name && r.stressType == x.stressType
    ensures r.version == u.newVersion && r.effectiveDate == u.newEffective && r.expiryDate == u.newExpiry
    ensures r.cost == u.newCost && r.description == u.newDescription
    ensures r.category == u.newCategory && r.sourceUrl == u.newSourceUrl
    ensures r.revisionSummary == RevisionSummary(u, x.revisionSummary, date)
  {
    x.(version := u.newVersion, effectiveDate := u.newEffective, expiryDate := u.newExpiry,
       revisionSummary := RevisionSummary(u, x.revisionSummary, date), cost := u.newCost,
       description := u.newDescription, category := u.newCategory, sourceUrl := u.newSourceUrl)
  }

  /** Merging the same UPDATE twice leaves what merging it once left. */
  lemma MergedIdempotent(x: Standard, u: Update, date: string)
    ensures Merged(Merged(x, u, date), u, date) == Merged(x, u, date)
  {
    var y := Merged(x, u, date);
    if Changes(u) == [] {
      assert RevisionSummary(u, y.revisionSummary, date) == y.revisionSummary;
    }
  }

  /** The collection and the two counters of the merge. */
  datatype Outcome = Outcome(standards: seq<Standard>, newCount: nat, updateCount: nat)

  function ApplyOne(o: Outcome, u: Update, date: string): Outcome {
    if u.kind == New then Outcome(o.standards + [NewRecord(u)], o.newCount + 1, o.updateCount)
    else
      var i := FindIndex(o.standards, u.id);
      if i == -1 then o
      else Outcome(o.standards[i := Merged(o.standards[i], u, date)], o.newCount, o.updateCount + 1)
  }

  /** The merge of a list of updates, in list order, both counters from 0. */
  function ApplyAll(stds: seq<Standard>, us: seq<Update>, date: string): Outcome {
    if us == [] then Outcome(stds, 0, 0)
    else ApplyOne(ApplyAll(stds, us[..|us| - 1], date), us[|us| - 1], date)
  }

  /** One update: a NEW is appended at the end, an UPDATE with an unknown
      id changes nothing, an UPDATE with a known id rewrites only the first
      record with that id. */
  lemma ApplyOneFacts(o: Outcome, u: Update, date: string)
    ensures var r := ApplyOne(o, u, date);
            u.kind == New ==>
              && r.standards[..|o.standards|] == o.standards
              && r.standards[|o.standards|..] == [NewRecord(u)]
              && r.newCount == o.newCount + 1 && r.updateCount == o.updateCount
    ensures u.kind != New && FindIndex(o.standards, u.id) == -1 ==> ApplyOne(o, u, date) == o
    ensures var r := ApplyOne(o, u, date); var i := FindIndex(o.standards, u.id);
            u.kind != New && i != -1 ==>
              && |r.standards| == |o.standards|
              && r.standards[i] == Merged(o.standards[i], u, date)
              && (forall k :: 0 <= k < |o.standards| && k != i ==> r.standards[k] == o.standards[k])
              && r.newCount == o.newCount && r.updateCount == o.updateCount + 1
  {
    if u.kind == New {
      var s := o.standards + [NewRecord(u)];
      assert s[..|o.standards|] == o.standards;
      assert s[|o.standards|..] == [NewRecord(u)];
    }
  }

  /** The ids of a collection, in order. */
  function Ids(stds: seq<Standard>): (r: seq<string>)
    ensures |r| == |stds|
  {
    if stds == [] then [] else Ids(stds[..|stds| - 1]) + [stds[|stds| - 1].id]
  }

  lemma {:induction false} IdsIndex(stds: seq<Standard>, k: nat)
    requires k < |stds|
    ensures Ids(stds)[k] == stds[k].id
  {
    if k < |stds| - 1 {
      IdsIndex(stds[..|stds| - 1], k);
    }
  }

  /** The ids of the NEW updates of a list, in order. */
  function NewIds(us: seq<Update>): seq<string> {
    if us == [] then []
    else NewIds(us[..|us| - 1]) + (if us[|us| - 1].kind == New then [us[|us| - 1].id] else [])
  }

  lemma IdsUpdate(stds: seq<Standard>, i: nat, x: Standard)
    requires i < |stds| && x.id == stds[i].id
    ensures Ids(stds[i := x]) == Ids(stds)
  {
    var t := stds[i := x];
    forall k | 0 <= k < |stds| ensures Ids(t)[k] == Ids(stds)[k] {
      IdsIndex(t, k);
      IdsIndex(stds, k);
    }
  }

  /** The merged collection holds the original records' ids in place, then
      one appended record per NEW update in update order; the new counter is
      the number of NEW updates and no update is counted twice. */
  lemma {:induction false} ApplyAllCounts(stds: seq<Standard>, us: seq<Update>, date: string)
    ensures Ids(ApplyAll(stds, us, date).standards) == Ids(stds) + NewIds(us)
    ensures |ApplyAll(stds, us, date).standards| == |stds| + ApplyAll(stds, us, date).newCount
    ensures ApplyAll(stds, us, date).newCount == |NewIds(us)|
    ensures ApplyAll(stds, us, date).newCount + ApplyAll(stds, us, date).updateCount <= |us|
  {
    if us != [] {
      var p := us[..|us| - 1];
      var u := us[|us| - 1];
      ApplyAllCounts(stds, p, date);
      var o := ApplyAll(stds, p, date);
      var r := ApplyOne(o, u, date);
      assert ApplyAll(stds, us, date) == r;
      if u.kind == New {
        assert NewIds(us) == NewIds(p) + [u.id];
        var s := o.standards + [NewRecord(u)];
        assert s[..|s| - 1] == o.standards;
        assert Ids(s) == Ids(o.standards) + [u.id];
        assert Ids(r.standards) == Ids(stds) + NewIds(p) + [u.id];
      } else {
        assert NewIds(us) == NewIds(p);
        var i := FindIndex(o.standards, u.id);
        if i != -1 {
          IdsUpdate(o.standards, i, Merged(o.standards[i], u, date));
        }
        assert Ids(r.standards) == Ids(o.standards);
      }
    }
  }

  // ---------------------------------------------------------------------
  // Patching the first record with a given id, for a list of updates
  // ---------------------------------------------------------------------

  /** For every update in order: look up the first record whose id is
      `idOf(u)` and replace it by `f(record, u)`; unknown ids are skipped. */
  function PatchById<U>(stds: seq<Standard>, us: seq<U>, idOf: U -> string, f: (Standard, U) -> Standard): seq<Standard> {
    if us == [] then stds
    else
      var t := PatchById(stds, us[..|us| - 1], idOf, f);
      var u := us[|us| - 1];
      var i := FindIndex(t, idOf(u));
      if i == -1 then t else t[i := f(t[i], u)]
  }

  /** A single record after the updates of a list that carry its id. */
  function After<U>(x: Standard, us: seq<U>, idOf: U -> string, f: (Standard, U) -> Standard): Standard {
    if us == [] then x
    else
      var y := After(x, us[..|us| - 1], idOf, f);
      if idOf(us[|us| - 1]) == x.id then f(y, us[|us| - 1]) else y
  }

  ghost predicate KeepsId<U(!new)>(f: (Standard, U) -> Standard) {
    forall x, u :: f(x, u).id == x.id
  }

  predicate SameIds(a: seq<Standard>, b: seq<Standard>) {
    |a| == |b| && forall k :: 0 <= k < |a| ==> a[k].id == b[k].id
  }

  lemma {:induction false} SameIdsFind(a: seq<Standard>, b: seq<Standard>, id: string)
    requires SameIds(a, b)
    ensures FindIndex(a, id) == FindIndex(b, id)
  {
    if a != [] && a[0].id != id {
      SameIdsFind(a[1..], b[1..], id);
    }
  }

  lemma {:induction false} AfterKeepsId<U(!new)>(x: Standard, us: seq<U>, idOf: U -> string, f: (Standard, U) -> Standard)
    requires KeepsId(f)
    ensures After(x, us, idOf, f).id == x.id
  {
    if us != [] {
      AfterKeepsId(x, us[..|us| - 1], idOf, f);
    }
  }

  /** Patching keeps every id in place, and the first record with each id
      ends up as that record after the updates carrying its id; any later
      record with the same id is untouched. */
  lemma {:induction false} PatchAt<U(!new)>(stds: seq<Standard>, us: seq<U>, idOf: U -> string, f: (Standard, U) -> Standard)
    requires KeepsId(f)
    ensures SameIds(PatchById(stds, us, idOf, f), stds)
    ensures forall k :: 0 <= k < |stds| ==>
              PatchById(stds, us, idOf, f)[k] ==
              (if k == FindIndex(stds, stds[k].id) then After(stds[k], us, idOf, f) else stds[k])
  {
    if us != [] {
      var p := us[..|us| - 1];
      var u := us[|us| - 1];
      PatchAt(stds, p, idOf, f);
      var t := PatchById(stds, p, idOf, f);
      SameIdsFind(t, stds, idOf(u));
      var i := FindIndex(t, idOf(u));
      var r := PatchById(stds, us, idOf, f);
      forall k | 0 <= k < |stds|
        ensures r[k] == (if k == FindIndex(stds, stds[k].id) then After(stds[k], us, idOf, f) else stds[k])
      {
        if i != -1 && k == i {
          assert stds[k].id == idOf(u);
        }
      }
    }
  }

  /** Patching twice is patching once, when every record is idempotent
      under the updates that carry its id. */
  lemma PatchIdempotent<U(!new)>(stds: seq<Standard>, us: seq<U>, idOf: U -> string, f: (Standard, U) -> Standard)
    requires KeepsId(f)
    requires forall k :: 0 <= k < |stds| ==>
               After(After(stds[k], us, idOf, f), us, idOf, f) == After(stds[k], us, idOf, f)
    ensures PatchById(PatchById(stds, us, idOf, f), us, idOf, f) == PatchById(stds, us, idOf, f)
  {
    var t := PatchById(stds, us, idOf, f);
    PatchAt(stds, us, idOf, f);
    PatchAt(t, us, idOf, f);
    var r := PatchById(t, us, idOf, f);
    forall k | 0 <= k < |stds| ensures r[k] == t[k] {
      SameIdsFind(t, stds, stds[k].id);
      if k == FindIndex(stds, stds[k].id) {
        AfterKeepsId(stds[k], us, idOf, f);
      }
    }
  }

  // ---------------------------------------------------------------------
  // The merge of UPDATE lists as a patch
  // ---------------------------------------------------------------------

  function UpdateId(u: Update): string {
    u.id
  }

  function MergeWith(date: string): (Standard, Update) -> Standard {
    (x: Standard, u: Update) => Merged(x, u, date)
  }

  predicate NoNew(us: seq<Update>) {
    forall j :: 0 <= j < |us| ==> us[j].kind != New
  }

  /** Without NEW updates the merge is the patch by id with `Merged`. */
  lemma {:induction false} ApplyAllIsPatch(stds: seq<Standard>, us: seq<Update>, date: string)
    requires NoNew(us)
    ensures ApplyAll(stds, us, date).standards == PatchById(stds, us, UpdateId, MergeWith(date))
    ensures ApplyAll(stds, us, date).newCount == 0
  {
    if us != [] {
      ApplyAllIsPatch(stds, us[..|us| - 1], date);
    }
  }

  /** An UPDATE that decides the summary whatever the record held before:
      it has change clauses, or it brings a summary of its own. Any other
      UPDATE keeps a non-empty summary and turns an empty one into `""`. */
  predicate Resets(u: Update) {
    Changes(u) != [] || Truthy(u.newSummary)
  }

  /** Some update of `us` carries `id`. */
  predicate Touches(us: seq<Update>, id: string) {
    us != [] && (us[|us| - 1].id == id || Touches(us[..|us| - 1], id))
  }

  /** Some update of `us` that carries `id` resets the summary. */
  predicate ResetsFor(us: seq<Update>, id: string) {
    us != [] && ((us[|us| - 1].id == id && Resets(us[|us| - 1])) || ResetsFor(us[..|us| - 1], id))
  }

  /** Two records that agree on what an UPDATE keeps, and on the summary
      unless the UPDATE resets it, merge to the same record. */
  lemma MergedAgree(a: Standard, b: Standard, u: Update, date: string)
    requires a.id == b.id && a.name == b.name && a.stressType == b.stressType
    requires Resets(u) || Or(a.revisionSummary, Present("")) == Or(b.revisionSummary, Present(""))
    ensures Merged(a, u, date) == Merged(b, u, date)
  {
    assert RevisionSummary(u, a.revisionSummary, date) == RevisionSummary(u, b.revisionSummary, date);
  }

  lemma {:induction false} AfterCore(x: Standard, us: seq<Update>, date: string)
    ensures var y := After(x, us, UpdateId, MergeWith(date));
            y.id == x.id && y.name == x.name && y.stressType == x.stressType
  {
    if us != [] {
      AfterCore(x, us[..|us| - 1], date);
    }
  }

  lemma {:induction false} AfterUntouched(x: Standard, us: seq<Update>, date: string)
    requires !Touches(us, x.id)
    ensures After(x, us, UpdateId, MergeWith(date)) == x
    ensures !ResetsFor(us, x.id)
  {
    if us != [] {
      AfterUntouched(x, us[..|us| - 1], date);
    }
  }

  /** Without a reset the summary only ever gets its empty default. */
  lemma {:induction false} AfterBlank(x: Standard, us: seq<Update>, date: string)
    requires !ResetsFor(us, x.id)
    ensures Or(After(x, us, UpdateId, MergeWith(date)).revisionSummary, Present("")) ==
            Or(x.revisionSummary, Present(""))
  {
    if us != [] {
      AfterBlank(x, us[..|us| - 1], date);
    }
  }

  /** Once an update touches them, two records that agree on what the
      merges keep, and on the summary unless one of them resets it, end up
      the same. */
  lemma {:induction false} AfterAgree(x: Standard, y: Standard, us: seq<Update>, date: string)
    requires x.id == y.id && x.name == y.name && x.stressType == y.stressType
    requires Touches(us, x.id)
    requires ResetsFor(us, x.id) || Or(x.revisionSummary, Present("")) == Or(y.revisionSummary, Present(""))
    ensures After(x, us, UpdateId, MergeWith(date)) == After(y, us, UpdateId, MergeWith(date))
  {
    var p, u := us[..|us| - 1], us[|us| - 1];
    var f := MergeWith(date);
    if u.id == x.id {
      if Touches(p, x.id) {
        if !Resets(u) {
          AfterAgree(x, y, p, date);
        }
      } else {
        AfterUntouched(x, p, date);
        AfterUntouched(y, p, date);
      }
      AfterCore(x, p, date);
      AfterCore(y, p, date);
      MergedAgree(After(x, p, UpdateId, f), After(y, p, UpdateId, f), u, date);
    } else {
      AfterAgree(x, y, p, date);
    }
  }

  /** A record merged with its UPDATEs a second time stays as it was. */
  lemma AfterTwice(x: Standard, us: seq<Update>, date: string)
    ensures var once := After(x, us, UpdateId, MergeWith(date));
            After(once, us, UpdateId, MergeWith(date)) == once
  {
    var once := After(x, us, UpdateId, MergeWith(date));
    if Touches(us, x.id) {
      AfterCore(x, us, date);
      if !ResetsFor(us, x.id) {
        AfterBlank(x, us, date);
      }
      AfterAgree(once, x, us, date);
    } else {
      AfterUntouched(x, us, date);
    }
  }

  /** Merging a list of UPDATEs a second time changes nothing more, also
      when several of them carry the same id. */
  lemma ApplyAllIdempotent(stds: seq<Standard>, us: seq<Update>, date: string)
    requires NoNew(us)
    ensures var once := ApplyAll(stds, us, date).standards;
            ApplyAll(once, us, date).standards == once
  {
    var f := MergeWith(date);
    assert KeepsId(f);
    ApplyAllIsPatch(stds, us, date);
    var once := ApplyAll(stds, us, date).standards;
    ApplyAllIsPatch(once, us, date);
    forall k | 0 <= k < |stds|
      ensures After(After(stds[k], us, UpdateId, f), us, UpdateId, f) == After(stds[k], us, UpdateId, f)
    {
      AfterTwice(stds[k], us, date);
    }
    PatchIdempotent(stds, us, UpdateId, f);
  }

  /** A version bump whose seed cost is blank: the merge clears the local
      cost and the summary reports the price change, although the
      reconciler did not count the cost as changed. */
  lemma BlankCostIsCleared(c: Standard, e: Standard, date: string)
    requires e.version == Present("2019") && e.cost == Present("200 CHF")
    requires c.version == Present("2022") && c.cost == Present("")
    ensures !GatedDiff(c.cost, e.cost)
    ensures Merged(e, ChangeUpdate(c, e), date).cost == Present("")
    ensures "價格: 200 CHF → " in Changes(ChangeUpdate(c, e))
  {
    var u := ChangeUpdate(c, e);
    assert Show(Or(u.oldCost, Present("-"))) == "200 CHF";
    assert Show(u.newCost) == "";
    assert CostClause(u) == ["價格: " + "200 CHF" + " → " + ""];
    assert "價格: " + "200 CHF" + " → " + "" == "價格: 200 CHF → ";
    assert Changes(u)[|Changes(u)| - 1] == "價格: 200 CHF → ";
  }

  // ---------------------------------------------------------------------
  // The top-level merge: copy only non-empty values
  // ---------------------------------------------------------------------

  /** A record after the top-level merge of one update: each of the six
      fields takes the new value only when that value is non-empty. */
  function Overlay(x: Standard, u: Update): (r: Standard)
    ensures r.id == x.id && r.name == x.name
    ensures r.description == x.description && r.category == x.category && r.stressType == x.stressType
  {
    x.(version := Or(u.newVersion, x.version), effectiveDate := Or(u.newEffective, x.effectiveDate),
       cost := Or(u.newCost, x.cost), expiryDate := Or(u.newExpiry, x.expiryDate),
       revisionSummary := Or(u.newSummary, x.revisionSummary), sourceUrl := Or(u.newSourceUrl, x.sourceUrl))
  }

  function OverlayFn(): (Standard, Update) -> Standard {
    (x: Standard, u: Update) => Overlay(x, u)
  }

  /** The top-level merge of a list of updates, in list order. */
  function ApplyTruthy(stds: seq<Standard>, us: seq<Update>): seq<Standard> {
    PatchById(stds, us, UpdateId, OverlayFn())
  }

  /** The non-empty values a list of updates carries for one id, the later
      update winning for each field. */
  datatype Patch = Patch(version: Field, effectiveDate: Field, cost: Field, expiryDate: Field,
                         revisionSummary: Field, sourceUrl: Field)

  const NoPatch := Patch(Missing, Missing, Missing, Missing, Missing, Missing)

  function PatchOf(u: Update): Patch {
    Patch(u.newVersion, u.newEffective, u.newCost, u.newExpiry, u.newSummary, u.newSourceUrl)
  }

  /** `p`, then `q` on top. */
  function Then(p: Patch, q: Patch): Patch {
    Patch(Or(q.version, p.version), Or(q.effectiveDate, p.effectiveDate), Or(q.cost, p.cost),
          Or(q.expiryDate, p.expiryDate), Or(q.revisionSummary, p.revisionSummary), Or(q.sourceUrl, p.sourceUrl))
  }

  function Apply(x: Standard, p: Patch): Standard {
    x.(version := Or(p.version, x.version), effectiveDate := Or(p.effectiveDate, x.effectiveDate),
       cost := Or(p.cost, x.cost), expiryDate := Or(p.expiryDate, x.expiryDate),
       revisionSummary := Or(p.revisionSummary, x.revisionSummary), sourceUrl := Or(p.sourceUrl, x.sourceUrl))
  }

  function Collapse(us: seq<Update>, id: string): Patch {
    if us == [] then NoPatch
    else
      var p := Collapse(us[..|us| - 1], id);
      if us[|us| - 1].id == id then Then(p, PatchOf(us[|us| - 1])) else p
  }

  /** The top-level merge leaves a record holding, for each of its six
      fields, the last non-empty value the updates with its id carry, or its
      own value when there is none. */
  lemma {:induction false} AfterOverlay(x: Standard, us: seq<Update>)
    ensures After(x, us, UpdateId, OverlayFn()) == Apply(x, Collapse(us, x.id))
  {
    if us != [] {
      AfterOverlay(x, us[..|us| - 1]);
    } else {
      assert Apply(x, NoPatch) == x;
    }
  }

  /** A field that holds a non-empty value is never emptied by the
      top-level merge. */
  lemma TruthyNeverCleared(stds: seq<Standard>, us: seq<Update>, k: nat)
    requires k < |stds|
    ensures var r := ApplyTruthy(stds, us);
            && |r| == |stds| && r[k].id == stds[k].id && r[k].name == stds[k].name
            && (Truthy(stds[k].version) ==> Truthy(r[k].version))
            && (Truthy(stds[k].effectiveDate) ==> Truthy(r[k].effectiveDate))
            && (Truthy(stds[k].cost) ==> Truthy(r[k].cost))
            && (Truthy(stds[k].expiryDate) ==> Truthy(r[k].expiryDate))
            && (Truthy(stds[k].revisionSummary) ==> Truthy(r[k].revisionSummary))
            && (Truthy(stds[k].sourceUrl) ==> Truthy(r[k].sourceUrl))
            && r[k].description == stds[k].description && r[k].category == stds[k].category
  {
    var f := OverlayFn();
    assert KeepsId(f);
    PatchAt(stds, us, UpdateId, f);
    AfterOverlay(stds[k], us);
  }

  /** Applying the same list twice with the top-level merge is applying it
      once, whatever the ids. */
  lemma ApplyTruthyIdempotent(stds: seq<Standard>, us: seq<Update>)
    ensures ApplyTruthy(ApplyTruthy(stds, us), us) == ApplyTruthy(stds, us)
  {
    var f := OverlayFn();
    assert KeepsId(f);
    forall k | 0 <= k < |stds|
      ensures After(After(stds[k], us, UpdateId, f), us, UpdateId, f) == After(stds[k], us, UpdateId, f)
    {
      var x := stds[k];
      AfterOverlay(x, us);
      var y := Apply(x, Collapse(us, x.id));
      AfterOverlay(y, us);
      var p := Collapse(us, x.id);
      assert Apply(Apply(x, p), p) == Apply(x, p);
    }
    PatchIdempotent(stds, us, UpdateId, f);
  }
}
