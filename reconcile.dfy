/**
 * The check-updates reconciler of the registry: every record of the seed
 * collection is looked up by id in the current collection; an unknown id
 * yields a NEW pending update carrying the seed's values, a known id yields
 * an UPDATE when at least one of version, effective date, cost, expiry date
 * and source URL is non-empty on both sides and differs.
 */
module Reconcile {
  import opened Text
  import opened Record

  datatype ChangeType = VersionChange | DataChange

  /** `type: 'NEW'` or `type: 'UPDATE'` with its `changeType`. */
  datatype Kind = New | Change(changeType: ChangeType)

  /** A pending update as the registry builds it. An `old...` value that the
      producing path never sets is `Missing`. */
  datatype Update = Update(
    id: string,
    name: string,
    kind: Kind,
    oldVersion: Field, newVersion: Field,
    oldEffective: Field, newEffective: Field,
    oldCost: Field, newCost: Field,
    oldExpiry: Field, newExpiry: Field,
    newSummary: Field,
    newDescription: Field,
    newCategory: Field,
    oldSourceUrl: Field, newSourceUrl: Field)

  /** A field counts as changed only when it is non-empty on both sides and
      the two values differ. */
  predicate GatedDiff(candidate: Field, local: Field) {
    Truthy(candidate) && Truthy(local) && candidate != local
  }

  predicate VersionChanged(c: Standard, e: Standard) { GatedDiff(c.version, e.version) }

  /** Some compared field changed. */
  predicate AnyChanged(c: Standard, e: Standard) {
    GatedDiff(c.version, e.version) || GatedDiff(c.effectiveDate, e.effectiveDate) ||
    GatedDiff(c.cost, e.cost) || GatedDiff(c.expiryDate, e.expiryDate) ||
    GatedDiff(c.sourceUrl, e.sourceUrl)
  }

  /** The NEW update for a seed record. */
  function NewUpdate(c: Standard): Update {
    Update(c.id, c.name, New,
      Missing, c.version, Missing, c.effectiveDate, Missing, c.cost,
      Missing, c.expiryDate, c.revisionSummary, c.description, c.category,
      Missing, c.sourceUrl)
  }

  /** The UPDATE for a seed record `c` and the current record `e` with its id.
      `oldExpiry` is not set on this path. */
  function ChangeUpdate(c: Standard, e: Standard): Update {
    Update(c.id, c.name, Change(if VersionChanged(c, e) then VersionChange else DataChange),
      e.version, c.version, e.effectiveDate, c.effectiveDate, e.cost, c.cost,
      Missing, c.expiryDate, c.revisionSummary, c.description, c.category,
      e.sourceUrl, c.sourceUrl)
  }

  /** What one seed record contributes. */
  function ReconcileOne(local: seq<Standard>, c: Standard): (r: seq<Update>)
    ensures |r| <= 1
  {
    match Find(local, c.id)
    case None => [NewUpdate(c)]
    case Some(e) => if AnyChanged(c, e) then [ChangeUpdate(c, e)] else []
  }

  /** The reconciler over a seed collection, in seed order. */
  function Reconcile(local: seq<Standard>, candidates: seq<Standard>): seq<Update> {
    if candidates == [] then []
    else ReconcileOne(local, candidates[0]) + Reconcile(local, candidates[1..])
  }

  /** NEW exactly for an unknown id, whatever the seed's values are. */
  lemma ReconcileOneNew(local: seq<Standard>, c: Standard)
    ensures (exists u :: u in ReconcileOne(local, c) && u.kind == New) <==>
            forall k :: 0 <= k < |local| ==> local[k].id != c.id
    ensures (forall k :: 0 <= k < |local| ==> local[k].id != c.id) ==>
            ReconcileOne(local, c) == [NewUpdate(c)]
  {
    if FindIndex(local, c.id) == -1 {
      assert NewUpdate(c) in ReconcileOne(local, c);
    } else {
      assert forall u :: u in ReconcileOne(local, c) ==> u == ChangeUpdate(c, local[FindIndex(local, c.id)]);
    }
  }

  /** For a known id: an UPDATE is emitted exactly when some compared field
      changed under the presence gate, and its change type is VERSION exactly
      when the version changed. */
  lemma ReconcileOneChange(local: seq<Standard>, c: Standard, i: nat)
    requires i < |local| && local[i].id == c.id
    ensures var e := local[FindIndex(local, c.id)];
            && (ReconcileOne(local, c) != [] <==> AnyChanged(c, e))
            && (ReconcileOne(local, c) != [] ==>
                  ReconcileOne(local, c)[0].kind == Change(if VersionChanged(c, e) then VersionChange else DataChange))
  {
  }

  /** A field left empty on either side never causes an UPDATE. */
  lemma EmptyFieldNeverDiffs(c: Standard, e: Standard)
    requires !Truthy(c.version) || !Truthy(e.version)
    requires !Truthy(c.effectiveDate) || !Truthy(e.effectiveDate)
    requires !Truthy(c.cost) || !Truthy(e.cost)
    requires !Truthy(c.expiryDate) || !Truthy(e.expiryDate)
    requires !Truthy(c.sourceUrl) || !Truthy(e.sourceUrl)
    ensures !AnyChanged(c, e)
  {
  }

  /** Reconciling a concatenation of seeds is the concatenation of the
      results: the output follows seed order. */
  lemma {:induction false} ReconcileAppend(local: seq<Standard>, a: seq<Standard>, b: seq<Standard>)
    ensures Reconcile(local, a + b) == Reconcile(local, a) + Reconcile(local, b)
  {
    if a != [] {
      assert (a + b)[0] == a[0];
      assert (a + b)[1..] == a[1..] + b;
      ReconcileAppend(local, a[1..], b);
    } else {
      assert a + b == b;
    }
  }

  /** The number of seeds whose id is unknown locally. */
  function CountUnknown(local: seq<Standard>, candidates: seq<Standard>): nat {
    if candidates == [] then 0
    else (if FindIndex(local, candidates[0].id) == -1 then 1 else 0) + CountUnknown(local, candidates[1..])
  }

  function CountNew(us: seq<Update>): nat {
    if us == [] then 0 else (if us[0].kind == New then 1 else 0) + CountNew(us[1..])
  }

  lemma {:induction false} CountNewAppend(a: seq<Update>, b: seq<Update>)
    ensures CountNew(a + b) == CountNew(a) + CountNew(b)
  {
    if a != [] {
      assert (a + b)[1..] == a[1..] + b;
      CountNewAppend(a[1..], b);
    } else {
      assert a + b == b;
    }
  }

  /** Exactly one NEW per unknown seed, at most one update per seed, and every
      update is about a seed's id. */
  lemma {:induction false} ReconcileCounts(local: seq<Standard>, candidates: seq<Standard>)
    ensures CountNew(Reconcile(local, candidates)) == CountUnknown(local, candidates)
    ensures |Reconcile(local, candidates)| <= |candidates|
    ensures forall u :: u in Reconcile(local, candidates) ==> exists c :: c in candidates && u.id == c.id
  {
    if candidates != [] {
      var c := candidates[0];
      ReconcileCounts(local, candidates[1..]);
      CountNewAppend(ReconcileOne(local, c), Reconcile(local, candidates[1..]));
      forall u | u in Reconcile(local, candidates) ensures exists c :: c in candidates && u.id == c.id {
        if u in ReconcileOne(local, c) {
          assert u.id == c.id;
        } else {
          var c' :| c' in candidates[1..] && u.id == c'.id;
          assert c' in candidates;
        }
      }
    }
  }

  /** The scenario of a version bump beside a blank seed cost: one UPDATE of
      change type VERSION; the blank cost does not count as a change. */
  lemma VersionBumpScenario(e: Standard, c: Standard)
    requires e.id == "s1" && e.version == Present("2019") && e.cost == Present("200 CHF")
    requires c.id == "s1" && c.version == Present("2022") && c.cost == Present("")
    requires c.effectiveDate == e.effectiveDate && c.expiryDate == e.expiryDate && c.sourceUrl == e.sourceUrl
    ensures Reconcile([e], [c]) == [ChangeUpdate(c, e)]
    ensures ChangeUpdate(c, e).kind == Change(VersionChange)
    ensures !GatedDiff(c.cost, e.cost)
  {
  }
}
