/**
 * The registry page's state: the collection of standards, the two order
 * lists of the grouped view and the id waiting for a delete confirmation.
 * Every handler that changes the state is a method whose new state is the
 * corresponding function of the old one; the properties of those functions
 * are proved in their own modules.
 */
module Registry {
  import opened Text
  import opened Record
  import Reconcile
  import Merge
  import Report
  import Verify
  import View
  import Ordering

  /** A stored order list, or the default when none was stored. */
  function OrDefault(stored: Option<seq<string>>, default: seq<string>): (r: seq<string>)
    ensures stored.None? ==> r == default
    ensures stored.Some? ==> r == stored.value
  {
    match stored case None => default case Some(o) => o
  }

  class Registry {
    var standards: seq<Standard>
    var categoryOrder: seq<string>
    var subcategoryOrder: seq<string>
    var pendingDelete: Field

    /** The page's state after loading: the loaded collection, each order
        list as stored or its default, and no delete pending. */
    constructor (loaded: seq<Standard>, storedCategories: Option<seq<string>>, storedSubcategories: Option<seq<string>>)
      ensures standards == loaded
      ensures categoryOrder == OrDefault(storedCategories, DefaultCategoryOrder)
      ensures subcategoryOrder == OrDefault(storedSubcategories, DefaultSubcategoryOrder)
      ensures pendingDelete == Missing
    {
      standards := loaded;
      categoryOrder := OrDefault(storedCategories, DefaultCategoryOrder);
      subcategoryOrder := OrDefault(storedSubcategories, DefaultSubcategoryOrder);
      pendingDelete := Missing;
    }

    // -------------------------------------------------------------------
    // Check updates and the two merges
    // -------------------------------------------------------------------

    /** The check-updates comparison of a seed collection with the current
        one; it changes nothing. */
    method CheckUpdates(seeds: seq<Standard>) returns (updates: seq<Reconcile.Update>)
      ensures updates == Reconcile.Reconcile(standards, seeds)
    {
      var local := standards;
      updates := [];
      for n := 0 to |seeds|
        invariant updates == Reconcile.Reconcile(local, seeds[..n])
      {
        var seed := seeds[n];
        var found: seq<Reconcile.Update> := [];
        var existing := Find(local, seed.id);
        if existing.None? {
          found := [Reconcile.NewUpdate(seed)];
        } else if Reconcile.AnyChanged(seed, existing.value) {
          found := [Reconcile.ChangeUpdate(seed, existing.value)];
        }
        assert found == Reconcile.ReconcileOne(local, seed);
        assert Reconcile.Reconcile(local, [seed]) == found by {
          assert [seed][1..] == [];
        }
        assert seeds[..n + 1] == seeds[..n] + [seed];
        Reconcile.ReconcileAppend(local, seeds[..n], [seed]);
        updates := updates + found;
      }
      assert seeds[..|seeds|] == seeds;
    }

    /** The report-issue comparison of a verification report with the
        current collection; it changes nothing. */
    method ReportUpdates(results: seq<Verify.ResultEntry>) returns (updates: seq<Reconcile.Update>)
      ensures updates == Report.ReportReconcile(standards, results)
    {
      var local := standards;
      updates := [];
      for n := 0 to |results|
        invariant updates == Report.ReportReconcile(local, results[..n])
      {
        var res := results[n];
        var found: seq<Reconcile.Update> := [];
        var existing := Find(local, res.id);
        if res.status == Verify.Mismatch && existing.Some? {
          found := ReportEntry(existing.value, res);
        }
        assert found == Report.ReportOne(local, res);
        assert Report.ReportReconcile(local, [res]) == found by {
          assert [res][1..] == [];
        }
        assert results[..n + 1] == results[..n] + [res];
        Report.ReportReconcileAppend(local, results[..n], [res]);
        updates := updates + found;
      }
      assert results[..|results|] == results;
    }

    /** One MISMATCH entry against its local record `e`: fold the live
        values of the issues over the local ones, and emit a DATA update
        when one of the four differs. */
    static method ReportEntry(e: Standard, res: Verify.ResultEntry) returns (found: seq<Reconcile.Update>)
      ensures found == (match Report.ReportUpdate(e, res) case None => [] case Some(u) => [u])
    {
      var newVersion, newEffective, newCost, newExpiry := e.version, e.effectiveDate, e.cost, e.expiryDate;
      for k := 0 to |res.issues|
        invariant Report.Values(newVersion, newEffective, newCost, newExpiry) ==
                  Report.FoldIssues(Report.LocalValues(e), res.issues[..k])
      {
        assert res.issues[..k + 1][..k] == res.issues[..k];
        var issue := res.issues[k];
        var live := Report.LiveValue(issue);
        if Contains(issue, "Date:") && live.Some? {
          newEffective := Present(live.value);
        }
        if Contains(issue, "Cost:") && live.Some? {
          newCost := Present(live.value);
        }
        if Contains(issue, "Stability:") && live.Some? {
          newExpiry := Present(Report.StabilityValue(live.value));
        }
        if Contains(issue, "Edition:") && live.Some? {
          newVersion := Present(live.value);
        }
      }
      assert res.issues[..|res.issues|] == res.issues;
      found := [];
      if newVersion != e.version || newEffective != e.effectiveDate || newCost != e.cost || newExpiry != e.expiryDate {
        found := [Reconcile.Update(res.id, res.name, Reconcile.Change(Reconcile.DataChange),
          e.version, newVersion, e.effectiveDate, newEffective, e.cost, newCost,
          e.expiryDate, newExpiry, e.revisionSummary, e.description, e.category,
          e.sourceUrl, Present(res.url))];
      }
    }

    /** The confirm buttons' merge: the collection and both counters are
        those of the merge function, so every id survives, each NEW update
        adds its record at the end, and at most one count per update. */
    method ApplyUpdates(updates: seq<Reconcile.Update>, date: string) returns (newCount: nat, updateCount: nat)
      modifies this`standards
      ensures Merge.Outcome(standards, newCount, updateCount) == Merge.ApplyAll(old(standards), updates, date)
      ensures Merge.Ids(standards) == Merge.Ids(old(standards)) + Merge.NewIds(updates)
      ensures newCount + updateCount <= |updates|
    {
      newCount, updateCount := 0, 0;
      for n := 0 to |updates|
        invariant Merge.Outcome(standards, newCount, updateCount) == Merge.ApplyAll(old(standards), updates[..n], date)
      {
        assert updates[..n + 1][..n] == updates[..n];
        var u := updates[n];
        if u.kind == Reconcile.New {
          standards := standards + [Merge.NewRecord(u)];
          newCount := newCount + 1;
        } else {
          var i := FindIndex(standards, u.id);
          if i != -1 {
            standards := standards[i := Merge.Merged(standards[i], u, date)];
            updateCount := updateCount + 1;
          }
        }
      }
      assert updates[..|updates|] == updates;
      Merge.ApplyAllCounts(old(standards), updates, date);
    }

    /** The Update All button's merge: each non-empty new value is copied
        onto the first record with the update's id. */
    method ApplyTruthyUpdates(updates: seq<Reconcile.Update>)
      modifies this`standards
      ensures standards == Merge.ApplyTruthy(old(standards), updates)
    {
      for n := 0 to |updates|
        invariant standards == Merge.PatchById(old(standards), updates[..n], Merge.UpdateId, Merge.OverlayFn())
      {
        assert updates[..n + 1][..n] == updates[..n];
        var u := updates[n];
        var idx := FindIndex(standards, u.id);
        if idx != -1 {
          var x := standards[idx];
          if Truthy(u.newVersion) { x := x.(version := u.newVersion); }
          if Truthy(u.newEffective) { x := x.(effectiveDate := u.newEffective); }
          if Truthy(u.newCost) { x := x.(cost := u.newCost); }
          if Truthy(u.newExpiry) { x := x.(expiryDate := u.newExpiry); }
          if Truthy(u.newSummary) { x := x.(revisionSummary := u.newSummary); }
          if Truthy(u.newSourceUrl) { x := x.(sourceUrl := u.newSourceUrl); }
          assert x == Merge.Overlay(standards[idx], u);
          standards := standards[idx := x];
        }
      }
      assert updates[..|updates|] == updates;
    }

    // -------------------------------------------------------------------
    // Ordering
    // -------------------------------------------------------------------

    /** moveStandard: the collection is permuted as the move function says. */
    method MoveStandard(id: string, dir: Ordering.Direction)
      modifies this`standards
      ensures standards == Ordering.MovedStandard(old(standards), id, dir)
      ensures multiset(standards) == multiset(old(standards))
    {
      Ordering.MovedStandardPermutes(standards, id, dir);
      var found := Find(standards, id);
      if found.None? {
        return;
      }
      var std := found.value;
      var same := GroupItems(standards, CategoryKey(std), SubcategoryKey(std));
      assert Ordering.MovedStandard(standards, id, dir) == Ordering.SwapInGroup(standards, id, same, dir);
      var subIdx := FindIndex(same, id);
      if subIdx == -1 {
        return;
      }
      if dir.Up? && subIdx == 0 {
        return;
      }
      if dir.Down? && subIdx == |same| - 1 {
        return;
      }
      var swapStd := same[if dir.Up? then subIdx - 1 else subIdx + 1];
      assert swapStd in standards;
      var mainIdx := FindIndex(standards, id);
      var swapMainIdx := FindIndex(standards, swapStd.id);
      var a := standards[mainIdx];
      ghost var moved := Ordering.Swap(standards, mainIdx, swapMainIdx);
      assert moved == Ordering.MovedStandard(standards, id, dir);
      standards := standards[mainIdx := standards[swapMainIdx]][swapMainIdx := a];
      assert standards == moved;
    }

    /** moveCategory: the category order is permuted as the move function
        says. */
    method MoveCategory(category: string, dir: Ordering.Direction)
      modifies this`categoryOrder
      ensures categoryOrder == Ordering.MovedCategory(old(categoryOrder), category, dir)
      ensures multiset(categoryOrder) == multiset(old(categoryOrder))
    {
      Ordering.MovedCategoryFacts(categoryOrder, category, dir);
      var idx := IndexOf(categoryOrder, category);
      if idx == -1 {
        return;
      }
      if dir.Up? && idx == 0 {
        return;
      }
      if dir.Down? && idx == |categoryOrder| - 1 {
        return;
      }
      var swapIdx := if dir.Up? then idx - 1 else idx + 1;
      var a := categoryOrder[idx];
      categoryOrder := categoryOrder[idx := categoryOrder[swapIdx]][swapIdx := a];
    }

    /** moveSubcategory: an absent entry is appended, a present one moves
        like a category. */
    method MoveSubcategory(subcategory: string, dir: Ordering.Direction)
      modifies this`subcategoryOrder
      ensures subcategoryOrder == Ordering.MovedSubcategory(old(subcategoryOrder), subcategory, dir)
      ensures subcategory in subcategoryOrder
    {
      Ordering.MovedSubcategoryFacts(subcategoryOrder, subcategory, dir);
      var idx := IndexOf(subcategoryOrder, subcategory);
      if idx == -1 {
        subcategoryOrder := subcategoryOrder + [subcategory];
        return;
      }
      if dir.Up? && idx == 0 {
        return;
      }
      if dir.Down? && idx == |subcategoryOrder| - 1 {
        return;
      }
      var swapIdx := if dir.Up? then idx - 1 else idx + 1;
      var a := subcategoryOrder[idx];
      subcategoryOrder := subcategoryOrder[idx := subcategoryOrder[swapIdx]][swapIdx := a];
    }

    // -------------------------------------------------------------------
    // Add, edit and delete
    // -------------------------------------------------------------------

    /** The form's submit handler. `saved` says whether the form was
        applied: an edit of a known id, or an add whose name is new. */
    method Submit(f: Ordering.Form, freshId: string) returns (saved: bool)
      modifies this`standards
      ensures standards == Ordering.Submitted(old(standards), f, freshId)
      ensures f.id != "" ==> (saved <==> FindIndex(old(standards), f.id) != -1)
      ensures f.id == "" ==>
                (saved <==> forall i :: 0 <= i < |old(standards)| ==>
                              Text.NameKey(old(standards)[i].name) != Text.NameKey(f.name))
    {
      Ordering.AddedFacts(standards, f, freshId);
      var nameInput := Trim(f.name);
      if f.id != "" {
        var stdIndex := FindIndex(standards, f.id);
        saved := stdIndex != -1;
        if saved {
          standards := standards[stdIndex := Ordering.EditedRecord(standards[stdIndex], f)];
        }
      } else {
        if Ordering.IsDuplicate(standards, nameInput) {
          saved := false;
          return;
        }
        standards := [Ordering.NewStandard(f, freshId)] + standards;
        saved := true;
      }
    }

    /** The delete button: the id waits for confirmation. */
    method RequestDelete(id: string)
      modifies this`pendingDelete
      ensures pendingDelete == Present(id)
    {
      pendingDelete := Present(id);
    }

    /** The confirm button: a non-empty pending id is removed from the
        collection; the dialog closes either way. */
    method ConfirmDelete()
      modifies this`standards, this`pendingDelete
      ensures standards == Ordering.Deleted(old(standards), old(pendingDelete))
      ensures forall s :: s in standards <==>
                s in old(standards) && !(Truthy(old(pendingDelete)) && s.id == old(pendingDelete).s)
      ensures pendingDelete == Missing
    {
      if Truthy(pendingDelete) {
        standards := Ordering.Removed(standards, pendingDelete.s);
      }
      pendingDelete := Missing;
    }

    /** The cancel button, or a click on the backdrop. */
    method CancelDelete()
      modifies this`pendingDelete
      ensures pendingDelete == Missing
    {
      pendingDelete := Missing;
    }

    // -------------------------------------------------------------------
    // The grouped view
    // -------------------------------------------------------------------

    /** renderStandards: filter, group, order the categories and draw each
        category block; it changes nothing. */
    method Render(filter: string) returns (view: seq<View.CategoryGroup>)
      ensures view == View.RenderView(standards, filter, categoryOrder, subcategoryOrder)
    {
      var filtered := View.Filtered(standards, filter);
      var grouped := View.Group(filtered);
      var order := View.GroupOrder(categoryOrder, View.Categories(grouped));
      view := View.DrawCategories(grouped, subcategoryOrder, order);
    }
  }
}
