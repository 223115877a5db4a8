/**
 * The report reconciler of the registry: for every MISMATCH entry of the
 * verification report whose id is known locally, fold the `Live='…'` values
 * of its issues into new version, effective date, cost and expiry values
 * (a stability value is stored as `<value>(Stability)`), and emit a DATA
 * update when one of the four now differs from the local record.
 */
module Report {
  import opened Text
  import opened Record
  import opened Reconcile
  import Verify

  /** The characters `.` does not match in a JavaScript regular expression. */
  predicate IsLineTerminator(c: char) {
    c == '\n' || c == '\r' || c == '\U{2028}' || c == '\U{2029}'
  }

  /** The first `'` at or after `j` with no line terminator before it. */
  function CloseFrom(s: string, j: nat): (r: Option<nat>)
    requires j <= |s|
    ensures r.Some? ==> j <= r.value < |s| && s[r.value] == '\''
    ensures r.Some? ==> forall k :: j <= k < r.value ==> s[k] != '\'' && !IsLineTerminator(s[k])
    decreases |s| - j
  {
    if j == |s| then None
    else if s[j] == '\'' then Some(j)
    else if IsLineTerminator(s[j]) then None
    else CloseFrom(s, j + 1)
  }

  const LiveMark: string := "Live='"

  /** A match of `Live='(.*?)'` starting at `i`, tried from there on. */
  function LiveFrom(s: string, i: nat): (r: Option<string>)
    requires i <= |s|
    ensures r.Some? ==> forall k :: 0 <= k < |r.value| ==> r.value[k] != '\'' && !IsLineTerminator(r.value[k])
    decreases |s| - i
  {
    if i == |s| then None
    else
      var c := if OccursAt(s, LiveMark, i) then CloseFrom(s, i + |LiveMark|) else None;
      if c.Some? then
        Some(s[i + |LiveMark|..c.value])
      else LiveFrom(s, i + 1)
  }

  /** `issue.match(/Live='(.*?)'/)?.[1]`. */
  function LiveValue(issue: string): Option<string> {
    LiveFrom(issue, 0)
  }

  /** Scanning from `i` finds nothing before `p` when no match starts there. */
  lemma {:induction false} LiveFromSkip(s: string, i: nat, p: nat)
    requires i <= p <= |s|
    requires forall k :: i <= k < p ==> !OccursAt(s, LiveMark, k)
    ensures LiveFrom(s, i) == LiveFrom(s, p)
    decreases p - i
  {
    if i < p {
      LiveFromSkip(s, i + 1, p);
    }
  }

  lemma {:induction false} CloseFromPlain(s: string, j: nat, e: nat)
    requires j <= e < |s| && s[e] == '\''
    requires forall k :: j <= k < e ==> s[k] != '\'' && !IsLineTerminator(s[k])
    ensures CloseFrom(s, j) == Some(e)
    decreases e - j
  {
    if j < e {
      CloseFromPlain(s, j + 1, e);
    }
  }

  predicate NoQuote(s: string) {
    forall k :: 0 <= k < |s| ==> s[k] != '\''
  }

  /** The text of an issue before its `Live='` marker. */
  function IssueHead(tag: string, local: string): string {
    tag + ": Local='" + local + "' vs "
  }

  /** The only quotes of the head are the two around the local value. */
  lemma HeadQuotes(tag: string, local: string)
    requires NoQuote(tag) && NoQuote(local)
    ensures var a := IssueHead(tag, local);
            && |a| == |tag| + |local| + 14
            && a[|tag| + 3] == 'o'
            && a[|tag| + 9..|tag| + 9 + |local|] == local
            && forall k :: 0 <= k < |a| && a[k] == '\'' ==> k == |tag| + 8 || k == |tag| + 9 + |local|
  {
    var a := IssueHead(tag, local);
    var p := tag + ": Local='";
    assert a == p + local + "' vs ";
    assert a[..|tag|] == tag;
    assert a[|tag|..|p|] == ": Local='";
    assert a[|p|..|p| + |local|] == local;
    assert a[|p| + |local|..] == "' vs ";
    assert forall k :: 0 <= k < |tag| ==> a[k] == a[..|tag|][k];
    assert forall k :: |p| <= k < |p| + |local| ==> a[k] == a[|p|..|p| + |local|][k - |p|];
    assert forall k :: |tag| <= k < |p| ==> a[k] == a[|tag|..|p|][k - |tag|];
    assert forall k :: |p| + |local| <= k < |a| ==> a[k] == a[|p| + |local|..][k - |p| - |local|];
  }

  /** A position where the text does not spell `Live='`. */
  lemma NotMark(s: string, k: nat)
    requires k + 6 <= |s|
    requires s[k] != 'L' || s[k + 5] != '\'' || s[k..k + 5] != "Live="
    ensures !OccursAt(s, LiveMark, k)
  {
    assert s[k..k + 5] == s[k..k + 6][..5];
  }

  /** The marker cannot start inside the head. */
  lemma NoMarkInHead(tag: string, local: string, s: string, k: nat)
    requires NoQuote(tag) && NoQuote(local) && !EndsWith(local, "Live=")
    requires var a := IssueHead(tag, local); |a| + 6 <= |s| && s[..|a| + 6] == a + LiveMark
    requires k < |IssueHead(tag, local)|
    ensures !OccursAt(s, LiveMark, k)
  {
    var a := IssueHead(tag, local);
    HeadQuotes(tag, local);
    var q1, q2 := |tag| + 8, |tag| + 9 + |local|;
    assert forall m :: 0 <= m < |a| + 6 ==> s[m] == (a + LiveMark)[m] by {
      forall m | 0 <= m < |a| + 6 ensures s[m] == (a + LiveMark)[m] {
        assert s[..|a| + 6][m] == s[m];
      }
    }
    if k + 5 >= |a| {
      assert s[k + 5] == LiveMark[k + 5 - |a|];
      NotMark(s, k);
    } else if k + 5 == q1 {
      assert s[k] == a[|tag| + 3];
      NotMark(s, k);
    } else if k + 5 != q2 {
      assert s[k + 5] == a[k + 5];
      NotMark(s, k);
    } else if k <= q1 {
      assert s[k..k + 5][q1 - k] == a[q1];
      NotMark(s, k);
    } else {
      var w := s[k..k + 5];
      assert forall m :: 0 <= m < 5 ==> w[m] == a[k + m];
      assert a[k..q2] == local[|local| - 5..] by {
        assert a[q1 + 1..q2] == local;
        assert a[k..q2] == a[q1 + 1..q2][k - q1 - 1..];
      }
      assert w == a[k..q2];
      NotMark(s, k);
    }
  }

  /** The live value of an issue string is read back from it, when neither
      value holds a `'`, the live value has no line break and the local value
      does not end with `Live=`. */
  lemma LiveRoundTrip(tag: string, local: string, live: string)
    requires NoQuote(tag) && NoQuote(local) && NoQuote(live)
    requires forall k :: 0 <= k < |live| ==> !IsLineTerminator(live[k])
    requires !EndsWith(local, "Live=")
    ensures LiveValue(Verify.Issue(tag, local, live)) == Some(live)
  {
    var a := IssueHead(tag, local);
    var s := Verify.Issue(tag, local, live);
    assert s == a + (LiveMark + (live + "'"));
    SkipHead(tag, local, s);
    LiveAtMark(s, |a|, live);
  }

  /** No match starts inside the head. */
  lemma SkipHead(tag: string, local: string, s: string)
    requires NoQuote(tag) && NoQuote(local) && !EndsWith(local, "Live=")
    requires |IssueHead(tag, local)| + 6 <= |s| && s[..|IssueHead(tag, local)| + 6] == IssueHead(tag, local) + LiveMark
    ensures LiveFrom(s, 0) == LiveFrom(s, |IssueHead(tag, local)|)
  {
    var a := IssueHead(tag, local);
    forall k | 0 <= k < |a| ensures !OccursAt(s, LiveMark, k) {
      NoMarkInHead(tag, local, s, k);
    }
    LiveFromSkip(s, 0, |a|);
  }

  /** The marker at `p`, then a readable value and the closing `'` at the
      end: the value is read. */
  lemma LiveAtMark(s: string, p: nat, live: string)
    requires NoQuote(live) && forall k :: 0 <= k < |live| ==> !IsLineTerminator(live[k])
    requires p <= |s| && s[p..] == LiveMark + (live + "'")
    ensures LiveFrom(s, p) == Some(live)
  {
    assert s[p..p + 6] == s[p..][..6] == LiveMark;
    assert s[p + 6..] == s[p..][6..] == live + "'";
    CloseAfterValue(s, p + 6, live);
  }

  /** A value followed by the closing `'` at the end of the text is read up
      to that quote. */
  lemma CloseAfterValue(s: string, j: nat, live: string)
    requires NoQuote(live) && forall k :: 0 <= k < |live| ==> !IsLineTerminator(live[k])
    requires j <= |s| && s[j..] == live + "'"
    ensures |s| == j + |live| + 1 && CloseFrom(s, j) == Some(|s| - 1) && s[j..|s| - 1] == live
  {
    var e := |s| - 1;
    forall k | j <= k < e ensures s[k] == live[k - j] {
      assert s[k] == s[j..][k - j];
    }
    assert s[e] == s[j..][|live|];
    CloseFromPlain(s, j, e);
    assert s[j..e] == live;
  }

  /** A live value the reader can recover: no `'` and no line break. */
  predicate Readable(v: Option<string>) {
    v.Some? ==> NoQuote(v.value) && forall k :: 0 <= k < |v.value| ==> !IsLineTerminator(v.value[k])
  }

  /** A local value that cannot be mistaken for the marker. */
  predicate Unmarked(s: string) {
    NoQuote(s) && !EndsWith(s, "Live=")
  }

  lemma EmptyMarkUnmarked(s: string)
    requires Unmarked(s)
    ensures Unmarked(Verify.OrEmptyMark(s))
  {
    if s == "" {
      var l := Verify.OrEmptyMark(s);
      assert l == "(empty)";
      assert l[|l| - 5..] == "mpty)";
    }
  }

  /** The issues of the comparator carry the live values back. */
  lemma IssuesRoundTrip(std: Verify.PyStd, live: Verify.LiveData)
    requires Unmarked(std.version) && Unmarked(std.effectiveDate) && Unmarked(std.cost) && Unmarked(std.expiryDate)
    requires Readable(live.edition) && Readable(live.publicationDate) && Readable(live.price) && Readable(live.stabilityDate)
    ensures Verify.EditionIssue(std, live) != [] ==> LiveValue(Verify.EditionIssue(std, live)[0]) == live.edition
    ensures Verify.DateIssue(std, live) != [] ==> LiveValue(Verify.DateIssue(std, live)[0]) == live.publicationDate
    ensures Verify.CostIssue(std, live) != [] ==> LiveValue(Verify.CostIssue(std, live)[0]) == live.price
    ensures Verify.StabilityIssue(std, live) != [] ==> LiveValue(Verify.StabilityIssue(std, live)[0]) == live.stabilityDate
  {
    if Verify.EditionIssue(std, live) != [] {
      EmptyMarkUnmarked(std.version);
      LiveRoundTrip("Edition", Verify.OrEmptyMark(std.version), live.edition.value);
    }
    if Verify.DateIssue(std, live) != [] {
      LiveRoundTrip("Date", std.effectiveDate, live.publicationDate.value);
    }
    if Verify.CostIssue(std, live) != [] {
      EmptyMarkUnmarked(std.cost);
      LiveRoundTrip("Cost", Verify.OrEmptyMark(std.cost), live.price.value);
    }
    if Verify.StabilityIssue(std, live) != [] {
      LiveRoundTrip("Stability", std.expiryDate, live.stabilityDate.value);
    }
  }

  // ---------------------------------------------------------------------
  // Folding the issues of one entry
  // ---------------------------------------------------------------------

  /** The four values the fold carries. */
  datatype Values = Values(version: Field, effectiveDate: Field, cost: Field, expiryDate: Field)

  function LocalValues(e: Standard): Values {
    Values(e.version, e.effectiveDate, e.cost, e.expiryDate)
  }

  /** How a live stability value is stored. */
  function StabilityValue(v: string): string {
    if Contains(v, "Stability") then v else v + "(Stability)"
  }

  /** One issue: each tag it contains takes the live value, when there is one. */
  function FoldIssue(v: Values, issue: string): Values {
    var m := LiveValue(issue);
    var v1 := if Contains(issue, "Date:") && m.Some? then v.(effectiveDate := Present(m.value)) else v;
    var v2 := if Contains(issue, "Cost:") && m.Some? then v1.(cost := Present(m.value)) else v1;
    var v3 := if Contains(issue, "Stability:") && m.Some? then v2.(expiryDate := Present(StabilityValue(m.value))) else v2;
    if Contains(issue, "Edition:") && m.Some? then v3.(version := Present(m.value)) else v3
  }

  /** The issues in list order. */
  function FoldIssues(v: Values, issues: seq<string>): Values {
    if issues == [] then v else FoldIssue(FoldIssues(v, issues[..|issues| - 1]), issues[|issues| - 1])
  }

  /** The update a report entry yields against the local record `e`. */
  function ReportUpdate(e: Standard, res: Verify.ResultEntry): Option<Update> {
    var n := FoldIssues(LocalValues(e), res.issues);
    if n != LocalValues(e) then
      Some(Update(res.id, res.name, Change(DataChange),
                  e.version, n.version, e.effectiveDate, n.effectiveDate, e.cost, n.cost,
                  e.expiryDate, n.expiryDate, e.revisionSummary, e.description, e.category,
                  e.sourceUrl, Present(res.url)))
    else None
  }

  function ReportOne(local: seq<Standard>, res: Verify.ResultEntry): (r: seq<Update>)
    ensures |r| <= 1
  {
    if res.status != Verify.Mismatch then []
    else match Find(local, res.id)
      case None => []
      case Some(e) => match ReportUpdate(e, res) case None => [] case Some(u) => [u]
  }

  /** The report reconciler over a report's entries, in report order. */
  function ReportReconcile(local: seq<Standard>, results: seq<Verify.ResultEntry>): seq<Update> {
    if results == [] then []
    else ReportOne(local, results[0]) + ReportReconcile(local, results[1..])
  }

  lemma PrefixNotThere(s: string, t: string)
    requires |t| <= |s| && s[..|t|] == t
    ensures Contains(s, t)
  {
    assert OccursAt(s, t, 0);
  }

  /** A Date, Cost or Edition issue sets its field to the live value it
      carries; a Stability issue sets the expiry to that value marked
      `(Stability)` unless it already says Stability. */
  lemma FoldIssueFacts(v: Values, tag: string, local: string, live: string)
    requires NoQuote(tag) && NoQuote(local) && NoQuote(live)
    requires forall k :: 0 <= k < |live| ==> !IsLineTerminator(live[k])
    requires !EndsWith(local, "Live=")
    ensures tag == "Date" ==> FoldIssue(v, Verify.Issue(tag, local, live)).effectiveDate == Present(live)
    ensures tag == "Cost" ==> FoldIssue(v, Verify.Issue(tag, local, live)).cost == Present(live)
    ensures tag == "Edition" ==> FoldIssue(v, Verify.Issue(tag, local, live)).version == Present(live)
    ensures tag == "Stability" ==> FoldIssue(v, Verify.Issue(tag, local, live)).expiryDate == Present(StabilityValue(live))
  {
    var s := Verify.Issue(tag, local, live);
    LiveRoundTrip(tag, local, live);
    var t := tag + ":";
    assert s == t + (" Local='" + local + "' vs Live='" + live + "'");
    assert s[..|t|] == t;
    PrefixNotThere(s, t);
    if tag == "Date" { assert t == "Date:"; }
    if tag == "Cost" { assert t == "Cost:"; }
    if tag == "Edition" { assert t == "Edition:"; }
    if tag == "Stability" { assert t == "Stability:"; }
  }

  /** An entry yields an update exactly when the folded values differ from
      the local record; that update is a DATA change from the local values,
      and keeps the local summary, description and category. */
  lemma ReportUpdateFacts(e: Standard, res: Verify.ResultEntry)
    ensures ReportUpdate(e, res).Some? <==> FoldIssues(LocalValues(e), res.issues) != LocalValues(e)
    ensures ReportUpdate(e, res).Some? ==>
              var u := ReportUpdate(e, res).value;
              && u.kind == Change(DataChange) && u.id == res.id
              && u.oldVersion == e.version && u.oldEffective == e.effectiveDate
              && u.oldCost == e.cost && u.oldExpiry == e.expiryDate
              && u.newSummary == e.revisionSummary && u.newDescription == e.description
              && u.newCategory == e.category && u.newSourceUrl == Present(res.url)
              && (u.newVersion != e.version || u.newEffective != e.effectiveDate ||
                  u.newCost != e.cost || u.newExpiry != e.expiryDate)
  {
  }

  /** Issues that carry no tag leave the values alone, so an entry with only
      such issues (a withdrawal notice, say) yields nothing. */
  lemma {:induction false} UntaggedIssuesNoUpdate(e: Standard, res: Verify.ResultEntry)
    requires forall k :: 0 <= k < |res.issues| ==>
               !Contains(res.issues[k], "Date:") && !Contains(res.issues[k], "Cost:") &&
               !Contains(res.issues[k], "Stability:") && !Contains(res.issues[k], "Edition:")
    ensures FoldIssues(LocalValues(e), res.issues) == LocalValues(e)
    ensures ReportUpdate(e, res).None?
  {
    UntaggedFold(LocalValues(e), res.issues);
  }

  lemma {:induction false} UntaggedFold(v: Values, issues: seq<string>)
    requires forall k :: 0 <= k < |issues| ==>
               !Contains(issues[k], "Date:") && !Contains(issues[k], "Cost:") &&
               !Contains(issues[k], "Stability:") && !Contains(issues[k], "Edition:")
    ensures FoldIssues(v, issues) == v
  {
    if issues != [] {
      UntaggedFold(v, issues[..|issues| - 1]);
    }
  }

  /** Only MISMATCH entries with a known id yield updates, at most one per
      entry, in report order. */
  lemma {:induction false} ReportReconcileFacts(local: seq<Standard>, results: seq<Verify.ResultEntry>)
    ensures |ReportReconcile(local, results)| <= |results|
    ensures forall u :: u in ReportReconcile(local, results) ==>
              exists r :: r in results && r.status == Verify.Mismatch && r.id == u.id && FindIndex(local, r.id) != -1
  {
    if results != [] {
      var r := results[0];
      ReportReconcileFacts(local, results[1..]);
      forall u | u in ReportReconcile(local, results)
        ensures exists r :: r in results && r.status == Verify.Mismatch && r.id == u.id && FindIndex(local, r.id) != -1
      {
        if u in ReportOne(local, r) {
          assert r in results;
        } else {
          var r' :| r' in results[1..] && r'.status == Verify.Mismatch && r'.id == u.id && FindIndex(local, r'.id) != -1;
          assert r' in results;
        }
      }
    }
  }

  lemma {:induction false} ReportReconcileAppend(local: seq<Standard>, a: seq<Verify.ResultEntry>, b: seq<Verify.ResultEntry>)
    ensures ReportReconcile(local, a + b) == ReportReconcile(local, a) + ReportReconcile(local, b)
  {
    if a != [] {
      assert (a + b)[0] == a[0];
      assert (a + b)[1..] == a[1..] + b;
      ReportReconcileAppend(local, a[1..], b);
    } else {
      assert a + b == b;
    }
  }
}
