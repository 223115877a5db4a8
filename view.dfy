/**
 * The derived view of the registry: the search filter, the two-level
 * grouping by category and subcategory name, the order of the category
 * blocks and the order of the subcategory blocks inside each.
 */
module View {
  import opened Text
  import opened Record

  // ---------------------------------------------------------------------
  // Search filter
  // ---------------------------------------------------------------------

  /** The characters the search ignores: `/[\s\-_]/`. */
  predicate Ignored(c: char) {
    IsSpace(c) || c == '-' || c == '_'
  }

  predicate IsUpperAscii(c: char) {
    'A' <= c <= 'Z'
  }

  /** `s` with every ignored character removed. */
  function Strip(s: string): (r: string)
    ensures forall c :: c in r ==> c in s && !Ignored(c)
  {
    if s == [] then []
    else (if Ignored(s[0]) then [] else [s[0]]) + Strip(s[1..])
  }

  /** `normalizeText`: `''` for an empty or absent value, otherwise the
      lower-cased value without whitespace, `-` and `_`. */
  function NormalizeText(f: Field): (r: string)
    ensures !Truthy(f) ==> r == ""
    ensures Truthy(f) ==> r == Strip(Lower(f.s))
    ensures forall c :: c in r ==> !Ignored(c) && !IsUpperAscii(c)
  {
    if !Truthy(f) then ""
    else
      var l := Lower(f.s);
      assert forall c :: c in l ==> !IsUpperAscii(c);
      Strip(l)
  }

  /** Stripping works character by character: it distributes over
      concatenation ... */
  lemma {:induction false} StripAppend(a: string, b: string)
    ensures Strip(a + b) == Strip(a) + Strip(b)
  {
    if a == [] {
      assert a + b == b;
    } else {
      assert (a + b)[0] == a[0];
      assert (a + b)[1..] == a[1..] + b;
      StripAppend(a[1..], b);
    }
  }

  /** ... and keeps exactly the characters that are not ignored. */
  lemma StripSingle(c: char)
    ensures Strip([c]) == (if Ignored(c) then [] else [c])
  {
    assert [c][1..] == [];
  }

  lemma {:induction false} StripClean(s: string)
    requires forall c :: c in s ==> !Ignored(c)
    ensures Strip(s) == s
  {
    if s != [] {
      assert s[0] in s;
      assert forall c :: c in s[1..] ==> c in s;
      StripClean(s[1..]);
    }
  }

  lemma {:induction false} LowerClean(s: string)
    requires forall c :: c in s ==> !IsUpperAscii(c)
    ensures Lower(s) == s
  {
    forall i | 0 <= i < |s| ensures Lower(s)[i] == s[i] {
      assert s[i] in s;
    }
  }

  /** Normalising twice is normalising once. */
  lemma NormalizeIdempotent(f: Field)
    ensures NormalizeText(Present(NormalizeText(f))) == NormalizeText(f)
  {
    var n := NormalizeText(f);
    if n != "" {
      LowerClean(n);
      StripClean(n);
    }
  }

  /** A search that ignores case and separators: the name, description,
      category or subcategory name contains the normalised filter. */
  predicate Matches(std: Standard, nf: string) {
    Contains(NormalizeText(Present(std.name)), nf) ||
    Contains(NormalizeText(std.description), nf) ||
    Contains(NormalizeText(std.category), nf) ||
    Contains(NormalizeText(Present(SubcategoryKey(std))), nf)
  }

  /** `standards.filter(...)` for a filter text. */
  function Filtered(stds: seq<Standard>, filter: string): (r: seq<Standard>)
    ensures |r| <= |stds|
    ensures forall s :: s in r <==> s in stds && Matches(s, NormalizeText(Present(filter)))
  {
    if stds == [] then []
    else
      (if Matches(stds[0], NormalizeText(Present(filter))) then [stds[0]] else []) +
      Filtered(stds[1..], filter)
  }

  /** Filtering keeps collection order: it distributes over concatenation. */
  lemma {:induction false} FilteredAppend(a: seq<Standard>, b: seq<Standard>, filter: string)
    ensures Filtered(a + b, filter) == Filtered(a, filter) + Filtered(b, filter)
  {
    if a == [] {
      assert a + b == b;
    } else {
      assert (a + b)[0] == a[0];
      assert (a + b)[1..] == a[1..] + b;
      FilteredAppend(a[1..], b, filter);
    }
  }

  /** A filter made only of whitespace, `-` and `_` (or empty) shows every
      record. */
  lemma {:induction false} EmptyFilterShowsAll(stds: seq<Standard>, filter: string)
    requires NormalizeText(Present(filter)) == ""
    ensures Filtered(stds, filter) == stds
  {
    if stds != [] {
      assert OccursAt(NormalizeText(Present(stds[0].name)), "", 0);
      EmptyFilterShowsAll(stds[1..], filter);
    }
  }

  // ---------------------------------------------------------------------
  // Grouping: grouped[category][subcategory name].items
  // ---------------------------------------------------------------------

  datatype Sub = Sub(name: string, items: seq<Standard>)

  /** One category of `grouped`, its subcategories in insertion order. */
  datatype Bucket = Bucket(category: string, subs: seq<Sub>)

  function BucketIndex(g: seq<Bucket>, c: string): (r: int)
    ensures -1 <= r < |g|
    ensures r == -1 <==> forall i :: 0 <= i < |g| ==> g[i].category != c
    ensures 0 <= r ==> g[r].category == c && forall i :: 0 <= i < r ==> g[i].category != c
  {
    if g == [] then -1
    else if g[0].category == c then 0
    else var k := BucketIndex(g[1..], c); if k == -1 then -1 else k + 1
  }

  function SubIndex(subs: seq<Sub>, k: string): (r: int)
    ensures -1 <= r < |subs|
    ensures r == -1 <==> forall i :: 0 <= i < |subs| ==> subs[i].name != k
    ensures 0 <= r ==> subs[r].name == k && forall i :: 0 <= i < r ==> subs[i].name != k
  {
    if subs == [] then -1
    else if subs[0].name == k then 0
    else var j := SubIndex(subs[1..], k); if j == -1 then -1 else j + 1
  }

  /** Push `s` onto the subcategory `k`, creating it when absent. */
  function AddSub(subs: seq<Sub>, k: string, s: Standard): seq<Sub> {
    var j := SubIndex(subs, k);
    if j == -1 then subs + [Sub(k, [s])]
    else subs[j := Sub(k, subs[j].items + [s])]
  }

  /** Push `s` onto `grouped[c][k]`, creating the entries when absent. */
  function AddEntry(g: seq<Bucket>, c: string, k: string, s: Standard): seq<Bucket> {
    var i := BucketIndex(g, c);
    if i == -1 then g + [Bucket(c, [Sub(k, [s])])]
    else g[i := Bucket(c, AddSub(g[i].subs, k, s))]
  }

  /** One step of the grouping loop. */
  function AddTo(g: seq<Bucket>, s: Standard): seq<Bucket> {
    AddEntry(g, CategoryKey(s), SubcategoryKey(s), s)
  }

  /** `grouped` after the loop over `xs`. */
  function Grouped(xs: seq<Standard>): seq<Bucket> {
    if xs == [] then [] else AddTo(Grouped(xs[..|xs| - 1]), xs[|xs| - 1])
  }

  /** The items of `grouped[c][k]`, empty when there is no such entry. */
  function Lookup(g: seq<Bucket>, c: string, k: string): seq<Standard> {
    var i := BucketIndex(g, c);
    if i == -1 then []
    else var j := SubIndex(g[i].subs, k); if j == -1 then [] else g[i].subs[j].items
  }

  function Categories(g: seq<Bucket>): (r: seq<string>)
    ensures |r| == |g| && forall i :: 0 <= i < |g| ==> r[i] == g[i].category
  {
    seq(|g|, i requires 0 <= i < |g| => g[i].category)
  }

  function SubNames(subs: seq<Sub>): (r: seq<string>)
    ensures |r| == |subs| && forall i :: 0 <= i < |subs| ==> r[i] == subs[i].name
  {
    seq(|subs|, i requires 0 <= i < |subs| => subs[i].name)
  }

  /** The subcategory names of category `c`, in insertion order. */
  function SubNamesOf(g: seq<Bucket>, c: string): seq<string> {
    var i := BucketIndex(g, c);
    if i == -1 then [] else SubNames(g[i].subs)
  }

  /** `grouped` has one entry per category and per subcategory name, and
      only non-empty item lists. */
  predicate WellFormed(g: seq<Bucket>) {
    (forall i, j :: 0 <= i < j < |g| ==> g[i].category != g[j].category) &&
    (forall i :: 0 <= i < |g| ==> g[i].subs != []) &&
    (forall i, a, b :: 0 <= i < |g| && 0 <= a < b < |g[i].subs| ==> g[i].subs[a].name != g[i].subs[b].name) &&
    (forall i, a :: 0 <= i < |g| && 0 <= a < |g[i].subs| ==> g[i].subs[a].items != [])
  }

  lemma AddSubLookup(subs: seq<Sub>, k: string, s: Standard, k': string)
    ensures var subs' := AddSub(subs, k, s);
            var j := SubIndex(subs, k');
            var j' := SubIndex(subs', k');
            (if j' == -1 then [] else subs'[j'].items) ==
            (if j == -1 then [] else subs[j].items) + (if k == k' then [s] else [])
  {
    var j := SubIndex(subs, k);
    var subs' := AddSub(subs, k, s);
    assert forall i :: 0 <= i < |subs| ==> subs'[i].name == subs[i].name;
    if j == -1 {
      if k == k' {
        assert subs'[|subs|].name == k;
        assert SubIndex(subs', k') == |subs|;
      } else {
        assert SubIndex(subs', k') == SubIndex(subs, k');
      }
    } else {
      assert SubIndex(subs', k') == SubIndex(subs, k');
    }
  }

  lemma AddSubWellFormed(subs: seq<Sub>, k: string, s: Standard)
    requires forall a, b :: 0 <= a < b < |subs| ==> subs[a].name != subs[b].name
    requires forall a :: 0 <= a < |subs| ==> subs[a].items != []
    ensures var subs' := AddSub(subs, k, s);
            && subs' != []
            && (forall a, b :: 0 <= a < b < |subs'| ==> subs'[a].name != subs'[b].name)
            && (forall a :: 0 <= a < |subs'| ==> subs'[a].items != [])
            && (forall k' :: k' in SubNames(subs') <==> k' in SubNames(subs) || k' == k)
  {
    var subs' := AddSub(subs, k, s);
    if SubIndex(subs, k) != -1 {
      assert SubNames(subs') == SubNames(subs);
    } else {
      assert SubNames(subs') == SubNames(subs) + [k];
    }
  }

  /** One grouping step keeps one entry per category and per subcategory
      name, and adds a category entry only for a new category. */
  lemma AddEntryShape(g: seq<Bucket>, c: string, k: string, s: Standard)
    requires WellFormed(g)
    ensures WellFormed(AddEntry(g, c, k, s))
    ensures Categories(AddEntry(g, c, k, s)) == (if c in Categories(g) then Categories(g) else Categories(g) + [c])
  {
    if BucketIndex(g, c) == -1 {
      AddEntryShapeNew(g, c, k, s);
    } else {
      AddEntryShapeKnown(g, c, k, s);
    }
  }

  lemma AddEntryShapeNew(g: seq<Bucket>, c: string, k: string, s: Standard)
    requires WellFormed(g) && BucketIndex(g, c) == -1
    ensures WellFormed(AddEntry(g, c, k, s))
    ensures c !in Categories(g) && Categories(AddEntry(g, c, k, s)) == Categories(g) + [c]
  {
    var g' := AddEntry(g, c, k, s);
    assert g' == g + [Bucket(c, [Sub(k, [s])])];
    assert Categories(g') == Categories(g) + [c];
  }

  lemma AddEntryShapeKnown(g: seq<Bucket>, c: string, k: string, s: Standard)
    requires WellFormed(g) && BucketIndex(g, c) != -1
    ensures WellFormed(AddEntry(g, c, k, s))
    ensures c in Categories(g) && Categories(AddEntry(g, c, k, s)) == Categories(g)
  {
    var i := BucketIndex(g, c);
    var b := Bucket(c, AddSub(g[i].subs, k, s));
    AddSubWellFormed(g[i].subs, k, s);
    WellFormedUpdate(g, i, b);
    var g' := g[i := b];
    assert forall j :: 0 <= j < |g| ==> g'[j].category == g[j].category;
    assert Categories(g') == Categories(g);
    assert Categories(g)[i] == c;
  }

  /** Replacing one entry by a well-formed one of the same category keeps
      the grouping well formed. */
  lemma WellFormedUpdate(g: seq<Bucket>, i: nat, b: Bucket)
    requires WellFormed(g) && i < |g| && b.category == g[i].category && b.subs != []
    requires forall x, y :: 0 <= x < y < |b.subs| ==> b.subs[x].name != b.subs[y].name
    requires forall x :: 0 <= x < |b.subs| ==> b.subs[x].items != []
    ensures WellFormed(g[i := b])
  {
    var g' := g[i := b];
    forall p, q | 0 <= p < q < |g'| ensures g'[p].category != g'[q].category {
      assert g'[p].category == g[p].category && g'[q].category == g[q].category;
    }
    forall p | 0 <= p < |g'| ensures g'[p].subs != [] {
      if p != i { assert g'[p] == g[p]; }
    }
    forall p, x, y | 0 <= p < |g'| && 0 <= x < y < |g'[p].subs| ensures g'[p].subs[x].name != g'[p].subs[y].name {
      if p != i { assert g'[p] == g[p]; }
    }
    forall p, x | 0 <= p < |g'| && 0 <= x < |g'[p].subs| ensures g'[p].subs[x].items != [] {
      if p != i { assert g'[p] == g[p]; }
    }
  }

  lemma {:induction false} BucketIndexSnoc(g: seq<Bucket>, b: Bucket, c: string)
    ensures BucketIndex(g + [b], c) ==
            (if BucketIndex(g, c) != -1 then BucketIndex(g, c) else if b.category == c then |g| else -1)
  {
    if g != [] {
      assert (g + [b])[1..] == g[1..] + [b];
      BucketIndexSnoc(g[1..], b, c);
    }
  }

  lemma {:induction false} BucketIndexUpdate(g: seq<Bucket>, i: nat, b: Bucket, c: string)
    requires i < |g| && b.category == g[i].category
    ensures BucketIndex(g[i := b], c) == BucketIndex(g, c)
  {
    if i > 0 {
      assert g[i := b][1..] == g[1..][i - 1 := b];
      BucketIndexUpdate(g[1..], i - 1, b, c);
    }
  }

  lemma AddEntryNew(g: seq<Bucket>, c: string, k: string, s: Standard, c': string, k': string)
    requires BucketIndex(g, c) == -1
    ensures Lookup(AddEntry(g, c, k, s), c', k') == Lookup(g, c', k') + (if c == c' && k == k' then [s] else [])
    ensures k' in SubNamesOf(AddEntry(g, c, k, s), c') <==> (k' in SubNamesOf(g, c') || (c' == c && k' == k))
  {
    var b := Bucket(c, [Sub(k, [s])]);
    BucketIndexSnoc(g, b, c');
    if c' == c {
      assert SubNames(b.subs) == [k];
    }
  }

  lemma AddEntryKnown(g: seq<Bucket>, c: string, k: string, s: Standard, c': string, k': string)
    requires WellFormed(g)
    requires BucketIndex(g, c) != -1
    ensures Lookup(AddEntry(g, c, k, s), c', k') == Lookup(g, c', k') + (if c == c' && k == k' then [s] else [])
    ensures k' in SubNamesOf(AddEntry(g, c, k, s), c') <==> (k' in SubNamesOf(g, c') || (c' == c && k' == k))
  {
    var i := BucketIndex(g, c);
    AddSubWellFormed(g[i].subs, k, s);
    BucketIndexUpdate(g, i, Bucket(c, AddSub(g[i].subs, k, s)), c');
    if c' == c {
      AddSubLookup(g[i].subs, k, s, k');
    }
  }

  /** One grouping step adds `s` to its own entry and to no other. */
  lemma AddEntryLookup(g: seq<Bucket>, c: string, k: string, s: Standard, c': string, k': string)
    requires WellFormed(g)
    ensures Lookup(AddEntry(g, c, k, s), c', k') == Lookup(g, c', k') + (if c == c' && k == k' then [s] else [])
    ensures k' in SubNamesOf(AddEntry(g, c, k, s), c') <==> (k' in SubNamesOf(g, c') || (c' == c && k' == k))
  {
    if BucketIndex(g, c) == -1 {
      AddEntryNew(g, c, k, s, c', k');
    } else {
      AddEntryKnown(g, c, k, s, c', k');
    }
  }

  /** The keys of `ks` without repeats, each where it first occurs. */
  function FirstSeen(ks: seq<string>): (r: seq<string>)
    ensures forall k :: k in r <==> k in ks
  {
    if ks == [] then []
    else
      var p := FirstSeen(ks[..|ks| - 1]);
      var k := ks[|ks| - 1];
      assert forall j :: j in ks <==> j in ks[..|ks| - 1] || j == k;
      if k in p then p else p + [k]
  }

  /** The category key of each record, in collection order. */
  function CategoryKeys(xs: seq<Standard>): (r: seq<string>)
    ensures |r| == |xs| && forall i :: 0 <= i < |xs| ==> r[i] == CategoryKey(xs[i])
  {
    if xs == [] then [] else CategoryKeys(xs[..|xs| - 1]) + [CategoryKey(xs[|xs| - 1])]
  }

  /** The categories of `grouped` come in the order in which the loop first
      meets them; this order places the categories that the stored order
      does not list. */
  lemma {:induction false} GroupedOrder(xs: seq<Standard>)
    ensures Categories(Grouped(xs)) == FirstSeen(CategoryKeys(xs))
  {
    if xs != [] {
      var p, x := xs[..|xs| - 1], xs[|xs| - 1];
      GroupedOrder(p);
      var g := Grouped(p);
      var c := CategoryKey(x);
      var ks := CategoryKeys(xs);
      assert ks[..|ks| - 1] == CategoryKeys(p) && ks[|ks| - 1] == c;
      var i := BucketIndex(g, c);
      if i == -1 {
        assert c !in Categories(g);
        assert Categories(AddTo(g, x)) == Categories(g) + [c];
      } else {
        assert Categories(g)[i] == c;
        assert Categories(AddTo(g, x)) == Categories(g);
      }
    }
  }

  /** What the grouping loop builds: one entry per category present (in
      order of first appearance, see `GroupedOrder`), and under `[c][k]` exactly the records of
      that category and subcategory in collection order. */
  lemma GroupedFacts(xs: seq<Standard>)
    ensures WellFormed(Grouped(xs))
    ensures forall c :: c in Categories(Grouped(xs)) <==> exists s :: s in xs && CategoryKey(s) == c
    ensures forall c, k :: Lookup(Grouped(xs), c, k) == GroupItems(xs, c, k)
    ensures forall c, k :: k in SubNamesOf(Grouped(xs), c) <==> GroupItems(xs, c, k) != []
  {
    GroupedCategories(xs);
    GroupedLookup(xs);
  }

  lemma {:induction false} GroupedCategories(xs: seq<Standard>)
    ensures WellFormed(Grouped(xs))
    ensures forall c :: c in Categories(Grouped(xs)) <==> exists s :: s in xs && CategoryKey(s) == c
  {
    if xs != [] {
      var p := xs[..|xs| - 1];
      var s := xs[|xs| - 1];
      assert xs == p + [s];
      GroupedCategories(p);
      AddEntryShape(Grouped(p), CategoryKey(s), SubcategoryKey(s), s);
      forall c | true
        ensures c in Categories(Grouped(xs)) <==> exists t :: t in xs && CategoryKey(t) == c
      {
        if c in Categories(Grouped(xs)) && c != CategoryKey(s) {
          var t :| t in p && CategoryKey(t) == c;
          assert t in xs;
        }
        if exists t :: t in xs && CategoryKey(t) == c {
          var t :| t in xs && CategoryKey(t) == c;
          if t != s {
            assert t in p;
          }
        }
      }
    }
  }

  lemma {:induction false} GroupedLookup(xs: seq<Standard>)
    ensures forall c, k :: Lookup(Grouped(xs), c, k) == GroupItems(xs, c, k)
    ensures forall c, k :: k in SubNamesOf(Grouped(xs), c) <==> GroupItems(xs, c, k) != []
  {
    if xs != [] {
      var p := xs[..|xs| - 1];
      var s := xs[|xs| - 1];
      assert xs == p + [s];
      GroupedCategories(p);
      GroupedLookup(p);
      forall c, k | true
        ensures Lookup(Grouped(xs), c, k) == GroupItems(xs, c, k)
        ensures k in SubNamesOf(Grouped(xs), c) <==> GroupItems(xs, c, k) != []
      {
        AddEntryLookup(Grouped(p), CategoryKey(s), SubcategoryKey(s), s, c, k);
        assert GroupItems(xs, c, k) == GroupItems(p, c, k) + (if CategoryKey(s) == c && SubcategoryKey(s) == k then [s] else []);
      }
    }
  }

  /** The loop of the view over the filtered records. */
  method Group(xs: seq<Standard>) returns (grouped: seq<Bucket>)
    ensures grouped == Grouped(xs)
  {
    grouped := [];
    for n := 0 to |xs|
      invariant grouped == Grouped(xs[..n])
    {
      assert xs[..n + 1][..n] == xs[..n];
      var std := xs[n];
      var i := BucketIndex(grouped, CategoryKey(std));
      if i == -1 {
        grouped := grouped + [Bucket(CategoryKey(std), [Sub(SubcategoryKey(std), [std])])];
      } else {
        grouped := grouped[i := Bucket(CategoryKey(std), AddSub(grouped[i].subs, SubcategoryKey(std), std))];
      }
    }
    assert xs[..|xs|] == xs;
  }

  // ---------------------------------------------------------------------
  // Category order
  // ---------------------------------------------------------------------

  /** `allCategories`: the stored order, then each existing category not
      yet listed, in the order given. */
  function AllCategories(order: seq<string>, existing: seq<string>): seq<string> {
    if existing == [] then order
    else
      var a := AllCategories(order, existing[..|existing| - 1]);
      if existing[|existing| - 1] in a then a else a + [existing[|existing| - 1]]
  }

  /** `.filter(cat => grouped[cat])`. */
  function KeepPresent(all: seq<string>, existing: seq<string>): (r: seq<string>)
    ensures forall c :: c in r <==> c in all && c in existing
  {
    if all == [] then []
    else (if all[0] in existing then [all[0]] else []) + KeepPresent(all[1..], existing)
  }

  lemma {:induction false} KeepPresentAppend(a: seq<string>, b: seq<string>, existing: seq<string>)
    ensures KeepPresent(a + b, existing) == KeepPresent(a, existing) + KeepPresent(b, existing)
  {
    if a == [] {
      assert a + b == b;
    } else {
      assert (a + b)[0] == a[0];
      assert (a + b)[1..] == a[1..] + b;
      KeepPresentAppend(a[1..], b, existing);
    }
  }

  lemma {:induction false} AllCategoriesFacts(order: seq<string>, existing: seq<string>)
    ensures |order| <= |AllCategories(order, existing)|
    ensures AllCategories(order, existing)[..|order|] == order
    ensures forall c :: c in AllCategories(order, existing) <==> c in order || c in existing
    ensures forall i :: |order| <= i < |AllCategories(order, existing)| ==> AllCategories(order, existing)[i] !in order
  {
    if existing != [] {
      var p := existing[..|existing| - 1];
      AllCategoriesFacts(order, p);
      assert existing == p + [existing[|existing| - 1]];
      var a := AllCategories(order, p);
      if existing[|existing| - 1] !in a {
        assert (a + [existing[|existing| - 1]])[..|order|] == a[..|order|];
        assert forall c :: c in order ==> c in a[..|order|];
      }
    }
  }

  /** The order of the category blocks. */
  function GroupOrder(order: seq<string>, existing: seq<string>): seq<string> {
    KeepPresent(AllCategories(order, existing), existing)
  }

  /** Exactly the present categories get a block; those of the stored order
      come first, in the stored order, and the others after them. */
  lemma GroupOrderFacts(order: seq<string>, existing: seq<string>)
    ensures forall c :: c in GroupOrder(order, existing) <==> c in existing
    ensures var kept := KeepPresent(order, existing);
            var v := GroupOrder(order, existing);
            && |kept| <= |v|
            && v[..|kept|] == kept
            && forall i :: |kept| <= i < |v| ==> v[i] !in order
  {
    AllCategoriesFacts(order, existing);
    var all := AllCategories(order, existing);
    var rest := all[|order|..];
    assert all == order + rest;
    KeepPresentAppend(order, rest, existing);
    var kept := KeepPresent(order, existing);
    var v := GroupOrder(order, existing);
    assert v == kept + KeepPresent(rest, existing);
    forall i | |kept| <= i < |v| ensures v[i] !in order {
      assert v[i] in KeepPresent(rest, existing);
      var m :| 0 <= m < |rest| && rest[m] == v[i];
      assert all[|order| + m] == v[i];
    }
  }

  // ---------------------------------------------------------------------
  // Subcategory order
  // ---------------------------------------------------------------------

  /** The sort key: the position in the stored order, 999 when absent. */
  function Rank(order: seq<string>, k: string): int {
    var i := IndexOf(order, k);
    if i == -1 then 999 else i
  }

  predicate SortedByRank(order: seq<string>, s: seq<string>) {
    forall i, j :: 0 <= i < j < |s| ==> Rank(order, s[i]) <= Rank(order, s[j])
  }

  /** Place `k` after every name ranked no later than it. */
  function Insert(order: seq<string>, k: string, s: seq<string>): seq<string> {
    if s == [] then [k]
    else if Rank(order, s[|s| - 1]) <= Rank(order, k) then s + [k]
    else Insert(order, k, s[..|s| - 1]) + [s[|s| - 1]]
  }

  /** The subcategory names sorted by rank, names of equal rank kept in
      their insertion order. */
  function SortByRank(order: seq<string>, ks: seq<string>): seq<string> {
    if ks == [] then [] else Insert(order, ks[|ks| - 1], SortByRank(order, ks[..|ks| - 1]))
  }

  lemma {:induction false} InsertMultiset(order: seq<string>, k: string, s: seq<string>)
    ensures multiset(Insert(order, k, s)) == multiset(s) + multiset{k}
  {
    if s != [] && Rank(order, s[|s| - 1]) > Rank(order, k) {
      var p := s[..|s| - 1];
      assert s == p + [s[|s| - 1]];
      InsertMultiset(order, k, p);
    }
  }

  lemma SortedSnoc(order: seq<string>, q: seq<string>, last: string)
    requires SortedByRank(order, q)
    requires forall x :: x in q ==> Rank(order, x) <= Rank(order, last)
    ensures SortedByRank(order, q + [last])
  {
    forall i, j | 0 <= i < j < |q| + 1 ensures Rank(order, (q + [last])[i]) <= Rank(order, (q + [last])[j]) {
      if j == |q| {
        assert q[i] in q;
      }
    }
  }

  lemma {:induction false} InsertSorted(order: seq<string>, k: string, s: seq<string>)
    requires SortedByRank(order, s)
    ensures SortedByRank(order, Insert(order, k, s))
  {
    if s == [] {
    } else if Rank(order, s[|s| - 1]) <= Rank(order, k) {
      SortedSnoc(order, s, k);
    } else {
      var p := s[..|s| - 1];
      var last := s[|s| - 1];
      assert SortedByRank(order, p);
      InsertSorted(order, k, p);
      InsertMultiset(order, k, p);
      var q := Insert(order, k, p);
      forall x | x in q ensures Rank(order, x) <= Rank(order, last) {
        assert x in multiset(q);
        if x != k {
          assert x in multiset(p);
          var i :| 0 <= i < |p| && p[i] == x;
          assert s[i] == x;
        }
      }
      SortedSnoc(order, q, last);
    }
  }

  /** The sort orders by rank and rearranges without adding or losing a
      name. */
  lemma {:induction false} SortByRankFacts(order: seq<string>, ks: seq<string>)
    ensures SortedByRank(order, SortByRank(order, ks))
    ensures multiset(SortByRank(order, ks)) == multiset(ks)
  {
    if ks != [] {
      var p := ks[..|ks| - 1];
      assert ks == p + [ks[|ks| - 1]];
      SortByRankFacts(order, p);
      InsertSorted(order, ks[|ks| - 1], SortByRank(order, p));
      InsertMultiset(order, ks[|ks| - 1], SortByRank(order, p));
    }
  }

  // ---------------------------------------------------------------------
  // The rendered view
  // ---------------------------------------------------------------------

  datatype SubGroup = SubGroup(name: string, items: seq<Standard>)
  datatype CategoryGroup = CategoryGroup(name: string, subgroups: seq<SubGroup>)

  function CategoryView(g: seq<Bucket>, subOrder: seq<string>, c: string): CategoryGroup {
    var ks := SortByRank(subOrder, SubNamesOf(g, c));
    CategoryGroup(c, seq(|ks|, j requires 0 <= j < |ks| => SubGroup(ks[j], Lookup(g, c, ks[j]))))
  }

  /** The blocks `renderStandards` draws for a filter text. */
  function RenderView(stds: seq<Standard>, filter: string, catOrder: seq<string>, subOrder: seq<string>): seq<CategoryGroup> {
    var g := Grouped(Filtered(stds, filter));
    var order := GroupOrder(catOrder, Categories(g));
    seq(|order|, i requires 0 <= i < |order| => CategoryView(g, subOrder, order[i]))
  }

  /** The drawing loop of the view: one block per category, in order. */
  method DrawCategories(g: seq<Bucket>, subOrder: seq<string>, order: seq<string>) returns (view: seq<CategoryGroup>)
    ensures view == seq(|order|, i requires 0 <= i < |order| => CategoryView(g, subOrder, order[i]))
  {
    view := [];
    for i := 0 to |order|
      invariant |view| == i
      invariant forall j :: 0 <= j < i ==> view[j] == CategoryView(g, subOrder, order[j])
    {
      var block := CategoryView(g, subOrder, order[i]);
      view := view + [block];
    }
  }

  /** Every record drawn matches the filter and sits under its own category
      and subcategory; no block is empty; subcategories are drawn in rank
      order. */
  lemma ViewSound(stds: seq<Standard>, filter: string, catOrder: seq<string>, subOrder: seq<string>)
    ensures var v := RenderView(stds, filter, catOrder, subOrder);
            forall i :: 0 <= i < |v| ==>
              && v[i].subgroups != []
              && SortedByRank(subOrder, SubNames'(v[i].subgroups))
              && forall j :: 0 <= j < |v[i].subgroups| ==>
                   && v[i].subgroups[j].items != []
                   && forall s :: s in v[i].subgroups[j].items ==>
                        s in stds && Matches(s, NormalizeText(Present(filter))) &&
                        CategoryKey(s) == v[i].name && SubcategoryKey(s) == v[i].subgroups[j].name
  {
    var xs := Filtered(stds, filter);
    var g := Grouped(xs);
    GroupOrderFacts(catOrder, Categories(g));
    var v := RenderView(stds, filter, catOrder, subOrder);
    forall i | 0 <= i < |v|
      ensures v[i].subgroups != []
      ensures SortedByRank(subOrder, SubNames'(v[i].subgroups))
      ensures forall j :: 0 <= j < |v[i].subgroups| ==>
                   && v[i].subgroups[j].items != []
                   && forall s :: s in v[i].subgroups[j].items ==>
                        s in stds && Matches(s, NormalizeText(Present(filter))) &&
                        CategoryKey(s) == v[i].name && SubcategoryKey(s) == v[i].subgroups[j].name
    {
      var c := GroupOrder(catOrder, Categories(g))[i];
      assert v[i] == CategoryView(g, subOrder, c);
      CategoryViewSound(xs, subOrder, c);
    }
  }

  /** The block of one category present in the grouping: not empty, its
      subcategories in rank order, each holding records of that category
      and subcategory only, and at least one. */
  lemma CategoryViewSound(xs: seq<Standard>, subOrder: seq<string>, c: string)
    requires c in Categories(Grouped(xs))
    ensures var cv := CategoryView(Grouped(xs), subOrder, c);
            && cv.name == c
            && cv.subgroups != []
            && SortedByRank(subOrder, SubNames'(cv.subgroups))
            && forall j :: 0 <= j < |cv.subgroups| ==>
                 && cv.subgroups[j].items != []
                 && forall s :: s in cv.subgroups[j].items ==>
                      s in xs && CategoryKey(s) == c && SubcategoryKey(s) == cv.subgroups[j].name
  {
    var g := Grouped(xs);
    GroupedFacts(xs);
    var cv := CategoryView(g, subOrder, c);
    var b := BucketIndex(g, c);
    var ks := SortByRank(subOrder, SubNamesOf(g, c));
    SortByRankFacts(subOrder, SubNamesOf(g, c));
    assert SubNamesOf(g, c) == SubNames(g[b].subs);
    assert |SubNamesOf(g, c)| > 0;
    assert |ks| == |SubNamesOf(g, c)| by {
      assert |multiset(ks)| == |multiset(SubNamesOf(g, c))|;
    }
    assert SubNames'(cv.subgroups) == ks;
    forall j | 0 <= j < |cv.subgroups|
      ensures cv.subgroups[j].items != []
      ensures forall s :: s in cv.subgroups[j].items ==>
                s in xs && CategoryKey(s) == c && SubcategoryKey(s) == cv.subgroups[j].name
    {
      assert ks[j] in multiset(ks);
      assert ks[j] in SubNamesOf(g, c);
      assert cv.subgroups[j].items == GroupItems(xs, c, ks[j]);
    }
  }

  function SubNames'(gs: seq<SubGroup>): (r: seq<string>)
    ensures |r| == |gs| && forall i :: 0 <= i < |gs| ==> r[i] == gs[i].name
  {
    seq(|gs|, i requires 0 <= i < |gs| => gs[i].name)
  }

  /** A subcategory name of a category gets its block in the category's
      view. */
  lemma CategoryViewHas(g: seq<Bucket>, subOrder: seq<string>, c: string, k: string)
    requires k in SubNamesOf(g, c)
    ensures exists j :: 0 <= j < |CategoryView(g, subOrder, c).subgroups| &&
              CategoryView(g, subOrder, c).subgroups[j] == SubGroup(k, Lookup(g, c, k))
  {
    var ks := SortByRank(subOrder, SubNamesOf(g, c));
    SortByRankFacts(subOrder, SubNamesOf(g, c));
    assert k in multiset(ks);
    var j :| 0 <= j < |ks| && ks[j] == k;
    assert CategoryView(g, subOrder, c).subgroups[j] == SubGroup(k, Lookup(g, c, k));
  }

  /** Every record that matches the filter is drawn, under its own category
      and subcategory. */
  lemma ViewComplete(stds: seq<Standard>, filter: string, catOrder: seq<string>, subOrder: seq<string>, s: Standard)
    requires s in stds && Matches(s, NormalizeText(Present(filter)))
    ensures var v := RenderView(stds, filter, catOrder, subOrder);
            exists i, j :: 0 <= i < |v| && 0 <= j < |v[i].subgroups| &&
              v[i].name == CategoryKey(s) && v[i].subgroups[j].name == SubcategoryKey(s) &&
              s in v[i].subgroups[j].items
  {
    var xs := Filtered(stds, filter);
    var g := Grouped(xs);
    GroupedFacts(xs);
    GroupOrderFacts(catOrder, Categories(g));
    var v := RenderView(stds, filter, catOrder, subOrder);
    var order := GroupOrder(catOrder, Categories(g));
    var c := CategoryKey(s);
    var k := SubcategoryKey(s);
    assert s in xs;
    assert c in Categories(g);
    var i :| 0 <= i < |order| && order[i] == c;
    assert v[i] == CategoryView(g, subOrder, c);
    assert s in GroupItems(xs, c, k);
    CategoryViewHas(g, subOrder, c, k);
    var j :| 0 <= j < |v[i].subgroups| && v[i].subgroups[j] == SubGroup(k, Lookup(g, c, k));
    assert s in v[i].subgroups[j].items;
  }
}
