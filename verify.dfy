/**
 * The verification script: it reads the registry's records out of the
 * `data.js` text, asks the scraper that fits each record's source URL for
 * the live values, compares them with the local ones and classifies every
 * record as OK, SKIPPED, MISMATCH, ERROR, WARNING or UPDATE with a list of
 * issue strings of the form `<Field>: Local='…' vs Live='…'`.
 */
module Verify {
  import opened Text

  /** A record as the script loads it: every value is a string, `''` when
      the field was not found. */
  datatype PyStd = PyStd(id: string, name: string, cost: string, effectiveDate: string,
                         expiryDate: string, sourceUrl: string, version: string)

  /** What a scraper returned; each key may be absent. `accessible` is the
      truthiness of `live_data.get('accessible')`. */
  datatype LiveData = LiveData(edition: Option<string>, publicationDate: Option<string>,
                               price: Option<string>, stabilityDate: Option<string>,
                               version: Option<string>, status: Option<string>,
                               error: Option<string>, accessible: bool)

  // ---------------------------------------------------------------------
  // Numeric tokens
  // ---------------------------------------------------------------------

  /** The length of the run of digits starting at `i`. */
  function DigitRun(s: string, i: nat): (n: nat)
    requires i <= |s|
    ensures i + n <= |s|
    ensures forall k :: i <= k < i + n ==> IsDigit(s[k])
    ensures i + n == |s| || !IsDigit(s[i + n])
    decreases |s| - i
  {
    if i < |s| && IsDigit(s[i]) then 1 + DigitRun(s, i + 1) else 0
  }

  /** The first position at or after `i` holding a digit. */
  function FirstDigitFrom(s: string, i: nat): (r: Option<nat>)
    requires i <= |s|
    ensures r.None? ==> forall k :: i <= k < |s| ==> !IsDigit(s[k])
    ensures r.Some? ==> i <= r.value < |s| && IsDigit(s[r.value]) &&
                        forall k :: i <= k < r.value ==> !IsDigit(s[k])
    decreases |s| - i
  {
    if i == |s| then None
    else if IsDigit(s[i]) then Some(i)
    else FirstDigitFrom(s, i + 1)
  }

  /** `re.search(r'(\d+)', s)`: the first run of digits. */
  function FirstDigits(s: string): (r: Option<string>)
    ensures r.None? <==> forall k :: 0 <= k < |s| ==> !IsDigit(s[k])
    ensures r.Some? ==> r.value != "" && forall k :: 0 <= k < |r.value| ==> IsDigit(r.value[k])
  {
    match FirstDigitFrom(s, 0)
    case None => None
    case Some(k) => Some(s[k..k + DigitRun(s, k)])
  }

  /** `re.search(r'([\d]+\.?\d*)', s)`: the first run of digits, with a
      following dot and the digits after it when there is a dot. */
  function FirstNumber(s: string): (r: Option<string>)
    ensures r.None? <==> forall k :: 0 <= k < |s| ==> !IsDigit(s[k])
    ensures r.Some? ==> r.value != "" && IsDigit(r.value[0])
  {
    match FirstDigitFrom(s, 0)
    case None => None
    case Some(k) =>
      var e := k + DigitRun(s, k);
      if e < |s| && s[e] == '.' then Some(s[k..e + 1 + DigitRun(s, e + 1)])
      else Some(s[k..e])
  }

  /** The edition token the comparator uses: the first number, or the whole
      string when it has no digit. */
  function EditionToken(s: string): string {
    match FirstNumber(s)
    case Some(t) => t
    case None => s
  }

  /** The token is empty exactly when the string is. */
  lemma EditionTokenEmpty(s: string)
    ensures EditionToken(s) == "" <==> s == ""
  {
  }

  /** `re.sub(r'[^\d]', '', s)`: the digits of `s`, in order. */
  function DigitsOnly(s: string): (r: string)
    ensures |r| <= |s|
    ensures forall k :: 0 <= k < |r| ==> IsDigit(r[k])
  {
    if s == [] then ""
    else DigitsOnly(s[..|s| - 1]) + (if IsDigit(s[|s| - 1]) then [s[|s| - 1]] else "")
  }

  /** `DigitsOnly` is empty exactly when there is no digit, and keeps a
      string of digits as it is. */
  lemma DigitsOnlyFacts(s: string)
    ensures DigitsOnly(s) == "" <==> forall k :: 0 <= k < |s| ==> !IsDigit(s[k])
    ensures (forall k :: 0 <= k < |s| ==> IsDigit(s[k])) ==> DigitsOnly(s) == s
  {
    DigitsOnlyEmpty(s);
    if forall k :: 0 <= k < |s| ==> IsDigit(s[k]) {
      DigitsOnlyOfDigits(s);
    }
  }

  /** `DigitsOnly` works character by character: it distributes over
      concatenation ... */
  lemma {:induction false} DigitsOnlyAppend(a: string, b: string)
    ensures DigitsOnly(a + b) == DigitsOnly(a) + DigitsOnly(b)
  {
    if b == [] {
      assert a + b == a;
    } else {
      var p := b[..|b| - 1];
      assert (a + b)[..|a + b| - 1] == a + p;
      assert (a + b)[|a + b| - 1] == b[|b| - 1];
      DigitsOnlyAppend(a, p);
    }
  }

  /** ... and keeps exactly the digits. */
  lemma DigitsOnlySingle(c: char)
    ensures DigitsOnly([c]) == (if IsDigit(c) then [c] else "")
  {
    assert [c][..0] == [];
  }

  lemma {:induction false} DigitsOnlyEmpty(s: string)
    ensures DigitsOnly(s) == "" <==> forall k :: 0 <= k < |s| ==> !IsDigit(s[k])
  {
    if s != [] {
      var p := s[..|s| - 1];
      DigitsOnlyEmpty(p);
      assert forall k :: 0 <= k < |p| ==> p[k] == s[k];
      assert DigitsOnly(s) == DigitsOnly(p) + (if IsDigit(s[|s| - 1]) then [s[|s| - 1]] else "");
    }
  }

  lemma {:induction false} DigitsOnlyOfDigits(s: string)
    requires forall k :: 0 <= k < |s| ==> IsDigit(s[k])
    ensures DigitsOnly(s) == s
  {
    if s != [] {
      var p := s[..|s| - 1];
      assert forall k :: 0 <= k < |p| ==> p[k] == s[k];
      DigitsOnlyOfDigits(p);
      assert s == p + [s[|s| - 1]];
    }
  }

  // ---------------------------------------------------------------------
  // The comparator
  // ---------------------------------------------------------------------

  /** The issue string for one field. */
  function Issue(tag: string, local: string, live: string): string {
    tag + ": Local='" + local + "' vs Live='" + live + "'"
  }

  /** `value or '(empty)'`. */
  function OrEmptyMark(s: string): string {
    if s != "" then s else "(empty)"
  }

  function EditionIssue(std: PyStd, live: LiveData): seq<string> {
    match live.edition
    case None => []
    case Some(ed) =>
      var liveEd, localEd := EditionToken(ed), EditionToken(std.version);
      if liveEd != "" && (localEd == "" || liveEd != localEd) then [Issue("Edition", OrEmptyMark(std.version), ed)]
      else []
  }

  function DateIssue(std: PyStd, live: LiveData): seq<string> {
    match live.publicationDate
    case None => []
    case Some(d) => if d != std.effectiveDate then [Issue("Date", std.effectiveDate, d)] else []
  }

  function CostIssue(std: PyStd, live: LiveData): seq<string> {
    match live.price
    case None => []
    case Some(p) =>
      var livePrice, localPrice := DigitsOnly(p), DigitsOnly(std.cost);
      if livePrice != "" && (localPrice == "" || livePrice != localPrice) then [Issue("Cost", OrEmptyMark(std.cost), p)]
      else []
  }

  function StabilityIssue(std: PyStd, live: LiveData): seq<string> {
    match live.stabilityDate
    case None => []
    case Some(st) => if !Contains(std.expiryDate, st) then [Issue("Stability", std.expiryDate, st)] else []
  }

  /** `verify_standard_logic`: the issues in the order edition, date, cost,
      stability. */
  function VerifyStandardLogic(std: PyStd, live: LiveData): (r: seq<string>)
    ensures |r| <= 4
  {
    EditionIssue(std, live) + DateIssue(std, live) + CostIssue(std, live) + StabilityIssue(std, live)
  }

  /** An edition issue is raised exactly when the live edition is non-empty
      and the local version's token is empty or different; it shows the
      local version, `'(empty)'` for none, and the live edition as found. */
  lemma EditionIssueIff(std: PyStd, live: LiveData)
    ensures EditionIssue(std, live) != [] <==>
              live.edition.Some? && live.edition.value != "" &&
              (EditionToken(std.version) == "" || EditionToken(live.edition.value) != EditionToken(std.version))
    ensures EditionIssue(std, live) != [] ==>
              EditionIssue(std, live) == [Issue("Edition", OrEmptyMark(std.version), live.edition.value)]
    ensures std.version == "" && live.edition.Some? && live.edition.value != "" ==>
              EditionIssue(std, live) == [Issue("Edition", "(empty)", live.edition.value)]
  {
    if live.edition.Some? {
      EditionTokenEmpty(live.edition.value);
      EditionTokenEmpty(std.version);
    }
  }

  /** Cost is compared on digits only: a live price without digits never
      raises an issue, and prices with the same digits never differ. */
  lemma CostIssueFacts(std: PyStd, live: LiveData)
    ensures live.price.Some? && (forall k :: 0 <= k < |live.price.value| ==> !IsDigit(live.price.value[k])) ==>
              CostIssue(std, live) == []
    ensures live.price.Some? && DigitsOnly(live.price.value) == DigitsOnly(std.cost) ==> CostIssue(std, live) == []
    ensures CostIssue(std, live) != [] ==>
              CostIssue(std, live) == [Issue("Cost", OrEmptyMark(std.cost), live.price.value)]
    ensures std.cost == "" && live.price.Some? && DigitsOnly(live.price.value) != "" ==>
              CostIssue(std, live) == [Issue("Cost", "(empty)", live.price.value)]
  {
    if live.price.Some? {
      DigitsOnlyFacts(live.price.value);
    }
  }

  /** A stability issue exactly when the live value is not part of the local
      expiry; a date issue exactly when the dates differ. */
  lemma DateStabilityIff(std: PyStd, live: LiveData)
    ensures StabilityIssue(std, live) != [] <==>
              live.stabilityDate.Some? && !Contains(std.expiryDate, live.stabilityDate.value)
    ensures DateIssue(std, live) != [] <==>
              live.publicationDate.Some? && live.publicationDate.value != std.effectiveDate
    ensures live.stabilityDate == Some("") ==> StabilityIssue(std, live) == []
  {
    if live.stabilityDate == Some("") {
      assert OccursAt(std.expiryDate, "", 0);
    }
  }

  /** Which field an issue string is about: its tag rank. */
  function TagRank(issue: string): nat {
    if StartsWith(issue, "Edition: ") then 0
    else if StartsWith(issue, "Date: ") then 1
    else if StartsWith(issue, "Cost: ") then 2
    else if StartsWith(issue, "Stability: ") then 3
    else 4
  }

  lemma IssueRank(tag: string, local: string, live: string, rank: nat)
    requires (tag == "Edition" && rank == 0) || (tag == "Date" && rank == 1) ||
             (tag == "Cost" && rank == 2) || (tag == "Stability" && rank == 3)
    ensures TagRank(Issue(tag, local, live)) == rank
  {
    var s := Issue(tag, local, live);
    var p := tag + ": ";
    forall k | 0 <= k < |p| ensures s[k] == p[k] {
    }
    assert s[..|p|] == p;
    assert s[0] == tag[0];
  }

  /** Keys absent from the live data raise nothing; the issues come in the
      order edition, date, cost, stability, each field at most once. */
  lemma IssueOrder(std: PyStd, live: LiveData)
    ensures live.edition.None? && live.publicationDate.None? && live.price.None? && live.stabilityDate.None? ==>
              VerifyStandardLogic(std, live) == []
    ensures var r := VerifyStandardLogic(std, live);
            forall i, j :: 0 <= i < j < |r| ==> TagRank(r[i]) < TagRank(r[j])
  {
    var e, d, c, s := EditionIssue(std, live), DateIssue(std, live), CostIssue(std, live), StabilityIssue(std, live);
    if e != [] { IssueRank("Edition", OrEmptyMark(std.version), live.edition.value, 0); }
    if d != [] { IssueRank("Date", std.effectiveDate, live.publicationDate.value, 1); }
    if c != [] { IssueRank("Cost", OrEmptyMark(std.cost), live.price.value, 2); }
    if s != [] { IssueRank("Stability", std.expiryDate, live.stabilityDate.value, 3); }
    PieceRanks(TagRank, e, d, c, s);
    OrderedPieces(TagRank, e, d, c, s);
  }

  // ---------------------------------------------------------------------
  // Reading records out of the data file
  // ---------------------------------------------------------------------

  /** The characters Python's `\s` matches in a text pattern. */
  predicate PyIsSpace(c: char) {
    c == ' ' || ('\t' <= c <= '\r') || ('\U{001C}' <= c <= '\U{001F}') || c == '\U{0085}' ||
    c == '\U{00A0}' || c == '\U{1680}' || ('\U{2000}' <= c <= '\U{200A}') ||
    c == '\U{2028}' || c == '\U{2029}' || c == '\U{202F}' || c == '\U{205F}' || c == '\U{3000}'
  }

  /** The end of the run of white space starting at `i`. */
  function SpaceEnd(s: string, i: nat): (r: nat)
    requires i <= |s|
    ensures i <= r <= |s| && (r == |s| || !PyIsSpace(s[r]))
    decreases |s| - i
  {
    if i < |s| && PyIsSpace(s[i]) then SpaceEnd(s, i + 1) else i
  }

  /** The end of the line containing position `i`: the next `\n` or the end. */
  function LineEnd(s: string, i: nat): (r: nat)
    requires i <= |s|
    ensures i <= r <= |s| && (r == |s| || s[r] == '\n')
    ensures forall k :: i <= k < r ==> s[k] != '\n'
    decreases |s| - i
  {
    if i < |s| && s[i] != '\n' then LineEnd(s, i + 1) else i
  }

  /** Where a comment line that starts at `i` ends: the pattern "line start, white space, two slashes, rest of line" in
      multi-line mode, tried at `i`. */
  function CommentAt(s: string, i: nat): (r: Option<nat>)
    requires i <= |s|
    ensures r.Some? ==> i < r.value <= |s|
  {
    if i == 0 || s[i - 1] == '\n' then
      var j := SpaceEnd(s, i);
      if j + 2 <= |s| && s[j] == '/' && s[j + 1] == '/' then Some(LineEnd(s, j + 2)) else None
    else None
  }

  /** Comment-line removal (`re.sub` of the multi-line comment pattern with `''`) of `s[i..]`. */
  function StripFrom(s: string, i: nat): (r: string)
    requires i <= |s|
    ensures |r| <= |s| - i
    decreases |s| - i
  {
    if i == |s| then ""
    else match CommentAt(s, i)
      case Some(e) => StripFrom(s, e)
      case None => [s[i]] + StripFrom(s, i + 1)
  }

  /** Removes every comment line, together with the white space before it. */
  function StripComments(s: string): string {
    StripFrom(s, 0)
  }

  /** A text without `//` has no comment lines. */
  lemma {:induction false} StripFromNoComment(s: string, i: nat)
    requires i <= |s|
    requires forall k :: 0 <= k < |s| - 1 ==> !(s[k] == '/' && s[k + 1] == '/')
    ensures StripFrom(s, i) == s[i..]
    decreases |s| - i
  {
    if i < |s| {
      StripFromNoComment(s, i + 1);
      assert s[i..] == [s[i]] + s[i + 1..];
    }
  }

  /** Python's `\w` on the characters the data file uses: ASCII letters,
      digits and the underscore. */
  predicate IsWordChar(c: char) {
    ('a' <= c <= 'z') || ('A' <= c <= 'Z') || IsDigit(c) || c == '_'
  }

  /** `\b` at position `i`. */
  predicate WordBoundary(s: string, i: nat)
    requires i <= |s|
  {
    (i > 0 && IsWordChar(s[i - 1])) != (i < |s| && IsWordChar(s[i]))
  }

  predicate IsQuote(c: char) {
    c == '\'' || c == '"'
  }

  /** The first quote character at or after `i`. */
  function QuoteFrom(s: string, i: nat): (r: nat)
    requires i <= |s|
    ensures i <= r <= |s| && (r == |s| || IsQuote(s[r]))
    ensures forall k :: i <= k < r ==> !IsQuote(s[k])
    decreases |s| - i
  {
    if i < |s| && !IsQuote(s[i]) then QuoteFrom(s, i + 1) else i
  }

  /** `\s*:\s*['"]([^'"]*)['"]` from position `k`. */
  function ValueAfterKey(s: string, k: nat): (r: Option<string>)
    requires k <= |s|
    ensures r.Some? ==> forall m :: 0 <= m < |r.value| ==> !IsQuote(r.value[m])
  {
    var a := SpaceEnd(s, k);
    if a < |s| && s[a] == ':' then
      var b := SpaceEnd(s, a + 1);
      if b < |s| && IsQuote(s[b]) then
        var e := QuoteFrom(s, b + 1);
        if e < |s| then Some(s[b + 1..e]) else None
      else None
    else None
  }

  /** The field pattern tried at position `i`: `"name"` first, then the
      bare word `name`. */
  function FieldAt(s: string, name: string, i: nat): (r: Option<string>)
    requires i <= |s|
    ensures r.Some? ==> forall m :: 0 <= m < |r.value| ==> !IsQuote(r.value[m])
    ensures r.Some? ==> OccursAt(s, name, i) || OccursAt(s, name, i + 1)
  {
    var quoted := "\"" + name + "\"";
    var first := if OccursAt(s, quoted, i) then ValueAfterKey(s, i + |quoted|) else None;
    if first.Some? then
      QuotedOccurs(s, name, i);
      first
    else if WordBoundary(s, i) && OccursAt(s, name, i) then ValueAfterKey(s, i + |name|)
    else None
  }

  /** Where `"name"` occurs, `name` occurs one place later. */
  lemma QuotedOccurs(s: string, name: string, i: nat)
    requires OccursAt(s, "\"" + name + "\"", i)
    ensures OccursAt(s, name, i + 1)
  {
    var q := "\"" + name + "\"";
    var w := s[i..i + |q|];
    forall k | 0 <= k < |name| ensures s[i + 1 + k] == name[k] {
      assert s[i + 1 + k] == w[1 + k];
      assert q[1 + k] == name[k];
    }
    assert s[i + 1..i + 1 + |name|] == name;
  }

  function FieldFrom(s: string, name: string, i: nat): (r: string)
    requires i <= |s|
    ensures forall m :: 0 <= m < |r| ==> !IsQuote(r[m])
    decreases |s| - i
  {
    if i == |s| then ""
    else match FieldAt(s, name, i)
      case Some(v) => v
      case None => FieldFrom(s, name, i + 1)
  }

  /** `get_field(name, text)`: the value of the leftmost match, `''` when
      there is none. The value never holds a quote character. */
  function GetField(name: string, text: string): (r: string)
    ensures forall m :: 0 <= m < |r| ==> !IsQuote(r[m])
  {
    FieldFrom(text, name, 0)
  }

  /** A field whose name does not occur in the text is read as `''`. */
  lemma {:induction false} FieldFromAbsent(s: string, name: string, i: nat)
    requires i <= |s| && !Contains(s, name)
    ensures FieldFrom(s, name, i) == ""
    decreases |s| - i
  {
    if i < |s| {
      assert !OccursAt(s, name, i) && !OccursAt(s, name, i + 1);
      assert FieldAt(s, name, i).None?;
      FieldFromAbsent(s, name, i + 1);
    }
  }

  lemma GetFieldAbsent(name: string, text: string)
    requires !Contains(text, name)
    ensures GetField(name, text) == ""
  {
    FieldFromAbsent(text, name, 0);
  }

  /** A chunk that starts with `"name": "v"` is read back as `v`. */
  lemma GetFieldJson(name: string, v: string, rest: string)
    requires forall m :: 0 <= m < |v| ==> !IsQuote(v[m])
    ensures GetField(name, "\"" + name + "\": \"" + v + "\"" + rest) == v
  {
    var q := "\"" + name + "\"";
    var t := ": \"" + v + "\"" + rest;
    var s := q + t;
    assert s == "\"" + name + "\": \"" + v + "\"" + rest;
    assert s[..|q|] == q;
    assert OccursAt(s, q, 0);
    assert s[|q|..] == t;
    ValueAfterColon(s, |q|, v);
    assert FieldAt(s, name, 0) == Some(v);
  }

  /** `: "v"` at position `k` is read as the value `v`. */
  lemma ValueAfterColon(s: string, k: nat, v: string)
    requires forall m :: 0 <= m < |v| ==> !IsQuote(v[m])
    requires k + |v| + 4 <= |s|
    requires s[k..][..|v| + 4] == ": \"" + v + "\""
    ensures ValueAfterKey(s, k) == Some(v)
  {
    var w := s[k..][..|v| + 4];
    assert s[k] == w[0] == ':' && s[k + 1] == w[1] == ' ' && s[k + 2] == w[2] == '"';
    assert SpaceEnd(s, k) == k;
    assert SpaceEnd(s, k + 2) == k + 2;
    assert SpaceEnd(s, k + 1) == k + 2;
    var e := k + 3 + |v|;
    forall m | k + 3 <= m < e ensures s[m] == v[m - k - 3] {
      assert s[m] == w[m - k];
    }
    assert s[k + 3..e] == v;
    assert s[e] == w[|v| + 3] == '"';
    assert QuoteFrom(s, k + 3) == e;
  }

  /** The records of a data file's chunks: those holding `"id"` or `id:`
      whose id and name are both non-empty. */
  predicate MentionsId(chunk: string) {
    Contains(chunk, "\"id\"") || Contains(chunk, "id:")
  }

  function ChunkRecord(chunk: string): PyStd {
    PyStd(GetField("id", chunk), GetField("name", chunk), GetField("cost", chunk),
          GetField("effectiveDate", chunk), GetField("expiryDate", chunk),
          GetField("sourceUrl", chunk), GetField("version", chunk))
  }

  predicate Keeps(chunk: string) {
    MentionsId(chunk) && ChunkRecord(chunk).id != "" && ChunkRecord(chunk).name != ""
  }

  function Loaded(chunks: seq<string>): seq<PyStd> {
    if chunks == [] then []
    else
      var last := chunks[|chunks| - 1];
      Loaded(chunks[..|chunks| - 1]) + (if Keeps(last) then [ChunkRecord(last)] else [])
  }

  /** The records `load_standards` returns for a file's text. */
  function LoadSpec(content: string): seq<PyStd> {
    Loaded(Split(StripComments(content), '{'))
  }

  /** Every value holds no quote character. */
  predicate QuoteFreeRecord(r: PyStd) {
    (forall m :: 0 <= m < |r.id| ==> !IsQuote(r.id[m])) &&
    (forall m :: 0 <= m < |r.name| ==> !IsQuote(r.name[m])) &&
    (forall m :: 0 <= m < |r.cost| ==> !IsQuote(r.cost[m])) &&
    (forall m :: 0 <= m < |r.effectiveDate| ==> !IsQuote(r.effectiveDate[m])) &&
    (forall m :: 0 <= m < |r.expiryDate| ==> !IsQuote(r.expiryDate[m])) &&
    (forall m :: 0 <= m < |r.sourceUrl| ==> !IsQuote(r.sourceUrl[m])) &&
    (forall m :: 0 <= m < |r.version| ==> !IsQuote(r.version[m]))
  }

  /** Every loaded record has a non-empty id and name, no value holds a
      quote, and there is at most one record per chunk. */
  lemma {:induction false} LoadedFacts(chunks: seq<string>)
    ensures |Loaded(chunks)| <= |chunks|
    ensures forall r :: r in Loaded(chunks) ==> r.id != "" && r.name != "" && QuoteFreeRecord(r)
  {
    if chunks != [] {
      LoadedFacts(chunks[..|chunks| - 1]);
    }
  }

  /** `load_standards` on the text of the data file. */
  method LoadStandards(content: string) returns (standards: seq<PyStd>)
    ensures standards == LoadSpec(content)
    ensures forall r :: r in standards ==> r.id != "" && r.name != "" && QuoteFreeRecord(r)
  {
    var chunks := Split(StripComments(content), '{');
    standards := [];
    for n := 0 to |chunks|
      invariant standards == Loaded(chunks[..n])
    {
      var chunk := chunks[n];
      assert chunks[..n + 1][..n] == chunks[..n];
      if !MentionsId(chunk) {
        continue;
      }
      var std := ChunkRecord(chunk);
      if std.id != "" && std.name != "" {
        standards := standards + [std];
      }
    }
    assert chunks[..|chunks|] == chunks;
    LoadedFacts(chunks);
  }

  // ---------------------------------------------------------------------
  // Classifying every record
  // ---------------------------------------------------------------------

  datatype Status = Ok | Skipped | Mismatch | Error | Warning | FoundUpdate

  /** Which scraper a URL goes to. */
  datatype Site = Iec | Ieee | Accuristech | Bsi | Generic

  datatype ResultEntry = ResultEntry(id: string, name: string, url: string, status: Status, issues: seq<string>)

  /** A record is skipped when it has no URL or its URL is a search page. */
  predicate SkipUrl(url: string) {
    url == "" || Contains(url, "/search/")
  }

  function SiteOf(url: string): Site {
    if Contains(url, "webstore.iec.ch") then Iec
    else if Contains(url, "ieee.org") then Ieee
    else if Contains(url, "store.accuristech.com") then Accuristech
    else if Contains(url, "bsigroup.com") then Bsi
    else Generic
  }

  /** A live value that is present and not empty. */
  predicate NonEmpty(o: Option<string>) {
    o.Some? && o.value != ""
  }

  /** The status and issues of a record whose live data is `live`, for the
      scraper `site`. */
  function Classify(std: PyStd, site: Site, live: LiveData): (Status, seq<string>) {
    match site
    case Iec =>
      if live.error.None? then
        var issues := VerifyStandardLogic(std, live);
        if issues != [] then (Mismatch, issues) else (Ok, [])
      else (Error, [live.error.value])
    case Ieee =>
      if live.error.None? && live.accessible then (Ok, []) else (Warning, [])
    case Accuristech =>
      if live.error.None? && live.accessible then
        if NonEmpty(live.version) && !Contains(std.version, live.version.value) then
          (Mismatch, [Issue("Edition", std.version, live.version.value)])
        else (Ok, [])
      else (Error, [if live.error.Some? then live.error.value else "Unknown error"])
    case Bsi =>
      if live.error.None? && live.accessible then
        if live.status == Some("Withdrawn") then (Mismatch, ["Standard Withdrawn"]) else (Ok, [])
      else (Error, [])
    case Generic =>
      if live.accessible then
        if NonEmpty(live.version) then
          var ver := live.version.value;
          var liveNum := FirstDigits(ver);
          var localNum := FirstDigits(std.version);
          if liveNum.Some? && localNum.Some? && liveNum.value != localNum.value then
            (Mismatch, [Issue("Version", std.version, ver)])
          else if liveNum.Some? && localNum.None? then (FoundUpdate, ["Found version: " + ver])
          else (Ok, [])
        else (Ok, [])
      else (Warning, [])
  }

  /** The report entry of one record; `scrape(site, url, name)` stands for
      the scraper of that site. */
  function Entry(std: PyStd, scrape: (Site, string, string) -> LiveData): ResultEntry {
    var url := std.sourceUrl;
    if SkipUrl(url) then ResultEntry(std.id, std.name, url, Skipped, [])
    else
      var site := SiteOf(url);
      var (status, issues) := Classify(std, site, scrape(site, url, std.name));
      ResultEntry(std.id, std.name, url, status, issues)
  }

  function Entries(stds: seq<PyStd>, scrape: (Site, string, string) -> LiveData): (r: seq<ResultEntry>)
    ensures |r| == |stds|
  {
    if stds == [] then [] else Entries(stds[..|stds| - 1], scrape) + [Entry(stds[|stds| - 1], scrape)]
  }

  /** `run_verification` over the loaded records. */
  method RunVerification(stds: seq<PyStd>, scrape: (Site, string, string) -> LiveData)
    returns (results: seq<ResultEntry>)
    ensures results == Entries(stds, scrape)
  {
    results := [];
    for n := 0 to |stds|
      invariant results == Entries(stds[..n], scrape)
    {
      assert stds[..n + 1][..n] == stds[..n];
      var std := stds[n];
      var url := std.sourceUrl;
      var entry := ResultEntry(std.id, std.name, url, Ok, []);
      if SkipUrl(url) {
        entry := entry.(status := Skipped);
        results := results + [entry];
        continue;
      }
      var site := SiteOf(url);
      var live := scrape(site, url, std.name);
      var (status, issues) := Classify(std, site, live);
      entry := entry.(status := status, issues := issues);
      results := results + [entry];
    }
    assert stds[..|stds|] == stds;
  }

  /** Skipped exactly for an empty or search URL; an IEC record without a
      scraping error is a mismatch exactly when the comparator found an
      issue; a mismatch always carries an issue and OK never does. */
  lemma EntryFacts(std: PyStd, scrape: (Site, string, string) -> LiveData)
    ensures Entry(std, scrape).status == Skipped <==> SkipUrl(std.sourceUrl)
    ensures !SkipUrl(std.sourceUrl) && SiteOf(std.sourceUrl) == Iec &&
            scrape(Iec, std.sourceUrl, std.name).error.None? ==>
              (Entry(std, scrape).status == Mismatch <==>
               VerifyStandardLogic(std, scrape(Iec, std.sourceUrl, std.name)) != [])
    ensures Entry(std, scrape).status == Mismatch ==> Entry(std, scrape).issues != []
    ensures Entry(std, scrape).status == Ok ==> Entry(std, scrape).issues == []
    ensures Entry(std, scrape).id == std.id && Entry(std, scrape).url == std.sourceUrl
  {
  }

  /** The report lists the records in order, one entry each. */
  lemma {:induction false} EntriesIndex(stds: seq<PyStd>, scrape: (Site, string, string) -> LiveData, k: nat)
    requires k < |stds|
    ensures Entries(stds, scrape)[k] == Entry(stds[k], scrape)
  {
    if k < |stds| - 1 {
      EntriesIndex(stds[..|stds| - 1], scrape, k);
    }
  }
}
