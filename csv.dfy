/**
 * The CSV feed parser of the registry (`parseCSV`): split the text into
 * lines, take the first line as comma-separated header names, split every
 * other non-blank line with a character loop that keeps an "inside quotes"
 * flag, map the fields to the headers, keep the rows that have an id, and
 * drop every row whose trimmed, upper-cased name was already seen.
 *
 * The quote character only toggles the flag and is never copied into a
 * field, so the later strip-surrounding-quotes and `""` unescape steps never
 * change anything (lemma CleanValueOfQuoteFree).
 */
module Csv {
  import opened Text

  type Row = map<string, string>

  // ---------------------------------------------------------------- lines

  /** `text.split(/\r?\n/)`. */
  function SplitLines(s: string): (r: seq<string>)
    ensures |r| >= 1
    decreases |s|
  {
    if s == [] then [""]
    else if s[0] == '\n' then [""] + SplitLines(s[1..])
    else if s[0] == '\r' && |s| > 1 && s[1] == '\n' then [""] + SplitLines(s[2..])
    else var rest := SplitLines(s[1..]); [[s[0]] + rest[0]] + rest[1..]
  }

  lemma {:induction false} SplitLinesNoNewline(s: string)
    ensures forall k :: 0 <= k < |SplitLines(s)| ==> '\n' !in SplitLines(s)[k]
    decreases |s|
  {
    if s == [] {
    } else if s[0] == '\n' {
      SplitLinesNoNewline(s[1..]);
    } else if s[0] == '\r' && |s| > 1 && s[1] == '\n' {
      SplitLinesNoNewline(s[2..]);
    } else {
      SplitLinesNoNewline(s[1..]);
    }
  }

  /** The header names: the first line split on commas, each trimmed. */
  function Headers(line: string): (r: seq<string>) {
    var parts := Split(line, ',');
    seq(|parts|, k requires 0 <= k < |parts| => Trim(parts[k]))
  }

  // ------------------------------------------------------- field splitting

  /** What the field loop holds after some prefix of a line. */
  datatype ScanState = ScanState(row: seq<string>, field: string, inQuote: bool)

  /** One step of the field loop on the character `c`. */
  function Step(st: ScanState, c: char): ScanState {
    if c == '"' then st.(inQuote := !st.inQuote)
    else if c == ',' && !st.inQuote then ScanState(st.row + [st.field], "", st.inQuote)
    else st.(field := st.field + [c])
  }

  /** The loop's state after the whole of `s`. */
  function Scan(s: string): ScanState {
    if s == [] then ScanState([], "", false)
    else Step(Scan(s[..|s| - 1]), s[|s| - 1])
  }

  /** The raw fields of a line: the pushed fields and the last one. */
  function RowFields(line: string): seq<string> {
    var st := Scan(line);
    st.row + [st.field]
  }

  /** The number of `"` characters in `s`. */
  function QuoteCount(s: string): nat {
    if s == [] then 0 else QuoteCount(s[..|s| - 1]) + (if s[|s| - 1] == '"' then 1 else 0)
  }

  /** A position of `s` lies inside quotes: an odd number of `"` before it. */
  predicate QuotedAt(s: string, i: nat)
    requires i <= |s|
  {
    QuoteCount(s[..i]) % 2 == 1
  }

  /** The number of commas of `s` that are not inside quotes. */
  function UnquotedCommas(s: string): nat {
    if s == [] then 0
    else UnquotedCommas(s[..|s| - 1]) +
         (if s[|s| - 1] == ',' && !QuotedAt(s, |s| - 1) then 1 else 0)
  }

  /** `s` with every `"` removed. */
  function WithoutQuotes(s: string): (r: string)
    ensures '"' !in r
  {
    if s == [] then []
    else WithoutQuotes(s[..|s| - 1]) + (if s[|s| - 1] == '"' then [] else [s[|s| - 1]])
  }

  predicate QuoteFree(xs: seq<string>) {
    forall k :: 0 <= k < |xs| ==> '"' !in xs[k]
  }

  lemma JoinExtendLast(xs: seq<string>, x: string, c: char, sep: string)
    ensures Join(xs + [x + [c]], sep) == Join(xs + [x], sep) + [c]
  {
    if xs == [] {
    } else {
      JoinSnoc(xs, x + [c], sep);
      JoinSnoc(xs, x, sep);
    }
  }

  /** The loop invariant of the field loop, stated on `Scan`: the flag is the
      parity of the quotes seen, one field was pushed per unquoted comma, no
      field holds a quote, and joining the fields with commas gives back the
      line without its quotes. */
  lemma ScanFacts(s: string)
    ensures Scan(s).inQuote == (QuoteCount(s) % 2 == 1)
    ensures |Scan(s).row| == UnquotedCommas(s)
    ensures QuoteFree(Scan(s).row + [Scan(s).field])
    ensures Join(Scan(s).row + [Scan(s).field], ",") == WithoutQuotes(s)
  {
    ScanCounts(s);
    ScanJoin(s);
  }

  lemma {:induction false} ScanCounts(s: string)
    ensures Scan(s).inQuote == (QuoteCount(s) % 2 == 1)
    ensures |Scan(s).row| == UnquotedCommas(s)
  {
    if s != [] {
      var p := s[..|s| - 1];
      ScanCounts(p);
      assert s[..|s| - 1] == p;
    }
  }

  lemma {:induction false} ScanJoin(s: string)
    ensures QuoteFree(Scan(s).row + [Scan(s).field])
    ensures Join(Scan(s).row + [Scan(s).field], ",") == WithoutQuotes(s)
  {
    if s != [] {
      var p, c := s[..|s| - 1], s[|s| - 1];
      ScanJoin(p);
      var st := Scan(p);
      assert s[..|s| - 1] == p;
      if c == '"' {
      } else if c == ',' && !st.inQuote {
        assert Scan(s).row + [Scan(s).field] == (st.row + [st.field]) + [""];
        JoinSnoc(st.row + [st.field], "", ",");
      } else {
        assert Scan(s).row + [Scan(s).field] == st.row + [st.field + [c]];
        JoinExtendLast(st.row, st.field, c, ",");
      }
    }
  }

  /** A line yields one raw field more than it has unquoted commas. */
  lemma RowFieldCount(line: string)
    ensures |RowFields(line)| == UnquotedCommas(line) + 1
  {
    ScanFacts(line);
  }

  /** No raw field ever holds a `"`. */
  lemma RowFieldsQuoteFree(line: string)
    ensures QuoteFree(RowFields(line))
  {
    ScanFacts(line);
  }

  /** Joining the raw fields with commas gives the line minus its quotes, so
      every comma inside a quoted region stays in its field as text. */
  lemma RowFieldsJoin(line: string)
    ensures Join(RowFields(line), ",") == WithoutQuotes(line)
  {
    ScanFacts(line);
  }

  /** The field loop over one line. */
  method SplitRow(line: string) returns (row: seq<string>)
    ensures row == RowFields(line)
    ensures |row| == UnquotedCommas(line) + 1
    ensures QuoteFree(row)
  {
    var pushed: seq<string> := [];
    var inQuote := false;
    var field := "";
    for j := 0 to |line|
      invariant ScanState(pushed, field, inQuote) == Scan(line[..j])
    {
      assert line[..j + 1][..j] == line[..j];
      var c := line[j];
      if c == '"' {
        inQuote := !inQuote;
      } else if c == ',' && !inQuote {
        pushed := pushed + [field];
        field := "";
      } else {
        field := field + [c];
      }
    }
    assert line[..|line|] == line;
    row := pushed + [field];
    ScanFacts(line);
  }

  /** The field loop run forward from a state: the same loop, read from the
      front, which is how concrete rows are worked out. */
  function ScanFrom(st: ScanState, s: string): ScanState
    decreases s
  {
    if s == [] then st else ScanFrom(Step(st, s[0]), s[1..])
  }

  lemma {:induction false} ScanFromSnoc(st: ScanState, s: string, c: char)
    ensures ScanFrom(st, s + [c]) == Step(ScanFrom(st, s), c)
    decreases s
  {
    if s != [] {
      assert (s + [c])[1..] == s[1..] + [c];
      ScanFromSnoc(Step(st, s[0]), s[1..], c);
    }
  }

  lemma {:induction false} ScanIsScanFrom(s: string)
    ensures Scan(s) == ScanFrom(ScanState([], "", false), s)
  {
    if s != [] {
      ScanIsScanFrom(s[..|s| - 1]);
      ScanFromSnoc(ScanState([], "", false), s[..|s| - 1], s[|s| - 1]);
      assert s[..|s| - 1] + [s[|s| - 1]] == s;
    }
  }

  lemma {:induction false} ScanFromAppend(st: ScanState, a: string, b: string)
    ensures ScanFrom(st, a + b) == ScanFrom(ScanFrom(st, a), b)
    decreases a
  {
    if a != [] {
      assert (a + b)[1..] == a[1..] + b;
      ScanFromAppend(Step(st, a[0]), a[1..], b);
    } else {
      assert a + b == b;
    }
  }

  lemma {:induction false} ScanText(st: ScanState, w: string)
    requires '"' !in w && (st.inQuote || ',' !in w)
    ensures ScanFrom(st, w) == st.(field := st.field + w)
    decreases w
  {
    if w != [] {
      ScanText(Step(st, w[0]), w[1..]);
      assert [w[0]] + w[1..] == w;
    }
  }

  lemma ScanOpenNext(st: ScanState, t: string)
    requires !st.inQuote
    ensures ScanFrom(st, ",\"" + t) == ScanFrom(ScanState(st.row + [st.field], "", true), t)
  {
    ScanFromAppend(st, ",\"", t);
  }

  lemma ScanCloseNext(st: ScanState, t: string)
    requires st.inQuote
    ensures ScanFrom(st, "\",\"" + t) == ScanFrom(ScanState(st.row + [st.field], "", true), t)
  {
    ScanFromAppend(st, "\",\"", t);
  }

  lemma ScanPlainNext(st: ScanState, w: string, t: string)
    requires '"' !in w && (st.inQuote || ',' !in w)
    ensures ScanFrom(st, w + t) == ScanFrom(st.(field := st.field + w), t)
  {
    ScanFromAppend(st, w, t);
    ScanText(st, w);
  }

  lemma ScanDoubledNext(st: ScanState, t: string)
    ensures ScanFrom(st, "\"\"" + t) == ScanFrom(st, t)
  {
    ScanFromAppend(st, "\"\"", t);
  }

  /** A row `a,"c","e""g"""`: the comma inside the quoted second field is
      kept, and the doubled quotes of the third field are dropped, not
      decoded to one quote. */
  lemma QuotedRowFields(a: string, c: string, e: string, g: string)
    requires '"' !in a && ',' !in a && '"' !in c && '"' !in e && '"' !in g
    ensures RowFields(a + ",\"" + c + "\",\"" + e + "\"\"" + g + "\"\"\"") == [a, c, e + g]
  {
    var t4 := e + ("\"\"" + (g + "\"\"\""));
    var line := a + (",\"" + (c + ("\",\"" + t4)));
    assert line == a + ",\"" + c + "\",\"" + e + "\"\"" + g + "\"\"\"";
    ScanIsScanFrom(line);
    QuotedRowHead(a, c, t4);
    QuotedRowTail(a, c, e, g);
    assert Scan(line) == ScanState([a, c], e + g, false);
    assert [a, c] + [e + g] == [a, c, e + g];
  }

  /** The first two fields: a plain one, then a quoted one. */
  lemma QuotedRowHead(a: string, c: string, t4: string)
    requires '"' !in a && ',' !in a && '"' !in c
    ensures ScanFrom(ScanState([], "", false), a + (",\"" + (c + ("\",\"" + t4))))
         == ScanFrom(ScanState([a, c], "", true), t4)
  {
    var t3 := "\",\"" + t4;
    var t2 := c + t3;
    var t1 := ",\"" + t2;
    ScanPlainNext(ScanState([], "", false), a, t1);
    assert "" + a == a && "" + c == c;
    ScanOpenNext(ScanState([], a, false), t2);
    assert [] + [a] == [a];
    ScanPlainNext(ScanState([a], "", true), c, t3);
    ScanCloseNext(ScanState([a], c, true), t4);
    assert [a] + [c] == [a, c];
  }

  /** The third field: quoted, with a doubled quote inside and at its end. */
  lemma QuotedRowTail(a: string, c: string, e: string, g: string)
    requires '"' !in e && '"' !in g
    ensures ScanFrom(ScanState([a, c], "", true), e + ("\"\"" + (g + "\"\"\"")))
         == ScanState([a, c], e + g, false)
  {
    var t6 := g + "\"\"\"";
    var t5 := "\"\"" + t6;
    assert "" + e == e;
    ScanPlainNext(ScanState([a, c], "", true), e, t5);
    ScanDoubledNext(ScanState([a, c], e, true), t6);
    ScanPlainNext(ScanState([a, c], e, true), g, "\"\"\"");
    assert ScanFrom(ScanState([a, c], e + g, true), "\"\"\"") == ScanState([a, c], e + g, false);
  }

  // ------------------------------------------------------- header mapping

  /** Removes one pair of surrounding quotes (`value.substring(1, len - 1)`;
      on a lone `"` the swapped bounds of `substring` give it back). */
  function StripQuotes(v: string): string {
    if StartsWith(v, "\"") && EndsWith(v, "\"") then
      (if |v| == 1 then v else v[1..|v| - 1])
    else v
  }

  /** `value.replace(/""/g, '"')`. */
  function UnescapeQuotes(v: string): string {
    if |v| >= 2 && v[0] == '"' && v[1] == '"' then "\"" + UnescapeQuotes(v[2..])
    else if v == [] then []
    else [v[0]] + UnescapeQuotes(v[1..])
  }

  /** What a raw field becomes before it is stored under its header. */
  function CleanValue(v: string): string {
    UnescapeQuotes(StripQuotes(Trim(v)))
  }

  lemma {:induction false} UnescapeQuoteFree(v: string)
    requires '"' !in v
    ensures UnescapeQuotes(v) == v
  {
    if v != [] {
      assert v[0] != '"';
      UnescapeQuoteFree(v[1..]);
    }
  }

  /** On a quote-free raw field the quote handling changes nothing: the value
      stored is the trimmed field. */
  lemma CleanValueOfQuoteFree(v: string)
    requires '"' !in v
    ensures CleanValue(v) == Trim(v)
    ensures '"' !in CleanValue(v)
  {
    var a, b := TrimIsSlice(v);
    var t := Trim(v);
    assert forall k :: 0 <= k < |t| ==> t[k] == v[a + k];
    assert '"' !in t;
    UnescapeQuoteFree(t);
  }

  lemma {:induction false} UnescapeAfterQuoteFree(a: string, rest: string)
    requires '"' !in a
    ensures UnescapeQuotes(a + rest) == a + UnescapeQuotes(rest)
  {
    if a != [] {
      assert a[0] != '"';
      assert (a + rest)[0] == a[0];
      assert (a + rest)[1..] == a[1..] + rest;
      UnescapeAfterQuoteFree(a[1..], rest);
    } else {
      assert a + rest == rest;
    }
  }

  /** A field that trims to a quoted text without inner quotes is stored as
      that text. */
  lemma CleanValueOfQuoted(raw: string, w: string)
    requires '"' !in w
    requires Trim(raw) == "\"" + w + "\""
    ensures CleanValue(raw) == w
  {
    var v := "\"" + w + "\"";
    assert v[1..|v| - 1] == w;
    UnescapeQuoteFree(w);
  }

  /** Inside the quotes a doubled quote is stored as one quote. */
  lemma CleanValueOfDoubledQuote(raw: string, a: string, b: string)
    requires '"' !in a && '"' !in b
    requires Trim(raw) == "\"" + a + "\"\"" + b + "\""
    ensures CleanValue(raw) == a + "\"" + b
  {
    var v := "\"" + a + "\"\"" + b + "\"";
    assert v[1..|v| - 1] == a + ("\"\"" + b);
    UnescapeAfterQuoteFree(a, "\"\"" + b);
    assert ("\"\"" + b)[2..] == b;
    UnescapeQuoteFree(b);
  }

  /** The object built for a row from the first `k` headers: a header whose
      index is past the end of the row is left out; a repeated header keeps
      the later value. */
  function RowObject(headers: seq<string>, row: seq<string>, k: nat): Row
    requires k <= |headers|
  {
    if k == 0 then map[]
    else
      var o := RowObject(headers, row, k - 1);
      if k - 1 < |row| then o[headers[k - 1] := CleanValue(row[k - 1])] else o
  }

  lemma {:induction false} RowObjectFacts(headers: seq<string>, row: seq<string>, k: nat)
    requires k <= |headers|
    requires QuoteFree(row)
    ensures forall h :: h in RowObject(headers, row, k) ==> '"' !in RowObject(headers, row, k)[h]
    ensures forall h :: h in RowObject(headers, row, k) <==>
              exists i :: 0 <= i < k && i < |row| && headers[i] == h
  {
    if k > 0 {
      RowObjectFacts(headers, row, k - 1);
      if k - 1 < |row| {
        CleanValueOfQuoteFree(row[k - 1]);
      }
    }
  }

  /** The header mapping over one line, `headers.forEach(...)`. */
  method MapToHeaders(headers: seq<string>, row: seq<string>) returns (obj: Row)
    ensures obj == RowObject(headers, row, |headers|)
  {
    obj := map[];
    for index := 0 to |headers|
      invariant obj == RowObject(headers, row, index)
    {
      ghost var next := RowObject(headers, row, index + 1);
      if index < |row| {
        var value := CleanField(row[index]);
        assert next == obj[headers[index] := value];
        obj := obj[headers[index] := value];
      }
      assert obj == next;
    }
  }

  /** One value of the mapping: trimmed, one pair of surrounding quotes
      removed, doubled quotes collapsed. */
  method CleanField(raw: string) returns (value: string)
    ensures value == CleanValue(raw)
  {
    value := Trim(raw);
    if StartsWith(value, "\"") && EndsWith(value, "\"") {
      value := if |value| == 1 then value else value[1..|value| - 1];
    }
    value := UnescapeQuotes(value);
  }

  /** `obj.id`: the row has a non-empty id. */
  predicate HasId(obj: Row) {
    "id" in obj && obj["id"] != ""
  }

  /** The rows kept from the data lines before de-duplication. */
  function Records(headers: seq<string>, lines: seq<string>): seq<Row> {
    if lines == [] then []
    else
      var rest := Records(headers, lines[..|lines| - 1]);
      var line := lines[|lines| - 1];
      if Trim(line) == "" then rest
      else
        var obj := RowObject(headers, RowFields(line), |headers|);
        if HasId(obj) then rest + [obj] else rest
  }

  lemma {:induction false} RecordsFacts(headers: seq<string>, lines: seq<string>)
    ensures |Records(headers, lines)| <= |lines|
    ensures forall k :: 0 <= k < |Records(headers, lines)| ==> HasId(Records(headers, lines)[k])
    ensures forall k, h :: 0 <= k < |Records(headers, lines)| && h in Records(headers, lines)[k] ==>
              '"' !in Records(headers, lines)[k][h]
  {
    if lines != [] {
      RecordsFacts(headers, lines[..|lines| - 1]);
      var line := lines[|lines| - 1];
      RowFieldsQuoteFree(line);
      RowObjectFacts(headers, RowFields(line), |headers|);
    }
  }

  // --------------------------------------------------------- de-duplication

  /** The de-duplication key: `std.name ? std.name.trim().toUpperCase() : ''`. */
  function NameKey(obj: Row): string {
    if "name" in obj && obj["name"] != "" then Text.NameKey(obj["name"]) else ""
  }

  /** The non-empty keys of some rows: the names already seen. */
  function SeenKeys<T>(rows: seq<T>, key: T -> string): set<string> {
    if rows == [] then {}
    else SeenKeys(rows[..|rows| - 1], key) + (var k := key(rows[|rows| - 1]); if k != "" then {k} else {})
  }

  /** The kept rows: each row whose key is non-empty and not seen before. */
  function Dedup<T>(rows: seq<T>, key: T -> string): seq<T> {
    if rows == [] then []
    else
      var p, r := rows[..|rows| - 1], rows[|rows| - 1];
      if key(r) != "" && key(r) !in SeenKeys(p, key) then Dedup(p, key) + [r] else Dedup(p, key)
  }

  /** Row `i` is the first with its (non-empty) key. */
  predicate FirstWithKey<T>(rows: seq<T>, key: T -> string, i: nat)
    requires i < |rows|
  {
    key(rows[i]) != "" && forall j :: 0 <= j < i ==> key(rows[j]) != key(rows[i])
  }

  /** The elements of `xs` whose flag in `keep` is set, in order. */
  function Select<T>(xs: seq<T>, keep: seq<bool>): seq<T>
    requires |keep| == |xs|
  {
    if xs == [] then []
    else Select(xs[..|xs| - 1], keep[..|xs| - 1]) + (if keep[|xs| - 1] then [xs[|xs| - 1]] else [])
  }

  function FirstMask<T>(rows: seq<T>, key: T -> string): (m: seq<bool>)
    ensures |m| == |rows|
  {
    seq(|rows|, i requires 0 <= i < |rows| => FirstWithKey(rows, key, i))
  }

  lemma {:induction false} SeenKeysSpec<T>(rows: seq<T>, key: T -> string)
    ensures forall k :: k in SeenKeys(rows, key) <==> k != "" && exists j :: 0 <= j < |rows| && key(rows[j]) == k
  {
    if rows != [] {
      var p := rows[..|rows| - 1];
      SeenKeysSpec(p, key);
      forall k ensures k in SeenKeys(rows, key) <==> k != "" && exists j :: 0 <= j < |rows| && key(rows[j]) == k {
        if k != "" && (exists j :: 0 <= j < |rows| && key(rows[j]) == k) {
          var j :| 0 <= j < |rows| && key(rows[j]) == k;
          if j < |p| { assert key(p[j]) == k; }
        }
        if k in SeenKeys(p, key) {
          var j :| 0 <= j < |p| && key(p[j]) == k;
          assert key(rows[j]) == k;
        }
      }
    }
  }

  /** De-duplication keeps exactly the first row of every non-empty key, in
      input order: the first occurrence wins. */
  lemma {:induction false} DedupIsFirstOccurrences<T>(rows: seq<T>, key: T -> string)
    ensures Dedup(rows, key) == Select(rows, FirstMask(rows, key))
  {
    if rows != [] {
      var p, r := rows[..|rows| - 1], rows[|rows| - 1];
      DedupIsFirstOccurrences(p, key);
      assert FirstMask(rows, key)[..|rows| - 1] == FirstMask(p, key) by {
        forall i | 0 <= i < |p| ensures FirstMask(rows, key)[i] == FirstMask(p, key)[i] {
          assert FirstWithKey(rows, key, i) == FirstWithKey(p, key, i) by {
            forall j | 0 <= j < i ensures rows[j] == p[j] { }
          }
        }
      }
      SeenKeysSpec(p, key);
      assert FirstMask(rows, key)[|rows| - 1] == (key(r) != "" && key(r) !in SeenKeys(p, key)) by {
        if key(r) != "" && key(r) in SeenKeys(p, key) {
          var j :| 0 <= j < |p| && key(p[j]) == key(r);
          assert key(rows[j]) == key(rows[|rows| - 1]);
        }
      }
    }
  }

  /** Every kept row is one of the input rows. */
  lemma {:induction false} DedupFromRows<T>(rows: seq<T>, key: T -> string)
    ensures |Dedup(rows, key)| <= |rows|
    ensures forall k :: 0 <= k < |Dedup(rows, key)| ==> Dedup(rows, key)[k] in rows
  {
    if rows != [] {
      var p := rows[..|rows| - 1];
      DedupFromRows(p, key);
      assert forall x :: x in p ==> x in rows;
    }
  }

  /** Every kept row has a non-empty key, no two kept rows share a key, and
      every non-empty key of the input is kept. */
  lemma {:induction false} DedupKeys<T>(rows: seq<T>, key: T -> string)
    ensures forall k :: 0 <= k < |Dedup(rows, key)| ==> key(Dedup(rows, key)[k]) != ""
    ensures forall i, j :: 0 <= i < j < |Dedup(rows, key)| ==> key(Dedup(rows, key)[i]) != key(Dedup(rows, key)[j])
    ensures SeenKeys(Dedup(rows, key), key) == SeenKeys(rows, key)
  {
    if rows != [] {
      var p, r := rows[..|rows| - 1], rows[|rows| - 1];
      DedupKeys(p, key);
      var d := Dedup(p, key);
      if key(r) != "" && key(r) !in SeenKeys(p, key) {
        SeenKeysSpec(d, key);
        assert Dedup(rows, key) == d + [r];
        assert (d + [r])[..|d + [r]| - 1] == d;
        forall i | 0 <= i < |d| ensures key(d[i]) != key(r) {
          assert key(d[i]) in SeenKeys(d, key);
        }
      }
    }
  }

  /** The de-duplication loop with its `seenNames` set. */
  method DedupRows(rows: seq<Row>) returns (unique: seq<Row>)
    ensures unique == Dedup(rows, NameKey)
  {
    unique := [];
    var seenNames: set<string> := {};
    for i := 0 to |rows|
      invariant unique == Dedup(rows[..i], NameKey)
      invariant seenNames == SeenKeys(rows[..i], NameKey)
    {
      assert rows[..i + 1][..i] == rows[..i];
      var std := rows[i];
      var normalizedName := if "name" in std && std["name"] != "" then Upper(Trim(std["name"])) else "";
      if normalizedName != "" && normalizedName !in seenNames {
        seenNames := seenNames + {normalizedName};
        unique := unique + [std];
      }
    }
    assert rows[..|rows|] == rows;
  }

  // ------------------------------------------------------------ the parser

  /** What `parseCSV` returns for a text. */
  function ParseCsvSpec(text: string): seq<Row> {
    var lines := SplitLines(text);
    if |lines| < 2 then [] else Dedup(Records(Headers(lines[0]), lines[1..]), NameKey)
  }

  /** `parseCSV`. */
  method ParseCsv(text: string) returns (result: seq<Row>)
    ensures result == ParseCsvSpec(text)
  {
    var lines := SplitLines(text);
    if |lines| < 2 {
      return [];
    }
    var headers := Headers(lines[0]);
    var data := lines[1..];
    var rows: seq<Row> := [];
    for i := 0 to |data|
      invariant rows == Records(headers, data[..i])
    {
      assert data[..i + 1][..i] == data[..i];
      if Trim(data[i]) != "" {
        var row := SplitRow(data[i]);
        var obj := MapToHeaders(headers, row);
        if "id" in obj && obj["id"] != "" {
          rows := rows + [obj];
        }
      }
    }
    assert data[..|data|] == data;
    result := DedupRows(rows);
  }

  /** Every parsed row has a non-empty id and a non-empty trimmed name, no two
      share a trimmed upper-cased name, no value holds a `"`, and the rows are
      the first occurrences of their names among the rows with an id, in
      input order. */
  lemma ParseCsvFacts(text: string)
    ensures forall k :: 0 <= k < |ParseCsvSpec(text)| ==>
              HasId(ParseCsvSpec(text)[k]) && NameKey(ParseCsvSpec(text)[k]) != "" &&
              Trim(ParseCsvSpec(text)[k]["name"]) != ""
    ensures forall i, j :: 0 <= i < j < |ParseCsvSpec(text)| ==>
              NameKey(ParseCsvSpec(text)[i]) != NameKey(ParseCsvSpec(text)[j])
    ensures forall k, h :: 0 <= k < |ParseCsvSpec(text)| && h in ParseCsvSpec(text)[k] ==>
              '"' !in ParseCsvSpec(text)[k][h]
    ensures var lines := SplitLines(text);
            |lines| >= 2 ==>
              var recs := Records(Headers(lines[0]), lines[1..]);
              ParseCsvSpec(text) == Select(recs, FirstMask(recs, NameKey))
  {
    var lines := SplitLines(text);
    if |lines| >= 2 {
      var recs := Records(Headers(lines[0]), lines[1..]);
      RecordsFacts(Headers(lines[0]), lines[1..]);
      DedupFromRows(recs, NameKey);
      DedupKeys(recs, NameKey);
      DedupIsFirstOccurrences(recs, NameKey);
      var out := Dedup(recs, NameKey);
      forall k | 0 <= k < |out|
        ensures HasId(out[k]) && NameKey(out[k]) != "" && Trim(out[k]["name"]) != ""
        ensures forall h :: h in out[k] ==> '"' !in out[k][h]
      {
        assert out[k] in recs;
        var j :| 0 <= j < |recs| && out[k] == recs[j];
      }
    }
  }
}
