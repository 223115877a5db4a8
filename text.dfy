/**
 * String and value helpers shared by the browser registry (JavaScript) and
 * the verification script (Python): property values that may be absent,
 * truthiness, trimming, ASCII case mapping, substring search and the
 * "first four-digit run" that both sides use to read a year.
 */
module Text {

  /** A JavaScript property value as the registry sees it: absent
      (`undefined`) or a string. */
  datatype Field = Missing | Present(s: string)

  /** JavaScript truthiness of a property value: a non-empty string. */
  predicate Truthy(f: Field) {
    f.Present? && f.s != ""
  }

  /** `a || b` on two property values. */
  function Or(a: Field, b: Field): Field {
    if Truthy(a) then a else b
  }

  /** The string a template literal writes for a property value. */
  function Show(f: Field): string {
    match f
    case Missing => "undefined"
    case Present(s) => s
  }

  /** The string held by a property value, `''` when it is absent. */
  function OrEmpty(f: Field): string {
    if f.Present? then f.s else ""
  }

  /** The characters `String.prototype.trim` and the regular-expression class
      `\s` treat as white space: ECMAScript WhiteSpace and LineTerminator. */
  predicate IsSpace(c: char) {
    c == '\t' || c == '\n' || c == '\U{000B}' || c == '\U{000C}' || c == '\r' ||
    c == ' ' || c == '\U{00A0}' || c == '\U{1680}' ||
    ('\U{2000}' <= c <= '\U{200A}') ||
    c == '\U{2028}' || c == '\U{2029}' || c == '\U{202F}' || c == '\U{205F}' ||
    c == '\U{3000}' || c == '\U{FEFF}'
  }

  function TrimStart(s: string): (r: string)
    ensures |r| <= |s|
  {
    if s != [] && IsSpace(s[0]) then TrimStart(s[1..]) else s
  }

  function TrimEnd(s: string): (r: string)
    ensures |r| <= |s|
  {
    if s != [] && IsSpace(s[|s| - 1]) then TrimEnd(s[..|s| - 1]) else s
  }

  /** `String.prototype.trim`. */
  function Trim(s: string): string {
    TrimEnd(TrimStart(s))
  }

  lemma {:induction false} TrimStartFacts(s: string)
    ensures TrimStart(s) == s[|s| - |TrimStart(s)|..]
    ensures TrimStart(s) != [] ==> !IsSpace(TrimStart(s)[0])
    ensures forall i :: 0 <= i < |s| - |TrimStart(s)| ==> IsSpace(s[i])
  {
    if s != [] && IsSpace(s[0]) {
      TrimStartFacts(s[1..]);
    }
  }

  lemma {:induction false} TrimEndFacts(s: string)
    ensures TrimEnd(s) == s[..|TrimEnd(s)|]
    ensures TrimEnd(s) != [] ==> !IsSpace(TrimEnd(s)[|TrimEnd(s)| - 1])
    ensures forall i :: |TrimEnd(s)| <= i < |s| ==> IsSpace(s[i])
  {
    if s != [] && IsSpace(s[|s| - 1]) {
      TrimEndFacts(s[..|s| - 1]);
    }
  }

  /** The trimmed string is a slice of the original. */
  lemma TrimIsSlice(s: string) returns (a: nat, b: nat)
    ensures a <= b <= |s| && Trim(s) == s[a..b]
  {
    TrimStartFacts(s);
    var t := TrimStart(s);
    TrimEndFacts(t);
    a, b := |s| - |t|, |s| - |t| + |TrimEnd(t)|;
    assert t[..|TrimEnd(t)|] == s[a..b];
  }

  /** Trimming a trimmed string changes nothing. */
  lemma TrimIdempotent(s: string)
    ensures Trim(Trim(s)) == Trim(s)
  {
    var u := TrimStart(s);
    var t := Trim(s);
    TrimStartFacts(s);
    TrimEndFacts(u);
    if t != [] {
      assert t[0] == u[0];
      assert TrimStart(t) == t;
    }
  }

  function UpperChar(c: char): char {
    if 'a' <= c <= 'z' then (c as int - 32) as char else c
  }

  function LowerChar(c: char): char {
    if 'A' <= c <= 'Z' then (c as int + 32) as char else c
  }

  /** `toUpperCase` on the ASCII letters. */
  function Upper(s: string): (r: string)
    ensures |r| == |s|
  {
    if s == [] then [] else [UpperChar(s[0])] + Upper(s[1..])
  }

  /** `toLowerCase` on the ASCII letters. */
  function Lower(s: string): (r: string)
    ensures |r| == |s|
    ensures forall i :: 0 <= i < |s| ==> r[i] == LowerChar(s[i])
  {
    if s == [] then [] else [LowerChar(s[0])] + Lower(s[1..])
  }

  /** The key record names are compared by, both when the CSV import drops
      repeated names and when the form rejects a clashing one: trimmed and
      upper-cased. */
  function NameKey(s: string): string {
    Upper(Trim(s))
  }

  predicate StartsWith(s: string, p: string) {
    |p| <= |s| && s[..|p|] == p
  }

  predicate EndsWith(s: string, p: string) {
    |p| <= |s| && s[|s| - |p|..] == p
  }

  /** `s.includes(sub)` / Python's `sub in s`. */
  predicate Contains(s: string, sub: string) {
    exists i | 0 <= i <= |s| :: OccursAt(s, sub, i)
  }

  /** `sub` occurs in `s` starting at position `i`. */
  predicate OccursAt(s: string, sub: string, i: int) {
    0 <= i && i + |sub| <= |s| && s[i..i + |sub|] == sub
  }

  predicate IsDigit(c: char) {
    '0' <= c <= '9'
  }

  /** Four ASCII digits starting at position `i`. */
  predicate YearAt(s: string, i: nat) {
    i + 4 <= |s| && IsDigit(s[i]) && IsDigit(s[i + 1]) && IsDigit(s[i + 2]) && IsDigit(s[i + 3])
  }

  /** The leftmost match of `/\d{4}/` at or after position `i`. */
  function YearFrom(s: string, i: nat): (r: Option<string>)
    decreases |s| - i
    ensures r.Some? <==> exists k :: i <= k && YearAt(s, k)
    ensures r.Some? ==> exists k :: i <= k && YearAt(s, k) && r.value == s[k..k + 4] &&
                                   forall m :: i <= m < k ==> !YearAt(s, m)
  {
    if i + 4 > |s| then None
    else if YearAt(s, i) then Some(s[i..i + 4])
    else YearFrom(s, i + 1)
  }

  /** `s.match(/\d{4}/)?.[0]`: the first run of four digits. */
  function FirstYear(s: string): Option<string> {
    YearFrom(s, 0)
  }

  /** The value of a string of ASCII digits. */
  function DigitsValue(s: string): (n: nat)
    requires forall i :: 0 <= i < |s| ==> IsDigit(s[i])
  {
    if s == [] then 0 else assert IsDigit(s[|s| - 1]); 10 * DigitsValue(s[..|s| - 1]) + (s[|s| - 1] as int - '0' as int)
  }

  /** `xs.indexOf(x)`: the first position holding `x`, or -1. */
  function IndexOf<T(==)>(xs: seq<T>, x: T): (r: int)
    ensures -1 <= r < |xs|
    ensures r == -1 <==> x !in xs
    ensures 0 <= r ==> xs[r] == x && x !in xs[..r]
  {
    if xs == [] then -1
    else if xs[0] == x then 0
    else var k := IndexOf(xs[1..], x);
      assert k >= 0 ==> xs[..k + 1] == [xs[0]] + xs[1..][..k];
      if k == -1 then -1 else k + 1
  }

  /** The elements of `xs` joined by `sep`, as `Array.prototype.join`. */
  function Join(xs: seq<string>, sep: string): string {
    if xs == [] then ""
    else if |xs| == 1 then xs[0]
    else Join(xs[..|xs| - 1], sep) + sep + xs[|xs| - 1]
  }

  /** `s.split(sep)` for a one-character separator. */
  function Split(s: string, sep: char): (r: seq<string>)
    ensures |r| >= 1
  {
    if s == [] then [""]
    else if s[0] == sep then [""] + Split(s[1..], sep)
    else var rest := Split(s[1..], sep); [[s[0]] + rest[0]] + rest[1..]
  }

  /** The pieces hold no separator and joined with it give back `s`. */
  lemma {:induction false} SplitJoin(s: string, sep: char)
    ensures forall k :: 0 <= k < |Split(s, sep)| ==> sep !in Split(s, sep)[k]
    ensures Join(Split(s, sep), [sep]) == s
  {
    if s != [] {
      var rest := Split(s[1..], sep);
      SplitJoin(s[1..], sep);
      JoinCons(s[0], rest, [sep]);
      if s[0] == sep {
        JoinPrepend(rest, [sep]);
        assert s == [sep] + s[1..];
      } else {
        assert s == [s[0]] + s[1..];
      }
    }
  }

  /** Joining after a new first element. */
  lemma {:induction false} JoinPrepend(xs: seq<string>, sep: string)
    ensures Join([""] + xs, sep) == (if xs == [] then "" else sep + Join(xs, sep))
    decreases |xs|
  {
    if |xs| > 1 {
      var init, last := xs[..|xs| - 1], xs[|xs| - 1];
      JoinPrepend(init, sep);
      assert xs == init + [last];
      JoinPrependStep(init, last, sep);
      assert Join([""] + xs, sep) == sep + Join(xs, sep);
    } else if |xs| == 1 {
      assert [""] + xs == [""] + [xs[0]];
      assert ([""] + xs)[..1] == [""];
    }
  }

  lemma JoinPrependStep(init: seq<string>, last: string, sep: string)
    requires init != []
    requires Join([""] + init, sep) == sep + Join(init, sep)
    ensures Join([""] + (init + [last]), sep) == sep + Join(init + [last], sep)
  {
    assert [""] + (init + [last]) == ([""] + init) + [last];
    JoinSnoc([""] + init, last, sep);
    JoinSnoc(init, last, sep);
    var front := Join(init, sep);
    assert (sep + front) + sep + last == sep + (front + sep + last);
  }

  /** Joining after a new last element. */
  lemma JoinSnoc(xs: seq<string>, x: string, sep: string)
    requires xs != []
    ensures Join(xs + [x], sep) == Join(xs, sep) + sep + x
  {
    assert (xs + [x])[..|xs + [x]| - 1] == xs;
  }

  /** Extending the first element of a non-empty list by a character in front. */
  lemma {:induction false} JoinCons(c: char, xs: seq<string>, sep: string)
    requires |xs| >= 1
    ensures Join([[c] + xs[0]] + xs[1..], sep) == [c] + Join(xs, sep)
    decreases |xs|
  {
    var ys := [[c] + xs[0]] + xs[1..];
    if |xs| > 1 {
      var n := |xs|;
      assert ys[..n - 1] == [[c] + xs[..n - 1][0]] + xs[..n - 1][1..];
      JoinCons(c, xs[..n - 1], sep);
    }
  }

  /** The rank at position `i` of four pieces of lengths at most one, of
      ranks 0 to 3, put together. */
  function PieceRank(lv: nat, ld: nat, ls: nat, i: nat): nat {
    if i < lv then 0 else if i < lv + ld then 1 else if i < lv + ld + ls then 2 else 3
  }

  /** Four pieces whose elements have ranks 0, 1, 2 and 3: the rank of each
      element of their concatenation is that of its piece. */
  lemma PieceRanks(rank: string -> nat, v: seq<string>, d: seq<string>, s: seq<string>, c: seq<string>)
    requires forall x :: x in v ==> rank(x) == 0
    requires forall x :: x in d ==> rank(x) == 1
    requires forall x :: x in s ==> rank(x) == 2
    requires forall x :: x in c ==> rank(x) == 3
    ensures forall i :: 0 <= i < |v + d + s + c| ==> rank((v + d + s + c)[i]) == PieceRank(|v|, |d|, |s|, i)
  {
    var cs := v + d + s + c;
    forall i | 0 <= i < |cs| ensures rank(cs[i]) == PieceRank(|v|, |d|, |s|, i) {
      if i < |v| { assert cs[i] == v[i]; }
      else if i < |v| + |d| { assert cs[i] == d[i - |v|]; }
      else if i < |v| + |d| + |s| { assert cs[i] == s[i - |v| - |d|]; }
      else { assert cs[i] == c[i - |v| - |d| - |s|]; }
    }
  }

  /** When each piece has at most one element, the ranks of the
      concatenation strictly increase and stay below 4. */
  lemma OrderedPieces(rank: string -> nat, v: seq<string>, d: seq<string>, s: seq<string>, c: seq<string>)
    requires |v| <= 1 && |d| <= 1 && |s| <= 1 && |c| <= 1
    requires forall i :: 0 <= i < |v + d + s + c| ==> rank((v + d + s + c)[i]) == PieceRank(|v|, |d|, |s|, i)
    ensures forall i, j :: 0 <= i < j < |v + d + s + c| ==> rank((v + d + s + c)[i]) < rank((v + d + s + c)[j])
    ensures forall i :: 0 <= i < |v + d + s + c| ==> rank((v + d + s + c)[i]) < 4
  {
    var cs := v + d + s + c;
    forall i, j | 0 <= i < j < |cs| ensures rank(cs[i]) < rank(cs[j]) {
      assert PieceRank(|v|, |d|, |s|, i) < PieceRank(|v|, |d|, |s|, j);
    }
  }

  datatype Option<+T> = None | Some(value: T)
}
