/**
 * The handful of JavaScript string operations the UI kit relies on:
 * `includes`, `indexOf`, literal `replace`/`replaceAll`, `toLowerCase`,
 * `trim`, number-to-string conversion and the default `Array.prototype.sort`
 * order on strings.
 */
module Strings {
  import opened Wrappers

  /** `t` occurs in `s` at index `i`. */
  predicate MatchAt(s: string, i: int, t: string) {
    0 <= i && i + |t| <= |s| && s[i..i + |t|] == t
  }

  /** JavaScript's `s.includes(t)`. */
  predicate Contains(s: string, t: string) {
    exists i | 0 <= i <= |s| - |t| :: MatchAt(s, i, t)
  }

  lemma ContainsAt(s: string, i: int, t: string)
    requires MatchAt(s, i, t)
    ensures Contains(s, t)
  {
  }

  lemma ContainsEmpty(s: string)
    ensures Contains(s, "")
  {
    assert MatchAt(s, 0, "");
  }

  /** A needle with a character the haystack lacks cannot occur in it. */
  lemma NotContainsMissingChar(s: string, t: string, k: nat)
    requires k < |t| && t[k] !in s
    ensures !Contains(s, t)
  {
    forall i | 0 <= i <= |s| - |t| ensures !MatchAt(s, i, t) {
      assert s[i..i + |t|][k] == s[i + k];
      assert s[i + k] in s;
    }
  }

  /** An occurrence inside an occurrence is an occurrence. */
  lemma ContainsTransitive(s: string, u: string, t: string)
    requires Contains(s, u) && Contains(u, t)
    ensures Contains(s, t)
  {
    var i :| 0 <= i <= |s| - |u| && MatchAt(s, i, u);
    var j :| 0 <= j <= |u| - |t| && MatchAt(u, j, t);
    forall m | 0 <= m < |t| ensures s[i + j + m] == t[m] {
      assert s[i..i + |u|][j + m] == u[j + m];
      assert u[j..j + |t|][m] == t[m];
    }
    assert s[i + j..i + j + |t|] == t;
    assert MatchAt(s, i + j, t);
  }

  /** The first index at or after `from` where `t` occurs: `s.indexOf(t, from)`. */
  function IndexOfFrom(s: string, t: string, from: nat): (r: Option<nat>)
    decreases |s| - from
    ensures r.Some? ==> from <= r.value && MatchAt(s, r.value, t)
    ensures r.Some? ==> forall j :: from <= j < r.value ==> !MatchAt(s, j, t)
    ensures r.None? ==> forall j :: from <= j ==> !MatchAt(s, j, t)
  {
    if from + |t| > |s| then None
    else if s[from..from + |t|] == t then Some(from)
    else IndexOfFrom(s, t, from + 1)
  }

  function IndexOf(s: string, t: string): (r: Option<nat>)
    ensures r.Some? <==> Contains(s, t)
    ensures r.Some? ==> MatchAt(s, r.value, t) && forall j :: 0 <= j < r.value ==> !MatchAt(s, j, t)
  {
    IndexOfFrom(s, t, 0)
  }

  /** The last index at or after `from` where `t` occurs. */
  function LastIndexOfFrom(s: string, t: string, from: nat): (r: Option<nat>)
    decreases |s| - from
    ensures r.Some? ==> from <= r.value && MatchAt(s, r.value, t)
    ensures r.Some? ==> forall j :: r.value < j ==> !MatchAt(s, j, t)
    ensures r.None? ==> forall j :: from <= j ==> !MatchAt(s, j, t)
  {
    if from + |t| > |s| then None
    else
      match LastIndexOfFrom(s, t, from + 1)
      case Some(j) => Some(j)
      case None => if s[from..from + |t|] == t then Some(from) else None
  }

  /** `s.replace(pat, rep)` with a string pattern: only the first occurrence changes. */
  function ReplaceFirst(s: string, pat: string, rep: string): (r: string)
    ensures !Contains(s, pat) ==> r == s
    ensures Contains(s, pat) ==>
      exists i :: MatchAt(s, i, pat) && (forall j :: 0 <= j < i ==> !MatchAt(s, j, pat)) && r == s[..i] + rep + s[i + |pat|..]
  {
    match IndexOf(s, pat)
    case None => s
    case Some(i) => s[..i] + rep + s[i + |pat|..]
  }

  /** An occurrence in the tail of `s` is an occurrence in `s`. */
  lemma ContainsTail(s: string, t: string)
    requires |s| > 0
    ensures Contains(s[1..], t) ==> Contains(s, t)
  {
    if Contains(s[1..], t) {
      var i :| 0 <= i <= |s| - 1 - |t| && MatchAt(s[1..], i, t);
      assert s[i + 1..i + 1 + |t|] == s[1..][i..i + |t|];
      assert MatchAt(s, i + 1, t);
    }
  }

  /**
   * `s.replace(/pat/g, rep)` for a fixed non-empty pattern: leftmost,
   * non-overlapping occurrences. `ReplaceAllWithout` and `ReplaceAllAt` say
   * what it does without an occurrence and at the leftmost one.
   */
  function ReplaceAll(s: string, pat: string, rep: string): string
    requires |pat| > 0
    decreases |s|
  {
    if |s| < |pat| then s
    else if s[..|pat|] == pat then rep + ReplaceAll(s[|pat|..], pat, rep)
    else [s[0]] + ReplaceAll(s[1..], pat, rep)
  }

  /** Without an occurrence of the pattern nothing changes. */
  lemma {:induction false} ReplaceAllWithout(s: string, pat: string, rep: string)
    requires |pat| > 0 && !Contains(s, pat)
    ensures ReplaceAll(s, pat, rep) == s
    decreases |s|
  {
    if |s| >= |pat| {
      assert !MatchAt(s, 0, pat);
      assert s[..|pat|] != pat;
      ContainsTail(s, pat);
      ReplaceAllWithout(s[1..], pat, rep);
      assert s == [s[0]] + s[1..];
    }
  }

  /** One unfolding of `ReplaceAll` at an occurrence at the start. */
  lemma ReplaceAllHead(s: string, pat: string, rep: string)
    requires |pat| > 0 && MatchAt(s, 0, pat)
    ensures ReplaceAll(s, pat, rep) == s[..0] + rep + ReplaceAll(s[|pat|..], pat, rep)
  {
    assert s[..|pat|] == pat;
    assert s[..0] + rep == rep;
  }

  /** One unfolding of `ReplaceAll` where no occurrence starts. */
  lemma ReplaceAllSkip(s: string, pat: string, rep: string)
    requires 0 < |pat| <= |s| && s[..|pat|] != pat
    ensures ReplaceAll(s, pat, rep) == [s[0]] + ReplaceAll(s[1..], pat, rep)
  {
  }

  /** `t` occurs at `i` and nowhere before it: the leftmost occurrence. */
  predicate FirstMatchAt(s: string, i: int, t: string) {
    MatchAt(s, i, t) && forall j :: 0 <= j < i ==> !MatchAt(s, j, t)
  }

  /**
   * At the leftmost occurrence `i`, the text before it is kept, the occurrence
   * becomes `rep`, and the replacement resumes right after the occurrence.
   */
  lemma ReplaceAllAt(s: string, pat: string, rep: string, i: nat)
    requires |pat| > 0 && FirstMatchAt(s, i, pat)
    ensures ReplaceAll(s, pat, rep) == s[..i] + rep + ReplaceAll(s[i + |pat|..], pat, rep)
  {
    ReplaceAllFrom(s, pat, rep, i, 0);
    assert s[0..] == s;
  }

  /** `ReplaceAllAt` for every suffix that starts at or before the leftmost occurrence. */
  lemma {:induction false} ReplaceAllFrom(s: string, pat: string, rep: string, i: nat, k: nat)
    requires |pat| > 0 && FirstMatchAt(s, i, pat) && k <= i
    ensures ReplaceAll(s[k..], pat, rep) == s[k..i] + rep + ReplaceAll(s[i + |pat|..], pat, rep)
    decreases i - k
  {
    var tail := ReplaceAll(s[i + |pat|..], pat, rep);
    if k == i {
      assert s[k..][..|pat|] == s[i..i + |pat|];
      ReplaceAllHead(s[k..], pat, rep);
      assert s[k..][|pat|..] == s[i + |pat|..];
      assert s[k..][..0] == s[k..i];
    } else {
      ReplaceAllFrom(s, pat, rep, i, k + 1);
      assert !MatchAt(s, k, pat);
      assert s[k..][..|pat|] == s[k..k + |pat|];
      ReplaceAllSkip(s[k..], pat, rep);
      assert s[k..][1..] == s[k + 1..];
      assert [s[k]] + s[k + 1..i] == s[k..i];
      Regroup(s[k], s[k + 1..i], rep, tail, s[k..i]);
    }
  }

  lemma Regroup(c: char, head: string, mid: string, tail: string, pre: string)
    requires [c] + head == pre
    ensures [c] + (head + mid + tail) == pre + mid + tail
  {
  }

  /** Replacing every occurrence of a pattern by itself changes nothing. */
  lemma {:induction false} ReplaceAllSelf(s: string, pat: string)
    requires |pat| > 0
    ensures ReplaceAll(s, pat, pat) == s
    decreases |s|
  {
    if |s| < |pat| {
    } else if s[..|pat|] == pat {
      ReplaceAllSelf(s[|pat|..], pat);
      assert s == s[..|pat|] + s[|pat|..];
    } else {
      ReplaceAllSelf(s[1..], pat);
      assert s == [s[0]] + s[1..];
    }
  }

  // ---------------------------------------------------------------------------
  // Case mapping

  /**
   * `toLowerCase` on one character, for the scripts the kit's texts use:
   * ASCII Latin and the basic Cyrillic block (А-Я and Ѐ-Џ).
   */
  function LowerChar(c: char): (r: char)
    ensures IsUpper(c) ==> r != c && !IsUpper(r)
    ensures !IsUpper(c) ==> r == c
  {
    if 'A' <= c <= 'Z' then (c as int + 32) as char
    else if '\U{0410}' <= c <= '\U{042F}' then (c as int + 0x20) as char
    else if '\U{0400}' <= c <= '\U{040F}' then (c as int + 0x50) as char
    else c
  }

  predicate IsUpper(c: char) {
    'A' <= c <= 'Z' || '\U{0400}' <= c <= '\U{042F}'
  }

  /** `toUpperCase` on an ASCII letter; every other character is left as it is. */
  function UpperAscii(c: char): (r: char)
    ensures 'a' <= c <= 'z' ==> 'A' <= r <= 'Z' && LowerChar(r) == c
    ensures !('a' <= c <= 'z') ==> r == c
  {
    if 'a' <= c <= 'z' then (c as int - 32) as char else c
  }

  function Lower(s: string): (r: string)
    ensures |r| == |s|
    ensures forall i :: 0 <= i < |s| ==> r[i] == LowerChar(s[i])
  {
    seq(|s|, i requires 0 <= i < |s| => LowerChar(s[i]))
  }

  /** A string is in lower case when lowering it changes nothing. */
  predicate IsLower(s: string) {
    forall i :: 0 <= i < |s| ==> !IsUpper(s[i])
  }

  lemma LowerIsLower(s: string)
    ensures IsLower(Lower(s)) && Lower(Lower(s)) == Lower(s)
  {
    var l := Lower(s);
    forall i | 0 <= i < |s| ensures !IsUpper(l[i]) {
      assert l[i] == LowerChar(s[i]);
    }
  }

  lemma LowerSlice(s: string, a: nat, b: nat)
    requires a <= b <= |s|
    ensures Lower(s)[a..b] == Lower(s[a..b])
  {
  }

  lemma IsLowerSlice(s: string, a: nat, b: nat)
    requires IsLower(s) && a <= b <= |s|
    ensures IsLower(s[a..b])
  {
    forall i | 0 <= i < b - a ensures !IsUpper(s[a..b][i]) {
      assert s[a..b][i] == s[a + i];
    }
  }

  // ---------------------------------------------------------------------------
  // White space

  /** ECMAScript WhiteSpace and LineTerminator: the characters of `\s` and of `trim`. */
  predicate IsSpace(c: char) {
    c == '\t' || c == '\n' || c == '\U{000B}' || c == '\U{000C}' || c == '\r' || c == ' '
    || c == '\U{00A0}' || c == '\U{1680}' || '\U{2000}' <= c <= '\U{200A}'
    || c == '\U{2028}' || c == '\U{2029}' || c == '\U{202F}' || c == '\U{205F}'
    || c == '\U{3000}' || c == '\U{FEFF}'
  }

  /** ECMAScript LineTerminator: where `^` and `$` match in multiline mode and what `.` refuses. */
  predicate IsLineTerminator(c: char) {
    c == '\n' || c == '\r' || c == '\U{2028}' || c == '\U{2029}'
  }

  function TrimStart(s: string): (r: string)
    ensures |r| <= |s| && r == s[|s| - |r|..]
    ensures r == [] || !IsSpace(r[0])
    ensures forall i :: 0 <= i < |s| - |r| ==> IsSpace(s[i])
  {
    if s == [] || !IsSpace(s[0]) then s else TrimStart(s[1..])
  }

  function TrimEnd(s: string): (r: string)
    ensures |r| <= |s| && r == s[..|r|]
    ensures r == [] || !IsSpace(r[|r| - 1])
    ensures forall i :: |r| <= i < |s| ==> IsSpace(s[i])
  {
    if s == [] || !IsSpace(s[|s| - 1]) then s else TrimEnd(s[..|s| - 1])
  }

  /** `s.trim()`. */
  function Trim(s: string): string {
    TrimEnd(TrimStart(s))
  }

  /** `s.trim()` is non-empty exactly when `s` has a character that is not white space. */
  lemma TrimNonEmpty(s: string)
    ensures Trim(s) != "" <==> exists i :: 0 <= i < |s| && !IsSpace(s[i])
  {
    var t := TrimStart(s);
    if Trim(s) == "" {
      assert t == [];
    } else {
      assert !IsSpace(t[0]);
      assert t[0] == s[|s| - |t|];
    }
  }

  // ---------------------------------------------------------------------------
  // Numbers as text

  function DigitChar(d: nat): (c: char)
    requires d < 10
    ensures '0' <= c <= '9'
  {
    ('0' as int + d) as char
  }

  /** Decimal digits of a natural number, without leading zeros. */
  function NatToString(n: nat): (r: string)
    ensures |r| > 0 && forall i :: 0 <= i < |r| ==> '0' <= r[i] <= '9'
    ensures |r| > 1 ==> r[0] != '0'
  {
    if n < 10 then [DigitChar(n)] else NatToString(n / 10) + [DigitChar(n % 10)]
  }

  /** `String(n)` for an integer number (below 10^21, where JavaScript switches to exponent notation). */
  function IntToString(n: int): (r: string)
    ensures |r| > 0 && forall c :: c in r ==> c == '-' || '0' <= c <= '9'
    ensures '"' !in r && '>' !in r && '<' !in r && '$' !in r
  {
    if n < 0 then "-" + NatToString(-n) else NatToString(n)
  }

  // ---------------------------------------------------------------------------
  // The default sort order on strings

  /**
   * The UTF-16 encoding of one character: its code point below U+10000, and
   * otherwise a leading surrogate (D800–DBFF) and a trailing one (DC00–DFFF).
   */
  function CodeUnits(c: char): (u: seq<int>)
    ensures |u| == 1 <==> (c as int) < 0x10000
    ensures |u| == 2 ==> 0xD800 <= u[0] < 0xDC00 && 0xDC00 <= u[1] < 0xE000
    ensures |u| == 1 || |u| == 2
  {
    var n := c as int;
    if n < 0x10000 then [n] else [0xD800 + (n - 0x10000) / 0x400, 0xDC00 + (n - 0x10000) % 0x400]
  }

  /** Strict lexicographic order on code-unit sequences. */
  predicate UnitsLess(u: seq<int>, v: seq<int>) {
    v != [] && (u == [] || u[0] < v[0] || (u[0] == v[0] && UnitsLess(u[1..], v[1..])))
  }

  /**
   * The rank of a character in UTF-16 code-unit order: characters below
   * U+D800 and the supplementary ones keep their code point, and
   * U+E000–U+FFFF rank after every supplementary character, whose leading
   * surrogate is smaller than them.
   */
  function UnitRank(c: char): (k: int)
    ensures (c as int) < 0xE000 || 0x10000 <= (c as int) ==> k == c as int
    ensures 0xE000 <= (c as int) < 0x10000 ==> k > 0x10FFFF
  {
    var n := c as int;
    if n < 0xE000 || 0x10000 <= n then n else n + 0x110000
  }

  /** The rank orders two characters exactly as their UTF-16 encodings compare. */
  lemma UnitRankIsCodeUnitOrder(c: char, d: char)
    ensures UnitRank(c) < UnitRank(d) <==> UnitsLess(CodeUnits(c), CodeUnits(d))
    ensures UnitRank(c) == UnitRank(d) <==> c == d
  {
    var u, v := CodeUnits(c), CodeUnits(d);
    var n, m := c as int, d as int;
    if n >= 0x10000 && m >= 0x10000 {
      if u[0] == v[0] {
        assert UnitsLess(u, v) <==> u[1] < v[1] by {
          assert u[1..] == [u[1]] && v[1..] == [v[1]];
          assert !UnitsLess([u[1]][1..], [v[1]][1..]);
        }
      }
    } else if n >= 0x10000 {
      assert u[1..] != [];
    } else if m >= 0x10000 {
      assert u[1..] == [];
    } else {
      assert u[1..] == [] && v[1..] == [];
    }
  }

  /**
   * `a` sorts no later than `b` under `Array.prototype.sort()` without a
   * comparator, which compares the strings' UTF-16 code units.
   */
  predicate LessEq(a: string, b: string) {
    a == [] || (b != [] && (UnitRank(a[0]) < UnitRank(b[0]) || (a[0] == b[0] && LessEq(a[1..], b[1..]))))
  }

  lemma {:induction false} LessEqTotal(a: string, b: string)
    ensures LessEq(a, b) || LessEq(b, a)
  {
    if a != [] && b != [] && a[0] == b[0] {
      LessEqTotal(a[1..], b[1..]);
    }
  }

  lemma {:induction false} LessEqAntisymmetric(a: string, b: string)
    requires LessEq(a, b) && LessEq(b, a)
    ensures a == b
  {
    if a != [] && b != [] {
      LessEqAntisymmetric(a[1..], b[1..]);
      assert a == [a[0]] + a[1..] && b == [b[0]] + b[1..];
    }
  }

  lemma {:induction false} LessEqTransitive(a: string, b: string, c: string)
    requires LessEq(a, b) && LessEq(b, c)
    ensures LessEq(a, c)
  {
    if a != [] && b != [] && c != [] && a[0] == b[0] && b[0] == c[0] {
      LessEqTransitive(a[1..], b[1..], c[1..]);
    }
  }

  /** Strictly increasing: sorted and without duplicates. */
  predicate StrictlySorted(s: seq<string>) {
    forall i, j :: 0 <= i < j < |s| ==> LessEq(s[i], s[j]) && s[i] != s[j]
  }

  /** Inserts `x` into a strictly sorted sequence that does not hold it. */
  function Insert(x: string, s: seq<string>): (r: seq<string>)
    requires StrictlySorted(s) && x !in s
    ensures StrictlySorted(r) && |r| == |s| + 1
    ensures forall y :: y in r <==> y == x || y in s
  {
    if s == [] then [x]
    else if LessEq(x, s[0]) then
      InsertFront(x, s);
      [x] + s
    else
      LessEqTotal(x, s[0]);
      var rest := Insert(x, s[1..]);
      assert forall y :: y in s[1..] ==> LessEq(s[0], y) && s[0] != y;
      assert forall y :: y in rest ==> LessEq(s[0], y) && s[0] != y;
      ConsSorted(s[0], rest);
      [s[0]] + rest
  }

  lemma ConsSorted(h: string, t: seq<string>)
    requires StrictlySorted(t) && forall y :: y in t ==> LessEq(h, y) && h != y
    ensures StrictlySorted([h] + t)
  {
    var r := [h] + t;
    forall i, j | 0 <= i < j < |r| ensures LessEq(r[i], r[j]) && r[i] != r[j] {
      assert r[j] == t[j - 1];
      if i > 0 { assert r[i] == t[i - 1]; }
    }
  }

  lemma InsertFront(x: string, s: seq<string>)
    requires StrictlySorted(s) && x !in s && s != [] && LessEq(x, s[0])
    ensures StrictlySorted([x] + s)
  {
    forall j | 0 <= j < |s| ensures LessEq(x, s[j]) {
      if j > 0 { LessEqTransitive(x, s[0], s[j]); }
    }
  }

  /** `Array.from(keys).sort()` for a set of distinct keys. */
  ghost function SortedKeys(keys: set<string>): (r: seq<string>)
    ensures StrictlySorted(r) && |r| == |keys|
    ensures forall k :: k in r <==> k in keys
  {
    if keys == {} then []
    else
      var x :| x in keys;
      var rest := SortedKeys(keys - {x});
      Insert(x, rest)
  }
}
