/** String operations of JavaScript that the client and the relay rely on,
    written out over `seq<char>`: the whitespace class shared by `\s` and
    `trim()`, `indexOf`/`includes`, `replace` with a string pattern (first
    occurrence) and with a global literal regex (all occurrences),
    `substring` with its clamping, and decimal rendering of numbers. */
module JsText {
  import opened Wrappers

  /** The characters JavaScript counts as white space or line terminators:
      the set matched by `\s` and removed by `String.prototype.trim`. */
  predicate IsSpace(c: char) {
    c == '\t' || c == '\n' || c == '\U{B}' || c == '\U{C}' || c == '\r' || c == ' '
    || c == '\U{A0}' || c == '\U{1680}' || ('\U{2000}' <= c <= '\U{200A}')
    || c == '\U{2028}' || c == '\U{2029}' || c == '\U{202F}' || c == '\U{205F}'
    || c == '\U{3000}' || c == '\U{FEFF}'
  }

  predicate AllSpace(s: string) {
    forall k :: 0 <= k < |s| ==> IsSpace(s[k])
  }

  /** The regex character classes the scanners use in greedy runs. */
  datatype CharClass = Spaces | NonQuotes | Letters | WordChars | NameChars

  /** `[a-z]` under the `i` flag. */
  predicate IsAsciiLetter(c: char) {
    ('a' <= c <= 'z') || ('A' <= c <= 'Z')
  }

  /** `\w` */
  predicate IsWordChar(c: char) {
    IsAsciiLetter(c) || ('0' <= c <= '9') || c == '_'
  }

  /** `[\w\.-]` */
  predicate IsNameChar(c: char) {
    IsWordChar(c) || c == '.' || c == '-'
  }

  predicate InClass(k: CharClass, c: char) {
    match k
    case Spaces => IsSpace(c)
    case NonQuotes => c != '"'
    case Letters => IsAsciiLetter(c)
    case WordChars => IsWordChar(c)
    case NameChars => IsNameChar(c)
  }

  /** Index of the first character at or after `i` outside class `k`: the
      end of a greedy run of that class, which never needs to give
      characters back when the class is disjoint from what follows it. */
  function SkipWhile(s: string, i: nat, k: CharClass): (j: nat)
    requires i <= |s|
    ensures i <= j <= |s|
    ensures j < |s| ==> !InClass(k, s[j])
    decreases |s| - i
  {
    if i < |s| && InClass(k, s[i]) then SkipWhile(s, i + 1, k) else i
  }

  /** Every character `SkipWhile` passes over is in the class. */
  lemma {:induction false} SkipWhileKeeps(s: string, i: nat, k: CharClass)
    requires i <= |s|
    ensures forall m :: i <= m < SkipWhile(s, i, k) ==> InClass(k, s[m])
    decreases |s| - i
  {
    if i < |s| && InClass(k, s[i]) {
      SkipWhileKeeps(s, i + 1, k);
    }
  }

  /** A run of class characters ended by another character is skipped whole. */
  lemma {:induction false} SkipWhileRun(s: string, i: nat, j: nat, k: CharClass)
    requires i <= j < |s|
    requires forall m :: i <= m < j ==> InClass(k, s[m])
    requires !InClass(k, s[j])
    ensures SkipWhile(s, i, k) == j
    decreases j - i
  {
    if i < j {
      SkipWhileRun(s, i + 1, j, k);
    }
  }

  /** A run of class characters up to `j` is skipped at least up to `j`. */
  lemma {:induction false} SkipWhilePast(s: string, i: nat, j: nat, k: CharClass)
    requires i <= j <= |s|
    requires forall m :: i <= m < j ==> InClass(k, s[m])
    ensures j <= SkipWhile(s, i, k)
    decreases j - i
  {
    if i < j {
      SkipWhilePast(s, i + 1, j, k);
    }
  }

  /** Index of the first non-space character at or after `i` (greedy `\s*`). */
  function SkipSpaces(s: string, i: nat): (j: nat)
    requires i <= |s|
    ensures i <= j <= |s|
    ensures j < |s| ==> !IsSpace(s[j])
  {
    SkipWhile(s, i, Spaces)
  }

  /** What `SkipSpaces` passes over is white space. */
  lemma SkipSpacesAllSpace(s: string, i: nat)
    requires i <= |s|
    ensures AllSpace(s[i..SkipSpaces(s, i)])
  {
    var j := SkipSpaces(s, i);
    SkipWhileKeeps(s, i, Spaces);
    assert forall k :: 0 <= k < j - i ==> s[i..j][k] == s[i + k];
  }

  /** One past the last non-space character before `j` (the end kept by `trim`). */
  function SkipSpacesBack(s: string, i: nat, j: nat): (k: nat)
    requires i <= j <= |s|
    ensures i <= k <= j
    ensures AllSpace(s[k..j])
    ensures i < k ==> !IsSpace(s[k - 1])
    decreases j
  {
    if i < j && IsSpace(s[j - 1]) then
      var k := SkipSpacesBack(s, i, j - 1);
      assert s[k..j] == s[k..j - 1] + [s[j - 1]];
      k
    else j
  }

  /** `String.prototype.trim`: `s` without its leading and trailing spaces. */
  function Trim(s: string): (r: string)
    ensures |r| <= |s|
    ensures r != [] ==> !IsSpace(r[0]) && !IsSpace(r[|r| - 1])
  {
    var a := SkipSpaces(s, 0);
    var b := SkipSpacesBack(s, a, |s|);
    assert a < b ==> !IsSpace(s[a]);
    s[a..b]
  }

  /** `trim` yields the empty string exactly for all-space input. */
  lemma TrimEmptyIff(s: string)
    ensures Trim(s) == [] <==> AllSpace(s)
  {
    var a := SkipSpaces(s, 0);
    var b := SkipSpacesBack(s, a, |s|);
    SkipSpacesAllSpace(s, 0);
    assert s[..a] == s[0..a];
    if a == b {
      assert s == s[0..a] + s[a..];
    }
  }

  /** What `trim` removes is white space only, from both ends. */
  lemma TrimIsInfix(s: string)
    ensures exists a, b :: 0 <= a <= b <= |s| && Trim(s) == s[a..b] && AllSpace(s[..a]) && AllSpace(s[b..])
  {
    var a := SkipSpaces(s, 0);
    var b := SkipSpacesBack(s, a, |s|);
    SkipSpacesAllSpace(s, 0);
    assert s[..a] == s[0..a];
    assert s[b..] == s[b..|s|];
    assert Trim(s) == s[a..b];
  }

  /** A slice of a slice is a slice of the whole. */
  lemma SliceOfSlice(s: string, a: nat, b: nat, i: nat, j: nat)
    requires a <= b <= |s| && i <= j <= b - a
    ensures s[a..b][i..j] == s[a + i..a + j]
  {
    assert forall k :: 0 <= k < j - i ==> s[a..b][i..j][k] == s[a + i + k];
  }

  /** The middle three parts of a five-part concatenation, as slices of it. */
  lemma ConcatSlices(a: string, b: string, c: string, d: string, e: string)
    ensures var s := a + b + c + d + e; var i := |a| + |b|; var j := i + |c|;
      s[|a|..i] == b && s[i..j] == c && s[j..j + |d|] == d
  {
  }

  predicate OccursAt(s: string, pat: string, i: nat) {
    i + |pat| <= |s| && s[i..i + |pat|] == pat
  }

  /** `pat` read one character at a time against `s` from `i + j` on, as a
      regex engine matches a literal: its characters from the `j`-th on
      occur at `i + j`. */
  predicate LiteralFrom(s: string, pat: string, i: nat, j: nat)
    requires j <= |pat|
    ensures LiteralFrom(s, pat, i, j) ==> i + |pat| <= |s|
    decreases |pat| - j
  {
    if j == |pat| then i + j <= |s|
    else i + j < |s| && s[i + j] == pat[j] && LiteralFrom(s, pat, i, j + 1)
  }

  /** Matching a literal character by character finds exactly its
      occurrences. */
  lemma LiteralOccurs(s: string, pat: string, i: nat)
    ensures LiteralFrom(s, pat, i, 0) <==> OccursAt(s, pat, i)
  {
    LiteralFromRest(s, pat, i, 0);
    if i + |pat| <= |s| {
      assert (s[i..i + |pat|] == pat) <==> (forall k :: 0 <= k < |pat| ==> s[i + k] == pat[k]) by {
        var w := s[i..i + |pat|];
        assert forall k :: 0 <= k < |pat| ==> w[k] == s[i + k];
      }
    }
  }

  lemma {:induction false} LiteralFromRest(s: string, pat: string, i: nat, j: nat)
    requires j <= |pat|
    ensures LiteralFrom(s, pat, i, j) <==> i + |pat| <= |s| && forall k :: j <= k < |pat| ==> s[i + k] == pat[k]
    decreases |pat| - j
  {
    if j < |pat| {
      LiteralFromRest(s, pat, i, j + 1);
    }
  }

  /** `s.indexOf(pat, from)`: the first occurrence of `pat` at or after `from`. */
  function IndexOf(s: string, pat: string, from: nat): (r: Option<nat>)
    ensures r.Some? ==> from <= r.value && OccursAt(s, pat, r.value)
    decreases |s| - from
  {
    if from + |pat| > |s| then None
    else if LiteralFrom(s, pat, from, 0) then LiteralOccurs(s, pat, from); Some(from)
    else IndexOf(s, pat, from + 1)
  }

  /** `indexOf` finds the first occurrence: none starts between `from` and
      the index found, and none at all at or after `from` when it finds
      nothing. */
  lemma {:induction false} IndexOfFirst(s: string, pat: string, from: nat, j: nat)
    requires from <= j
    requires IndexOf(s, pat, from).None? || j < IndexOf(s, pat, from).value
    ensures !OccursAt(s, pat, j)
    decreases |s| - from
  {
    LiteralOccurs(s, pat, from);
    if from + |pat| <= |s| && !LiteralFrom(s, pat, from, 0) && from < j {
      IndexOfFirst(s, pat, from + 1, j);
    }
  }

  /** Conversely, an occurrence at `c` with none in `[from, c)` is what
      `indexOf` returns. */
  lemma {:induction false} IndexOfFinds(s: string, pat: string, from: nat, c: nat)
    requires from <= c && OccursAt(s, pat, c)
    requires forall j :: from <= j < c ==> !OccursAt(s, pat, j)
    ensures IndexOf(s, pat, from) == Some(c)
    decreases c - from
  {
    LiteralOccurs(s, pat, from);
    if from < c {
      IndexOfFinds(s, pat, from + 1, c);
    }
  }

  predicate Includes(s: string, pat: string) {
    IndexOf(s, pat, 0).Some?
  }

  lemma IncludesIff(s: string, pat: string)
    ensures Includes(s, pat) <==> exists i :: OccursAt(s, pat, i)
  {
    if Includes(s, pat) {
      assert OccursAt(s, pat, IndexOf(s, pat, 0).value);
    } else {
      forall i | OccursAt(s, pat, i) ensures false {
        IndexOfFirst(s, pat, 0, i);
      }
    }
  }

  /** `s.replace(pat, rep)` with a string pattern and a replacement taken
      literally (no `$` patterns): the first occurrence only. */
  function ReplaceFirst(s: string, pat: string, rep: string): (r: string)
    ensures !Includes(s, pat) ==> r == s
    ensures Includes(s, pat) ==> |r| == |s| - |pat| + |rep|
    ensures Includes(s, pat) ==>
      var i := IndexOf(s, pat, 0).value;
      r == s[..i] + rep + s[i + |pat|..]
  {
    match IndexOf(s, pat, 0)
    case None => s
    case Some(i) => s[..i] + rep + s[i + |pat|..]
  }

  /** The character at `i` of an occurrence at `j`. */
  lemma OccursAtChar(s: string, pat: string, j: nat, i: nat)
    requires OccursAt(s, pat, j)
    ensures j <= i < j + |pat| ==> s[i] == pat[i - j]
  {
    if j <= i < j + |pat| {
      assert s[j..j + |pat|][i - j] == s[i];
    }
  }

  /** When `x` holds no `pat` and the first character of `pat` does not
      recur in it, the first occurrence in `x + pat + y` is the one right
      after `x`, so `replace` splices `rep` there. */
  lemma ReplaceFirstAfter(x: string, pat: string, y: string, rep: string)
    requires |pat| > 0 && forall k :: 0 < k < |pat| ==> pat[k] != pat[0]
    requires !Includes(x, pat)
    ensures ReplaceFirst(x + pat + y, pat, rep) == x + rep + y
  {
    var s := x + pat + y;
    assert s[|x|..|x| + |pat|] == pat;
    forall j | 0 <= j < |x| ensures !OccursAt(s, pat, j) {
      if OccursAt(s, pat, j) {
        OccursAtChar(s, pat, j, |x|);
        if j + |pat| <= |x| {
          assert x[j..j + |pat|] == s[j..j + |pat|];
          assert OccursAt(x, pat, j);
          IncludesIff(x, pat);
        }
      }
    }
    IndexOfFinds(s, pat, 0, |x|);
    assert s[..|x|] == x && s[|x| + |pat|..] == y;
  }

  /** `s` with its ASCII capitals lowered: how a regex with the `i` flag
      (and no `u` flag) compares ASCII letters; it never folds a non-ASCII
      character onto an ASCII one. */
  function LowerAscii(s: string): (r: string)
    ensures |r| == |s|
  {
    seq(|s|, k requires 0 <= k < |s| => if 'A' <= s[k] <= 'Z' then (s[k] as int + 32) as char else s[k])
  }

  /** The `len` characters at `at` replaced by `rep`; `s` itself when there
      is no match. */
  function ReplaceAt(s: string, at: Option<nat>, len: nat, rep: string): (r: string)
    ensures at.None? ==> r == s
  {
    match at
    case None => s
    case Some(i) => if i + len <= |s| then s[..i] + rep + s[i + len..] else s
  }

  /** `s.replace(/pat/g, rep)` for a non-empty literal pattern: every
      occurrence, found left to right without overlap. */
  function ReplaceAll(s: string, pat: string, rep: string): (r: string)
    requires |pat| > 0
    decreases |s|
  {
    if |s| < |pat| then s
    else if s[..|pat|] == pat then rep + ReplaceAll(s[|pat|..], pat, rep)
    else [s[0]] + ReplaceAll(s[1..], pat, rep)
  }

  lemma {:induction false} ReplaceAllAbsent(s: string, pat: string, rep: string)
    requires |pat| > 0
    requires forall i :: !OccursAt(s, pat, i)
    ensures ReplaceAll(s, pat, rep) == s
    decreases |s|
  {
    if |s| >= |pat| {
      assert !OccursAt(s, pat, 0);
      assert s[..|pat|] == s[0..|pat|];
      forall i: nat ensures !OccursAt(s[1..], pat, i) {
        assert !OccursAt(s, pat, i + 1);
      }
      ReplaceAllAbsent(s[1..], pat, rep);
      assert s == [s[0]] + s[1..];
    }
  }

  /** Concatenation regroups; stated once so that equalities between
      concatenations need no element-wise reasoning. */
  lemma AppendAssoc<T>(a: seq<T>, b: seq<T>, c: seq<T>)
    ensures (a + b) + c == a + (b + c)
  {
  }

  /** A slice inside the first part of a concatenation. */
  lemma PrefixSlice<T>(a: seq<T>, b: seq<T>, i: nat, j: nat)
    requires i <= j <= |a|
    ensures (a + b)[i..j] == a[i..j]
  {
  }

  /** `s.startsWith(p)` / `s.endsWith(p)`. */
  predicate StartsWith(s: string, p: string) {
    |p| <= |s| && s[..|p|] == p
  }

  predicate EndsWith(s: string, p: string) {
    |p| <= |s| && s[|s| - |p|..] == p
  }

  /** `s.substring(n)`: the empty string when `n` is past the end. */
  function DropFrom(s: string, n: nat): (r: string)
    ensures n <= |s| ==> s == s[..n] + r
    ensures n >= |s| ==> r == []
  {
    if n >= |s| then [] else s[n..]
  }

  /** `s.substring(0, n)`: the first `n` characters, or all of `s`. */
  function TakePrefix(s: string, n: nat): (r: string)
    ensures |r| <= n && |r| <= |s|
    ensures StartsWith(s, r)
    ensures |s| <= n ==> r == s
    ensures n <= |s| ==> |r| == n
  {
    if n >= |s| then s else s[..n]
  }

  /** `String(n)` for a natural number. */
  function Decimal(n: nat): (r: string)
    ensures |r| >= 1
    ensures forall k :: 0 <= k < |r| ==> '0' <= r[k] <= '9'
    ensures n >= 10 ==> r[0] != '0'
  {
    if n < 10 then [DigitChar(n)] else Decimal(n / 10) + [DigitChar(n % 10)]
  }

  function DigitChar(d: nat): (c: char)
    requires d < 10
    ensures '0' <= c <= '9'
    ensures c as int - '0' as int == d
  {
    ('0' as int + d) as char
  }

  /** The number a string of decimal digits denotes, most significant
      digit first. */
  function DigitsValue(s: string): nat
    requires forall k :: 0 <= k < |s| ==> '0' <= s[k] <= '9'
  {
    if |s| == 0 then 0
    else 10 * DigitsValue(s[..|s| - 1]) + (s[|s| - 1] as int - '0' as int)
  }

  /** Reading the rendering back gives the number: `String(n)` names `n`
      and no other count. */
  lemma {:induction false} DecimalValue(n: nat)
    ensures DigitsValue(Decimal(n)) == n
  {
    if n >= 10 {
      DecimalValue(n / 10);
      var r := Decimal(n);
      assert r[..|r| - 1] == Decimal(n / 10);
    }
  }

  /** Different counts render differently. */
  lemma DecimalInjective(m: nat, n: nat)
    requires Decimal(m) == Decimal(n)
    ensures m == n
  {
    DecimalValue(m);
    DecimalValue(n);
  }

  /** `parts.join(sep)`. */
  function Join(parts: seq<string>, sep: string): string {
    if |parts| == 0 then []
    else if |parts| == 1 then parts[0]
    else parts[0] + sep + Join(parts[1..], sep)
  }
}
