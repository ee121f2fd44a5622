/** Explicit scanners for the regular expressions the client uses to find
    structured directives in the model's reply (client/app.js):

    - the block pattern `<(FILE|DIFF)\s+(?:name|file)\s*=\s*"([^"]+)"\s*>([\s\S]*?)<\/\1>`
      run with the global flag from a saved `lastIndex` (line 362);
    - the removal of a leading and a trailing Markdown fence (line 371);
    - the hunk pattern
      `<{7}\s*SEARCH\s*\n([\s\S]*?)\n={7}\s*\n([\s\S]*?)\n>{7}\s*REPLACE`
      (line 386), whose `\s*\n` pieces backtrack: the scanner below tries
      the choices in exactly the order a backtracking engine does;
    - the section pattern `File:\s*([\w\.-]+)\n```[\w]*\n([\s\S]*?)```` of
      `extractAndSyncFiles` (line 1893).

    Each `...At(s, p)` function says whether the pattern matches at `p` and
    where its groups lie; each `Next...(s, from)` is one call of `exec`: the
    leftmost match starting at or after `from`. A match records positions
    only; the captured texts are slices of `s` taken by separate functions. */
module TagScan {
  import opened Wrappers
  import opened JsText

  // ---------------------------------------------------------------------
  // FILE / DIFF blocks
  // ---------------------------------------------------------------------

  datatype Kind = FileTag | DiffTag

  function KindName(k: Kind): (r: string)
    ensures |r| == 4
  {
    match k
    case FileTag => "FILE"
    case DiffTag => "DIFF"
  }

  /** The back-referenced closing tag `</FILE>` or `</DIFF>`. */
  function CloseTag(k: Kind): (r: string)
    ensures |r| == 7
  {
    "</" + KindName(k) + ">"
  }

  /** Only the first character of a closing tag is a `<`. */
  lemma CloseTagShape(k: Kind)
    ensures CloseTag(k)[0] == '<' && forall d :: 1 <= d < 7 ==> CloseTag(k)[d] != '<'
  {
  }

  /** The opening tag up to its `>`: kind, the raw (untrimmed) name and the
      index where the body starts. */
  datatype OpenTag = OpenTag(kind: Kind, rawName: string, bodyStart: nat)

  /** A matched block: `start` is the index of its `<`, `bodyStart` of the
      first character after the opening tag, `end` one past its closing tag
      (the regex's `lastIndex` after the match). */
  datatype Block = Block(kind: Kind, rawName: string, start: nat, bodyStart: nat, end: nat)

  /** The text between a block's tags (the pattern's third group). */
  function BlockBody(s: string, b: Block): string {
    if b.bodyStart + 7 <= b.end <= |s| then s[b.bodyStart..b.end - 7] else []
  }

  /** `<(FILE|DIFF)` at `p`. */
  function KindAt(s: string, p: nat): (r: Option<Kind>)
    ensures r.Some? ==> p + 5 <= |s| && s[p] == '<'
    ensures p >= |s| || s[p] != '<' ==> r.None?
  {
    if !(p + 5 <= |s| && s[p] == '<') then None
    else if s[p + 1..p + 5] == "FILE" then Some(FileTag)
    else if s[p + 1..p + 5] == "DIFF" then Some(DiffTag)
    else None
  }

  /** `"([^"]+)"` at `q`: the index of the closing quote. */
  function QuotedAt(s: string, q: nat): (r: Option<nat>)
    requires q <= |s|
    ensures r.Some? ==> q + 1 < r.value < |s|
  {
    if !(q < |s| && s[q] == '"') then None
    else
      var n := SkipWhile(s, q + 1, NonQuotes);
      if n == q + 1 || n == |s| then None else Some(n)
  }

  /** `(?:name|file)\s*=\s*"([^"]+)"\s*>` at `a`: the raw name and the index
      just past the `>`. */
  function AttrAt(s: string, a: nat): (r: Option<(string, nat)>)
    requires a <= |s|
    ensures r.Some? ==> a + 4 < r.value.1 <= |s| && r.value.0 != []
  {
    if !(OccursAt(s, "name", a) || OccursAt(s, "file", a)) then None
    else
      var e := SkipSpaces(s, a + 4);
      if !(e < |s| && s[e] == '=') then None
      else
        var q := SkipSpaces(s, e + 1);
        match QuotedAt(s, q)
        case None => None
        case Some(n) =>
          var g := SkipSpaces(s, n + 1);
          if !(g < |s| && s[g] == '>') then None
          else Some((s[q + 1..n], g + 1))
  }

  /** The opening tag tried at `p`; `\s+` after the kind needs at least one space. */
  function OpenTagAt(s: string, p: nat): (r: Option<OpenTag>)
    ensures r.Some? ==> p + 5 < r.value.bodyStart <= |s| && r.value.rawName != []
    ensures p >= |s| || s[p] != '<' ==> r.None?
  {
    match KindAt(s, p)
    case None => None
    case Some(kind) =>
      var a := SkipSpaces(s, p + 5);
      if a == p + 5 then None
      else
        match AttrAt(s, a)
        case None => None
        case Some(na) => Some(OpenTag(kind, na.0, na.1))
  }

  /** The captured name holds no quote (the class `[^"]`). */
  lemma OpenTagNameNoQuote(s: string, p: nat)
    requires OpenTagAt(s, p).Some?
    ensures var name := OpenTagAt(s, p).value.rawName;
      forall k :: 0 <= k < |name| ==> name[k] != '"'
  {
    var a := SkipSpaces(s, p + 5);
    assert OpenTagAt(s, p).value.rawName == AttrAt(s, a).value.0;
    AttrNameNoQuote(s, a);
  }

  lemma AttrNameNoQuote(s: string, a: nat)
    requires a <= |s| && AttrAt(s, a).Some?
    ensures var name := AttrAt(s, a).value.0;
      forall k :: 0 <= k < |name| ==> name[k] != '"'
  {
    var e := SkipSpaces(s, a + 4);
    var q := SkipSpaces(s, e + 1);
    var n := QuotedAt(s, q).value;
    assert AttrAt(s, a).value.0 == s[q + 1..n];
    QuotedNoQuote(s, q);
  }

  lemma QuotedNoQuote(s: string, q: nat)
    requires q <= |s| && QuotedAt(s, q).Some?
    ensures forall k :: q + 1 <= k < QuotedAt(s, q).value ==> s[k] != '"'
  {
    SkipWhileKeeps(s, q + 1, NonQuotes);
  }

  /** The block pattern tried at index `p`: the opening tag, then the body
      up to the FIRST closing tag of the same kind (the lazy `*?`). */
  function BlockAt(s: string, p: nat): (r: Option<Block>)
    ensures r.Some? ==> OpenTagAt(s, p) == Some(OpenTag(r.value.kind, r.value.rawName, r.value.bodyStart))
    ensures r.Some? ==> r.value.start == p && r.value.bodyStart + 7 <= r.value.end <= |s|
    ensures r.Some? ==> IndexOf(s, CloseTag(r.value.kind), r.value.bodyStart) == Some(r.value.end - 7)
    ensures OpenTagAt(s, p).None? ==> r.None?
  {
    match OpenTagAt(s, p)
    case None => None
    case Some(t) =>
      match IndexOf(s, CloseTag(t.kind), t.bodyStart)
      case None => None
      case Some(c) => Some(Block(t.kind, t.rawName, p, t.bodyStart, c + 7))
  }

  /** A block ends at the first closing tag after its opening tag, so its
      body holds no closing tag of its kind. */
  lemma BlockAtCloses(s: string, p: nat)
    requires BlockAt(s, p).Some?
    ensures var b := BlockAt(s, p).value; !Includes(BlockBody(s, b), CloseTag(b.kind))
  {
    var b := BlockAt(s, p).value;
    forall j | b.bodyStart <= j < b.end - 7 ensures !OccursAt(s, CloseTag(b.kind), j) {
      IndexOfFirst(s, CloseTag(b.kind), b.bodyStart, j);
    }
    NoEarlierOccurrence(s, CloseTag(b.kind), b.bodyStart, b.end - 7);
  }

  /** No occurrence of `pat` in `s[a..c]` when none starts in `[a, c)`. */
  lemma NoEarlierOccurrence(s: string, pat: string, a: nat, c: nat)
    requires |pat| > 0 && a <= c <= |s|
    requires forall j :: a <= j < c ==> !OccursAt(s, pat, j)
    ensures !Includes(s[a..c], pat)
  {
    var body := s[a..c];
    match IndexOf(body, pat, 0)
    case None =>
    case Some(i) =>
      assert OccursAt(body, pat, i);
      assert body[i..i + |pat|] == s[a + i..a + i + |pat|];
      assert OccursAt(s, pat, a + i);
      assert false;
  }

  /** One `exec` of the block pattern with `lastIndex == from`: the first
      position at or after `from` where a block matches; none when `from` is
      past the end. */
  function NextBlock(s: string, from: nat): (r: Option<Block>)
    ensures r.Some? ==> from <= r.value.start && BlockAt(s, r.value.start) == r
    decreases |s| - from
  {
    if from >= |s| then None
    else if BlockAt(s, from).Some? then BlockAt(s, from)
    else NextBlock(s, from + 1)
  }

  /** A block at `from` itself is the next one. */
  lemma NextBlockHere(s: string, from: nat)
    requires BlockAt(s, from).Some?
    ensures NextBlock(s, from) == BlockAt(s, from)
  {
    assert OpenTagAt(s, from).Some?;
  }

  /** `NextBlock` finds the leftmost block: none starts earlier, and when it
      finds nothing, no block starts at or after `from`. */
  lemma NextBlockLeftmost(s: string, from: nat, p: nat)
    requires from <= p
    requires NextBlock(s, from).None? || p < NextBlock(s, from).value.start
    ensures BlockAt(s, p).None?
  {
    NextBlockFinds(s, from, p);
  }

  /** A block at `p` is found from any `from` up to `p`, at or before `p`. */
  lemma {:induction false} NextBlockFinds(s: string, from: nat, p: nat)
    requires from <= p
    ensures BlockAt(s, p).Some? ==> NextBlock(s, from).Some? && NextBlock(s, from).value.start <= p
    decreases p - from
  {
    if BlockAt(s, p).Some? {
      assert OpenTagAt(s, p).Some?;
      if BlockAt(s, from).Some? {
        NextBlockHere(s, from);
      } else {
        NextBlockFinds(s, from + 1, p);
      }
    }
  }


  /** The canonical opening tag `<FILE name="...">` / `<DIFF name="...">`. */
  function OpenTagText(k: Kind, name: string): (r: string)
    ensures |r| == |name| + 14
  {
    "<" + KindName(k) + " name=\"" + name + "\">"
  }

  /** `name="..."` followed by `>` at `a`. */
  lemma AttrRendered(s: string, a: nat, name: string)
    requires name != [] && forall i :: 0 <= i < |name| ==> name[i] != '"'
    requires a + |name| + 8 <= |s| && s[a..a + 6] == "name=\""
    requires s[a + 6..a + 6 + |name|] == name
    requires s[a + 6 + |name|] == '"' && s[a + 7 + |name|] == '>'
    ensures AttrAt(s, a) == Some((name, a + |name| + 8))
  {
    var n := a + 6 + |name|;
    assert s[a..a + 4] == s[a..a + 6][..4] == "name";
    assert s[a + 4] == s[a..a + 6][4] == '=';
    assert s[a + 5] == s[a..a + 6][5] == '"';
    SkipWhileRun(s, a + 4, a + 4, Spaces);
    SkipWhileRun(s, a + 5, a + 5, Spaces);
    forall i | a + 6 <= i < n ensures InClass(NonQuotes, s[i]) {
      assert s[i] == s[a + 6..n][i - a - 6];
    }
    SkipWhileRun(s, a + 6, n, NonQuotes);
    SkipWhileRun(s, n + 1, n + 1, Spaces);
  }

  lemma KindRendered(s: string, p: nat, k: Kind)
    requires p + 5 <= |s| && s[p..p + 5] == "<" + KindName(k)
    ensures KindAt(s, p) == Some(k)
  {
    assert s[p] == s[p..p + 5][0] == '<';
    assert s[p + 1..p + 5] == s[p..p + 5][1..] == KindName(k);
  }

  /** The four parts of a canonical opening tag. */
  lemma OpenTagTextParts(s: string, p: nat, k: Kind, name: string)
    requires p + |name| + 14 <= |s| && s[p..p + |name| + 14] == OpenTagText(k, name)
    ensures s[p..p + 5] == "<" + KindName(k) && s[p + 5..p + 12] == " name=\""
    ensures s[p + 12..p + 12 + |name|] == name && s[p + 12 + |name|..p + |name| + 14] == "\">"
  {
    var t := OpenTagText(k, name);
    var n := p + 12 + |name|;
    assert t[..5] == "<" + KindName(k);
    assert t[5..12] == " name=\"";
    assert t[12..12 + |name|] == name;
    assert t[12 + |name|..] == "\">";
    SliceOfSlice(s, p, n + 2, 0, 5);
    SliceOfSlice(s, p, n + 2, 5, 12);
    SliceOfSlice(s, p, n + 2, 12, 12 + |name|);
    SliceOfSlice(s, p, n + 2, 12 + |name|, 14 + |name|);
  }

  /** A canonical opening tag is recognized at its `<`. */
  lemma OpenTagRendered(s: string, p: nat, k: Kind, name: string)
    requires name != [] && forall i :: 0 <= i < |name| ==> name[i] != '"'
    requires p + |name| + 14 <= |s| && s[p..p + |name| + 14] == OpenTagText(k, name)
    ensures OpenTagAt(s, p) == Some(OpenTag(k, name, p + |name| + 14))
  {
    OpenTagTextParts(s, p, k, name);
    OpenTagSeparators(s, p, name);
    OpenTagFromParts(s, p, k, name);
  }

  /** The single characters around the name of a canonical opening tag. */
  lemma OpenTagSeparators(s: string, p: nat, name: string)
    requires p + |name| + 14 <= |s|
    requires s[p + 5..p + 12] == " name=\"" && s[p + 12 + |name|..p + |name| + 14] == "\">"
    ensures s[p + 5] == ' ' && s[p + 6..p + 12] == "name=\""
    ensures s[p + 12 + |name|] == '"' && s[p + 13 + |name|] == '>'
  {
    var n := p + 12 + |name|;
    assert s[p + 5] == s[p + 5..p + 12][0];
    assert s[p + 6..p + 12] == s[p + 5..p + 12][1..];
    assert s[n] == s[n..n + 2][0];
    assert s[n + 1] == s[n..n + 2][1];
  }

  lemma OpenTagFromParts(s: string, p: nat, k: Kind, name: string)
    requires name != [] && forall i :: 0 <= i < |name| ==> name[i] != '"'
    requires p + |name| + 14 <= |s| && s[p..p + 5] == "<" + KindName(k)
    requires s[p + 5] == ' ' && s[p + 6..p + 12] == "name=\""
    requires s[p + 12..p + 12 + |name|] == name
    requires s[p + 12 + |name|] == '"' && s[p + 13 + |name|] == '>'
    ensures OpenTagAt(s, p) == Some(OpenTag(k, name, p + |name| + 14))
  {
    KindRendered(s, p, k);
    assert s[p + 6] == s[p + 6..p + 12][0] == 'n';
    SkipWhileRun(s, p + 5, p + 6, Spaces);
    AttrRendered(s, p + 6, name);
    OpenTagAtOf(s, p, k, p + 6, name, p + |name| + 14);
  }

  /** `OpenTagAt` from the results of its three steps. */
  lemma OpenTagAtOf(s: string, p: nat, k: Kind, a: nat, name: string, end: nat)
    requires KindAt(s, p) == Some(k) && SkipWhile(s, p + 5, Spaces) == a && a != p + 5
    requires a <= |s| && AttrAt(s, a) == Some((name, a + |name| + 8)) && end == a + |name| + 8
    ensures OpenTagAt(s, p) == Some(OpenTag(k, name, end))
  {
  }

  /** `close` (a `<` followed by characters other than `<`) does not start
      inside `s[a..c] == body` when `body` lacks it and `s[c] == '<'`. */
  lemma CloseTagNotBefore(s: string, a: nat, c: nat, j: nat, body: string, close: string)
    requires |close| == 7 && close[0] == '<' && forall d :: 1 <= d < 7 ==> close[d] != '<'
    requires a <= j < c < |s| && s[a..c] == body && s[c] == '<'
    requires !Includes(body, close)
    ensures !OccursAt(s, close, j)
  {
    if OccursAt(s, close, j) {
      if j + 7 <= c {
        SliceOfSlice(s, a, c, j - a, j - a + 7);
        assert OccursAt(body, close, j - a);
        IncludesIff(body, close);
        assert false;
      }
    }
  }

  /** The first closing tag from `bs` is at `c` when `s[bs..c]` holds none
      and one starts at `c`. */
  lemma CloseTagFound(s: string, k: Kind, bs: nat, c: nat, body: string)
    requires bs <= c && c + 7 <= |s| && s[c..c + 7] == CloseTag(k)
    requires s[bs..c] == body && !Includes(body, CloseTag(k))
    ensures IndexOf(s, CloseTag(k), bs) == Some(c)
  {
    var close := CloseTag(k);
    CloseTagShape(k);
    assert s[c] == s[c..c + 7][0] == '<';
    forall j | bs <= j < c ensures !OccursAt(s, close, j) {
      CloseTagNotBefore(s, bs, c, j, body, close);
    }
    IndexOfFinds(s, close, bs, c);
  }

  /** A well-formed block at `p` is recognized exactly there, with its name
      and body, provided the name is a non-empty run without quotes and the
      body holds no closing tag of its kind. */
  lemma BlockAtRendered(s: string, p: nat, k: Kind, name: string, body: string)
    requires name != [] && forall i :: 0 <= i < |name| ==> name[i] != '"'
    requires !Includes(body, CloseTag(k))
    requires p + |name| + 14 + |body| + 7 <= |s|
    requires s[p..p + |name| + 14] == OpenTagText(k, name)
    requires s[p + |name| + 14..p + |name| + 14 + |body|] == body
    requires s[p + |name| + 14 + |body|..p + |name| + 14 + |body| + 7] == CloseTag(k)
    ensures var bs := p + |name| + 14;
      var b := Block(k, name, p, bs, bs + |body| + 7);
      BlockAt(s, p) == Some(b) && BlockBody(s, b) == body
  {
    var bs := p + |name| + 14;
    var c := bs + |body|;
    OpenTagRendered(s, p, k, name);
    CloseTagFound(s, k, bs, c, body);
    BlockAtParts(s, p, OpenTag(k, name, bs), c, body);
  }

  /** The block at `p` in terms of its opening tag and its closing tag. */
  lemma BlockAtParts(s: string, p: nat, t: OpenTag, c: nat, body: string)
    requires OpenTagAt(s, p) == Some(t) && IndexOf(s, CloseTag(t.kind), t.bodyStart) == Some(c)
    requires t.bodyStart <= c && s[t.bodyStart..c] == body
    ensures var b := Block(t.kind, t.rawName, p, t.bodyStart, c + 7);
      BlockAt(s, p) == Some(b) && BlockBody(s, b) == body
  {
  }

  // ---------------------------------------------------------------------
  // Markdown fences (line 371): `replace(/^```[a-z]*\n?/i, '')` then
  // `replace(/```$/i, '')`; without the `m` flag `^` and `$` are the ends
  // of the whole body, and with the `i` flag `[a-z]` takes ASCII letters of
  // either case.
  // ---------------------------------------------------------------------

  function StripLeadingFence(b: string): (r: string)
    ensures |r| <= |b|
  {
    if !StartsWith(b, "```") then b
    else
      var k := SkipWhile(b, 3, Letters);
      if k < |b| && b[k] == '\n' then b[k + 1..] else b[k..]
  }

  function StripTrailingFence(b: string): (r: string)
    ensures |r| <= |b|
  {
    if EndsWith(b, "```") then b[..|b| - 3] else b
  }

  function StripFence(b: string): (r: string)
    ensures |r| <= |b|
  {
    StripTrailingFence(StripLeadingFence(b))
  }

  /** Stripping undoes fencing: the code inside "```lang\n" ... "```" comes
      back exactly. */
  lemma StripFenceOfFenced(lang: string, code: string)
    requires forall i :: 0 <= i < |lang| ==> IsAsciiLetter(lang[i])
    ensures StripFence("```" + lang + "\n" + code + "```") == code
  {
    var b := "```" + lang + "\n" + code + "```";
    var k := 3 + |lang|;
    assert StartsWith(b, "```") by { assert b[..3] == "```"; }
    assert forall i :: 3 <= i < k ==> IsAsciiLetter(b[i]) by {
      forall i | 3 <= i < k ensures IsAsciiLetter(b[i]) { assert b[i] == lang[i - 3]; }
    }
    assert b[k] == '\n';
    SkipWhileRun(b, 3, k, Letters);
    assert StripLeadingFence(b) == code + "```";
    var c := code + "```";
    assert c[|c| - 3..] == "```";
    assert c[..|c| - 3] == code;
  }

  /** A body that neither starts nor ends with a fence is left as it is. */
  lemma StripFenceUnfenced(b: string)
    requires !StartsWith(b, "```") && !EndsWith(b, "```")
    ensures StripFence(b) == b
  {
  }

  // ---------------------------------------------------------------------
  // SEARCH / REPLACE hunks (line 386)
  // ---------------------------------------------------------------------

  /** A matched hunk: where it starts, where its two groups lie, and the
      index one past the `REPLACE` keyword. */
  datatype Hunk = Hunk(start: nat, searchStart: nat, searchEnd: nat, replaceStart: nat, replaceEnd: nat, end: nat)

  predicate HunkInBounds(s: string, h: Hunk) {
    h.searchStart <= h.searchEnd <= h.replaceStart <= h.replaceEnd <= h.end <= |s|
  }

  /** The first group: the text to look for. */
  function SearchText(s: string, h: Hunk): string {
    if HunkInBounds(s, h) then s[h.searchStart..h.searchEnd] else []
  }

  /** The second group: the text to put in its place. */
  function ReplaceText(s: string, h: Hunk): string {
    if HunkInBounds(s, h) then s[h.replaceStart..h.replaceEnd] else []
  }

  /** `\n>{7}\s*REPLACE` at `t`. */
  predicate CloseMarkerAt(s: string, t: nat) {
    OccursAt(s, "\n>>>>>>>", t) && OccursAt(s, "REPLACE", SkipSpaces(s, t + 8))
  }

  /** The lazy second group: the first closing marker at or after `from`. */
  function FirstCloseMarker(s: string, from: nat): (r: Option<nat>)
    ensures r.Some? ==> from <= r.value && r.value + 8 <= |s| && CloseMarkerAt(s, r.value)
    decreases |s| - from
  {
    if from + 8 > |s| then None
    else if CloseMarkerAt(s, from) then Some(from)
    else FirstCloseMarker(s, from + 1)
  }

  /** `\n={7}` at `j`. */
  predicate SeparatorAt(s: string, j: nat) {
    OccursAt(s, "\n=======", j)
  }

  /** After the separator at `j`, the greedy `\s*` before `\n` gives back
      characters one at a time: try each newline in `s[lo..i]`, last first,
      as the one that ends the separator line; the replacement starts after
      it and runs to the first closing marker. */
  function TryReplaceStarts(s: string, g1: nat, j: nat, lo: nat, i: nat): (r: Option<Hunk>)
    requires g1 <= j <= lo <= i <= |s|
    ensures r.Some? ==> r.value.searchStart == g1 && r.value.searchEnd == j && HunkInBounds(s, r.value)
    decreases i - lo
  {
    if i == lo then None
    else if s[i - 1] == '\n' && FirstCloseMarker(s, i).Some? then
      var t := FirstCloseMarker(s, i).value;
      var k := SkipSpaces(s, t + 8);
      Some(Hunk(0, g1, j, i, t, k + 7))
    else TryReplaceStarts(s, g1, j, lo, i - 1)
  }

  /** The lazy first group starting at `g1`: try each separator at or after
      `j`, nearest first, until the rest of the pattern matches. */
  function TrySeparators(s: string, g1: nat, j: nat): (r: Option<Hunk>)
    requires g1 <= j <= |s|
    ensures r.Some? ==> r.value.searchStart == g1 && HunkInBounds(s, r.value)
    decreases |s| - j
  {
    if j == |s| then None
    else if SeparatorAt(s, j) then
      var r := TryReplaceStarts(s, g1, j, j + 8, SkipSpaces(s, j + 8));
      if r.Some? then r else TrySeparators(s, g1, j + 1)
    else TrySeparators(s, g1, j + 1)
  }

  /** The greedy `\s*` before the `\n` that ends the SEARCH line: try each
      newline in `s[lo..i]`, last first, as that one. */
  function TrySearchStarts(s: string, lo: nat, i: nat): (r: Option<Hunk>)
    requires lo <= i <= |s|
    ensures r.Some? ==> lo < r.value.searchStart && HunkInBounds(s, r.value)
    decreases i - lo
  {
    if i == lo then None
    else if s[i - 1] == '\n' && TrySeparators(s, i, i).Some? then TrySeparators(s, i, i)
    else TrySearchStarts(s, lo, i - 1)
  }

  /** The hunk pattern tried at index `p`. */
  function HunkAt(s: string, p: nat): (r: Option<Hunk>)
    ensures r.Some? ==> r.value.start == p < r.value.searchStart && HunkInBounds(s, r.value)
  {
    if !OccursAt(s, "<<<<<<<", p) then None
    else
      var q := SkipSpaces(s, p + 7);
      if !OccursAt(s, "SEARCH", q) then None
      else
        var h := TrySearchStarts(s, q + 6, SkipSpaces(s, q + 6));
        if h.Some? then Some(h.value.(start := p)) else None
  }

  /** One `exec` of the hunk pattern with `lastIndex == from`. */
  function NextHunk(s: string, from: nat): (r: Option<Hunk>)
    ensures r.Some? ==> from <= r.value.start && HunkAt(s, r.value.start) == r
    decreases |s| - from
  {
    if from >= |s| then None
    else if HunkAt(s, from).Some? then HunkAt(s, from)
    else NextHunk(s, from + 1)
  }

  /** A hunk at `from` itself is the next one. */
  lemma NextHunkHere(s: string, from: nat)
    requires HunkAt(s, from).Some?
    ensures NextHunk(s, from) == HunkAt(s, from)
  {
    assert OccursAt(s, "<<<<<<<", from);
  }

  /** `NextHunk` finds the leftmost hunk. */
  lemma {:induction false} NextHunkLeftmost(s: string, from: nat, p: nat)
    requires from <= p
    requires NextHunk(s, from).None? || p < NextHunk(s, from).value.start
    ensures HunkAt(s, p).None?
    decreases |s| - from
  {
    if p >= |s| {
      assert !OccursAt(s, "<<<<<<<", p);
    } else if from < p {
      NextHunkLeftmost(s, from + 1, p);
    }
  }

  /** The canonical hunk as the assistant is asked to write it. */
  function HunkText(search: string, replace: string): (r: string)
    ensures |r| == |search| + |replace| + 40
  {
    "<<<<<<< SEARCH\n" + search + "\n=======\n" + replace + "\n>>>>>>> REPLACE"
  }

  /** `marker` (a newline followed by seven non-newlines) does not start
      inside `s[a..b] == body` when `body` lacks it and `s[b]` is a newline. */
  lemma NoMarkerBefore(s: string, a: nat, b: nat, u: nat, body: string, marker: string)
    requires |marker| == 8 && marker[0] == '\n' && forall d :: 1 <= d < 8 ==> marker[d] != '\n'
    requires a <= u < b < |s| && s[a..b] == body && s[b] == '\n'
    requires !Includes(body, marker)
    ensures !OccursAt(s, marker, u)
  {
    if OccursAt(s, marker, u) {
      if u + 8 <= b {
        SliceOfSlice(s, a, b, u - a, u - a + 8);
        assert OccursAt(body, marker, u - a);
        IncludesIff(body, marker);
        assert false;
      }
    }
  }

  lemma {:induction false} TrySeparatorsSkips(s: string, g1: nat, j: nat, e: nat)
    requires g1 <= j <= e <= |s|
    requires forall u :: j <= u < e ==> !SeparatorAt(s, u)
    ensures TrySeparators(s, g1, j) == TrySeparators(s, g1, e)
    decreases e - j
  {
    if j < e {
      TrySeparatorsSkips(s, g1, j + 1, e);
    }
  }

  /** The first closing marker is the first `\n>>>>>>>` when that one is
      followed by `\s*REPLACE`. */
  lemma {:induction false} FirstCloseMarkerFinds(s: string, from: nat, t: nat)
    requires from <= t && CloseMarkerAt(s, t)
    requires forall u :: from <= u < t ==> !OccursAt(s, "\n>>>>>>>", u)
    ensures FirstCloseMarker(s, from) == Some(t)
    decreases t - from
  {
    if from < t {
      assert !CloseMarkerAt(s, from);
      FirstCloseMarkerFinds(s, from + 1, t);
    }
  }

  /** The canonical separator line `\n=======\n` before a non-space character. */
  lemma SeparatorLine(s: string, e: nat)
    requires e + 9 < |s| && s[e..e + 9] == "\n=======\n" && !IsSpace(s[e + 9])
    ensures SeparatorAt(s, e) && s[e + 8] == '\n' && SkipSpaces(s, e + 8) == e + 9
  {
    assert s[e..e + 8] == s[e..e + 9][..8] == "\n=======";
    assert s[e + 8] == s[e..e + 9][8] == '\n';
    SkipWhileRun(s, e + 8, e + 9, Spaces);
  }

  /** The canonical closing line `\n>>>>>>> REPLACE`. */
  lemma CloseMarkerText(s: string, t: nat)
    requires t + 16 <= |s| && s[t..t + 16] == "\n>>>>>>> REPLACE"
    ensures CloseMarkerAt(s, t) && SkipSpaces(s, t + 8) == t + 9
  {
    assert s[t..t + 8] == s[t..t + 16][..8] == "\n>>>>>>>";
    assert s[t + 8] == s[t..t + 16][8] == ' ';
    assert s[t + 9] == s[t..t + 16][9] == 'R';
    SkipWhileRun(s, t + 8, t + 9, Spaces);
    assert s[t + 9..t + 16] == s[t..t + 16][9..] == "REPLACE";
  }

  /** The part after a canonical separator line: the replacement text runs
      from just past the separator line to the first closing marker. */
  lemma HunkTail(s: string, g1: nat, e: nat, t: nat, replace: string)
    requires g1 <= e && e + 9 < |s| && s[e..e + 9] == "\n=======\n" && !IsSpace(s[e + 9])
    requires e + 9 <= t && t + 16 <= |s| && s[t..t + 16] == "\n>>>>>>> REPLACE"
    requires s[e + 9..t] == replace && !Includes(replace, "\n>>>>>>>")
    ensures SeparatorAt(s, e)
    ensures TryReplaceStarts(s, g1, e, e + 8, SkipSpaces(s, e + 8)) == Some(Hunk(0, g1, e, e + 9, t, t + 16))
  {
    SeparatorLine(s, e);
    CloseMarkerText(s, t);
    forall u | e + 9 <= u < t ensures !OccursAt(s, "\n>>>>>>>", u) {
      NoMarkerBefore(s, e + 9, t, u, replace, "\n>>>>>>>");
    }
    FirstCloseMarkerFinds(s, e + 9, t);
    TryReplaceStartsAt(s, g1, e, e + 8, e + 9, t, t + 9);
  }

  /** The newline just before `i` ends the separator line when a closing
      marker follows. */
  lemma TryReplaceStartsAt(s: string, g1: nat, j: nat, lo: nat, i: nat, t: nat, k: nat)
    requires g1 <= j <= lo < i <= |s| && s[i - 1] == '\n'
    requires FirstCloseMarker(s, i) == Some(t) && SkipSpaces(s, t + 8) == k
    ensures TryReplaceStarts(s, g1, j, lo, i) == Some(Hunk(0, g1, j, i, t, k + 7))
  {
  }

  /** The part after `SEARCH`: the search text runs from `g1` to the first
      separator, whose tail then matches. */
  lemma HunkMiddle(s: string, g1: nat, e: nat, h: Hunk)
    requires g1 <= e < |s| && SeparatorAt(s, e)
    requires forall u :: g1 <= u < e ==> !SeparatorAt(s, u)
    requires TryReplaceStarts(s, g1, e, e + 8, SkipSpaces(s, e + 8)) == Some(h)
    ensures TrySeparators(s, g1, g1) == Some(h)
  {
    TrySeparatorsSkips(s, g1, g1, e);
  }

  /** What the pattern's head `<{7}\s*SEARCH\s*` sees in `<<<<<<< SEARCH\n`
      followed by a non-space character. */
  lemma HunkHeadText(s: string, p: nat)
    requires p + 15 < |s| && s[p..p + 15] == "<<<<<<< SEARCH\n" && !IsSpace(s[p + 15])
    ensures OccursAt(s, "<<<<<<<", p) && SkipSpaces(s, p + 7) == p + 8
    ensures OccursAt(s, "SEARCH", p + 8) && SkipSpaces(s, p + 14) == p + 15 && s[p + 14] == '\n'
  {
    assert s[p..p + 7] == s[p..p + 15][..7] == "<<<<<<<";
    assert s[p + 7] == s[p..p + 15][7] == ' ';
    SliceOfSlice(s, p, p + 15, 8, 14);
    assert s[p + 8..p + 14] == s[p..p + 15][8..14] == "SEARCH";
    assert s[p + 8] == s[p + 8..p + 14][0] == 'S';
    SkipWhileRun(s, p + 7, p + 8, Spaces);
    assert s[p + 14] == s[p..p + 15][14] == '\n';
    SkipWhileRun(s, p + 14, p + 15, Spaces);
  }

  /** The head `<<<<<<< SEARCH\n` followed by a non-space character. */
  lemma HunkHead(s: string, p: nat, h: Hunk)
    requires p + 15 < |s| && s[p..p + 15] == "<<<<<<< SEARCH\n" && !IsSpace(s[p + 15])
    requires TrySeparators(s, p + 15, p + 15) == Some(h)
    ensures HunkAt(s, p) == Some(h.(start := p))
  {
    HunkHeadText(s, p);
    assert TrySearchStarts(s, p + 14, p + 15) == Some(h);
  }

  /** The five parts of a canonical hunk. */
  lemma HunkTextParts(s: string, p: nat, search: string, replace: string)
    requires p + |search| + |replace| + 40 <= |s|
    requires s[p..p + |search| + |replace| + 40] == HunkText(search, replace)
    ensures var e := p + 15 + |search|; var t := e + 9 + |replace|;
      s[p..p + 15] == "<<<<<<< SEARCH\n" && s[p + 15..e] == search && s[e..e + 9] == "\n=======\n"
      && s[e + 9..t] == replace && s[t..t + 16] == "\n>>>>>>> REPLACE"
  {
    var h := HunkText(search, replace);
    var L := |h|;
    var e := 15 + |search|;
    var t := e + 9 + |replace|;
    assert h[..15] == "<<<<<<< SEARCH\n";
    assert h[15..e] == search;
    assert h[e..e + 9] == "\n=======\n";
    assert h[e + 9..t] == replace;
    assert h[t..] == "\n>>>>>>> REPLACE";
    SliceOfSlice(s, p, p + L, 0, 15);
    SliceOfSlice(s, p, p + L, 15, e);
    SliceOfSlice(s, p, p + L, e, e + 9);
    SliceOfSlice(s, p, p + L, e + 9, t);
    SliceOfSlice(s, p, p + L, t, L);
  }

  /** A canonical hunk at `p` is matched there, capturing its search and
      replacement texts exactly, provided each starts with a non-space
      character, the search text holds no `\n=======` and the replacement
      no `\n>>>>>>>`. */
  lemma HunkAtRendered(s: string, p: nat, search: string, replace: string)
    requires search != [] && !IsSpace(search[0]) && !Includes(search, "\n=======")
    requires replace != [] && !IsSpace(replace[0]) && !Includes(replace, "\n>>>>>>>")
    requires p + |search| + |replace| + 40 <= |s|
    requires s[p..p + |search| + |replace| + 40] == HunkText(search, replace)
    ensures var e := p + 15 + |search|; var t := e + 9 + |replace|;
      var h := Hunk(p, p + 15, e, e + 9, t, t + 16);
      HunkAt(s, p) == Some(h) && SearchText(s, h) == search && ReplaceText(s, h) == replace
  {
    var g1 := p + 15;
    var e := g1 + |search|;
    var t := e + 9 + |replace|;
    HunkTextParts(s, p, search, replace);
    assert s[g1] == s[g1..e][0] == search[0];
    HunkBody(s, g1, e, t, search, replace);
    var h0 := Hunk(0, g1, e, e + 9, t, t + 16);
    HunkHead(s, p, h0);
    var h := Hunk(p, g1, e, e + 9, t, t + 16);
    assert h0.(start := p) == h;
  }

  /** What follows the head of a canonical hunk: the search text up to the
      separator line, the replacement text up to the closing line. */
  lemma HunkBody(s: string, g1: nat, e: nat, t: nat, search: string, replace: string)
    requires !Includes(search, "\n=======")
    requires replace != [] && !IsSpace(replace[0]) && !Includes(replace, "\n>>>>>>>")
    requires g1 <= e && e + 9 <= t && t + 16 <= |s|
    requires s[g1..e] == search && s[e..e + 9] == "\n=======\n"
    requires s[e + 9..t] == replace && s[t..t + 16] == "\n>>>>>>> REPLACE"
    ensures TrySeparators(s, g1, g1) == Some(Hunk(0, g1, e, e + 9, t, t + 16))
  {
    assert s[e + 9] == s[e + 9..t][0] == replace[0];
    assert s[e] == s[e..e + 9][0] == '\n';
    HunkTail(s, g1, e, t, replace);
    forall u | g1 <= u < e ensures !SeparatorAt(s, u) {
      NoMarkerBefore(s, g1, e, u, search, "\n=======");
    }
    HunkMiddle(s, g1, e, Hunk(0, g1, e, e + 9, t, t + 16));
  }

  // ---------------------------------------------------------------------
  // `File: name` sections (line 1893)
  // ---------------------------------------------------------------------

  /** A matched section: the file name, the index of the `F` of `File:`,
      of the first character of the code and one past the closing fence. */
  datatype Section = Section(name: string, start: nat, bodyStart: nat, end: nat)

  /** The code between the fences (the pattern's second group). */
  function SectionBody(s: string, m: Section): string {
    if m.bodyStart + 3 <= m.end <= |s| then s[m.bodyStart..m.end - 3] else []
  }

  function SectionAt(s: string, p: nat): (r: Option<Section>)
    ensures r.Some? ==> r.value.start == p && p + 5 < r.value.bodyStart && r.value.bodyStart + 3 <= r.value.end <= |s|
    ensures r.Some? ==> r.value.name != []
  {
    if !LiteralFrom(s, "File:", p, 0) then None
    else
      var a := SkipSpaces(s, p + 5);
      var n := SkipWhile(s, a, NameChars);
      if n == a || !(n < |s| && s[n] == '\n') || !LiteralFrom(s, "```", n + 1, 0) then None
      else SectionCode(s, p, s[a..n], n + 4)
  }

  /** The rest of a section once its opening fence ends at `f`: an optional
      `[\w]*` language label, a newline, and the code up to the first
      closing fence. */
  function SectionCode(s: string, p: nat, name: string, f: nat): (r: Option<Section>)
    requires f <= |s|
    ensures r.Some? ==> r.value.start == p && r.value.name == name && f < r.value.bodyStart
    ensures r.Some? ==> r.value.bodyStart + 3 <= r.value.end <= |s|
  {
    var w := SkipWhile(s, f, WordChars);
    if !(w < |s| && s[w] == '\n') then None
    else
      match IndexOf(s, "```", w + 1)
      case None => None
      case Some(c) => Some(Section(name, p, w + 1, c + 3))
  }

  /** The captured name is made of `[\w\.-]` characters only, and the code
      stops at the first fence after it. */
  lemma SectionAtShape(s: string, p: nat)
    requires SectionAt(s, p).Some?
    ensures var m := SectionAt(s, p).value;
      (forall i :: 0 <= i < |m.name| ==> IsNameChar(m.name[i]))
      && IndexOf(s, "```", m.bodyStart) == Some(m.end - 3) && !Includes(SectionBody(s, m), "```")
  {
    var m := SectionAt(s, p).value;
    var a := SkipSpaces(s, p + 5);
    var n := SkipWhile(s, a, NameChars);
    SkipWhileKeeps(s, a, NameChars);
    assert m.name == s[a..n];
    forall j | m.bodyStart <= j < m.end - 3 ensures !OccursAt(s, "```", j) {
      IndexOfFirst(s, "```", m.bodyStart, j);
    }
    NoEarlierOccurrence(s, "```", m.bodyStart, m.end - 3);
  }

  /** A canonical section at `p` (`File: name`, an unlabelled opening
      fence, the code, the closing fence) is recognised with its name and
      exact code, and the match ends after its closing fence. The code holds
      no backtick, so the lazy group cannot stop inside it. */
  lemma SectionAtRendered(s: string, p: nat, name: string, code: string)
    requires name != [] && forall i :: 0 <= i < |name| ==> IsNameChar(name[i])
    requires forall i :: 0 <= i < |code| ==> code[i] != '`'
    requires p + |name| + |code| + 14 <= |s|
    requires s[p..p + 5] == "File:" && s[p + 5] == ' ' && s[p + 6..p + 6 + |name|] == name
    requires s[p + 6 + |name|] == '\n' && s[p + 7 + |name|..p + 10 + |name|] == "```" && s[p + 10 + |name|] == '\n'
    requires s[p + 11 + |name|..p + 11 + |name| + |code|] == code
    requires s[p + 11 + |name| + |code|..p + 14 + |name| + |code|] == "```"
    ensures SectionAt(s, p) == Some(Section(name, p, p + |name| + 11, p + |name| + |code| + 14))
    ensures SectionBody(s, SectionAt(s, p).value) == code
  {
    SectionHeader(s, p, name);
    FenceAfter(s, p + 6 + |name| + 4 + 1, code);
    SectionAtSteps(s, p, name, code);
    SectionPositions(p, name, code);
    SectionBodyOf(s, p, name, code);
  }

  /** `SectionAt` from the results of the scanning steps, with every
      position written as the scan reaches it. */
  lemma SectionAtSteps(s: string, p: nat, name: string, code: string)
    requires name != [] && p + |name| + |code| + 14 <= |s|
    requires s[p + 6..p + 6 + |name|] == name && s[p + 6 + |name|] == '\n' && s[p + 6 + |name| + 4] == '\n'
    requires LiteralFrom(s, "File:", p, 0) && SkipSpaces(s, p + 5) == p + 6
    requires SkipWhile(s, p + 6, NameChars) == p + 6 + |name|
    requires LiteralFrom(s, "```", p + 6 + |name| + 1, 0)
    requires SkipWhile(s, p + 6 + |name| + 4, WordChars) == p + 6 + |name| + 4
    requires IndexOf(s, "```", p + 6 + |name| + 4 + 1) == Some(p + 6 + |name| + 4 + 1 + |code|)
    ensures SectionAt(s, p) == Some(Section(name, p, p + 6 + |name| + 4 + 1, p + 6 + |name| + 4 + 1 + |code| + 3))
  {
    var n := p + 6 + |name|;
    SectionCodeOf(s, p, name, n + 4, n + 4, n + 4 + 1 + |code|);
    assert SectionAt(s, p) == SectionCode(s, p, s[p + 6..n], n + 4);
  }

  /** `SectionCode` from the results of its steps. */
  lemma SectionCodeOf(s: string, p: nat, name: string, f: nat, w: nat, c: nat)
    requires f <= |s| && SkipWhile(s, f, WordChars) == w
    requires w < |s| && s[w] == '\n' && IndexOf(s, "```", w + 1) == Some(c)
    ensures SectionCode(s, p, name, f) == Some(Section(name, p, w + 1, c + 3))
  {
  }

  /** The two spellings of a canonical section's positions agree. */
  lemma SectionPositions(p: nat, name: string, code: string)
    ensures Section(name, p, p + 6 + |name| + 4 + 1, p + 6 + |name| + 4 + 1 + |code| + 3)
         == Section(name, p, p + |name| + 11, p + |name| + |code| + 14)
  {
  }

  /** The code of a canonical section lies between its fences. */
  lemma SectionBodyOf(s: string, p: nat, name: string, code: string)
    requires p + |name| + |code| + 14 <= |s|
    requires s[p + 11 + |name|..p + 11 + |name| + |code|] == code
    ensures SectionBody(s, Section(name, p, p + |name| + 11, p + |name| + |code| + 14)) == code
  {
  }

  /** `SectionAtRendered` for the scan: a canonical section at the scan
      position is the one found. */
  lemma NextSectionRendered(s: string, p: nat, name: string, code: string)
    requires name != [] && forall i :: 0 <= i < |name| ==> IsNameChar(name[i])
    requires forall i :: 0 <= i < |code| ==> code[i] != '`'
    requires p + |name| + |code| + 14 <= |s|
    requires s[p..p + 5] == "File:" && s[p + 5] == ' ' && s[p + 6..p + 6 + |name|] == name
    requires s[p + 6 + |name|] == '\n' && s[p + 7 + |name|..p + 10 + |name|] == "```" && s[p + 10 + |name|] == '\n'
    requires s[p + 11 + |name|..p + 11 + |name| + |code|] == code
    requires s[p + 11 + |name| + |code|..p + 14 + |name| + |code|] == "```"
    ensures NextSection(s, p) == Some(Section(name, p, p + |name| + 11, p + |name| + |code| + 14))
    ensures SectionBody(s, Section(name, p, p + |name| + 11, p + |name| + |code| + 14)) == code
  {
    SectionAtRendered(s, p, name, code);
    NextSectionHere(s, p, Section(name, p, p + |name| + 11, p + |name| + |code| + 14));
  }

  /** The `File:` line and the opening fence of a canonical section. */
  lemma SectionHeader(s: string, p: nat, name: string)
    requires name != [] && forall i :: 0 <= i < |name| ==> IsNameChar(name[i])
    requires p + |name| + 11 <= |s|
    requires s[p..p + 5] == "File:" && s[p + 5] == ' ' && s[p + 6..p + 6 + |name|] == name
    requires s[p + 6 + |name|] == '\n' && s[p + 7 + |name|..p + 10 + |name|] == "```" && s[p + 10 + |name|] == '\n'
    ensures LiteralFrom(s, "File:", p, 0) && SkipSpaces(s, p + 5) == p + 6
    ensures SkipWhile(s, p + 6, NameChars) == p + 6 + |name|
    ensures LiteralFrom(s, "```", p + 6 + |name| + 1, 0)
    ensures SkipWhile(s, p + 6 + |name| + 4, WordChars) == p + 6 + |name| + 4
  {
    var a, n := p + 6, p + 6 + |name|;
    assert s[a] == s[a..n][0];
    assert forall m :: a <= m < n ==> s[m] == s[a..n][m - a];
    SkipWhileRun(s, p + 5, a, Spaces);
    SkipWhileRun(s, a, n, NameChars);
    SkipWhileRun(s, n + 4, n + 4, WordChars);
    LiteralOccurs(s, "File:", p);
    LiteralOccurs(s, "```", n + 1);
  }

  /** Code without a backtick followed by a fence: the first fence from the
      start of the code is the one right after it. */
  lemma FenceAfter(s: string, bs: nat, code: string)
    requires forall i :: 0 <= i < |code| ==> code[i] != '`'
    requires bs + |code| + 3 <= |s|
    requires s[bs..bs + |code|] == code && s[bs + |code|..bs + |code| + 3] == "```"
    ensures IndexOf(s, "```", bs) == Some(bs + |code|)
  {
    var c := bs + |code|;
    assert forall m :: bs <= m < c ==> s[m] == s[bs..c][m - bs];
    forall j | bs <= j < c ensures !OccursAt(s, "```", j) {
      if OccursAt(s, "```", j) {
        OccursAtChar(s, "```", j, j);
      }
    }
    IndexOfFinds(s, "```", bs, c);
  }

  function NextSection(s: string, from: nat): (r: Option<Section>)
    ensures r.Some? ==> from <= r.value.start && SectionAt(s, r.value.start) == r
    decreases |s| - from
  {
    if from >= |s| then None
    else if SectionAt(s, from).Some? then SectionAt(s, from)
    else NextSection(s, from + 1)
  }

  /** A section at the scan position is the one found. */
  lemma NextSectionHere(s: string, from: nat, m: Section)
    requires SectionAt(s, from) == Some(m)
    ensures NextSection(s, from) == Some(m)
  {
  }

  /** `NextSection` finds the leftmost section. */
  lemma {:induction false} NextSectionLeftmost(s: string, from: nat, p: nat)
    requires from <= p
    requires NextSection(s, from).None? || p < NextSection(s, from).value.start
    ensures SectionAt(s, p).None?
    decreases |s| - from
  {
    if p >= |s| {
      assert !OccursAt(s, "File:", p);
    } else if from < p {
      NextSectionLeftmost(s, from + 1, p);
    }
  }
}
