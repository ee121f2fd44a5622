/** The text extraction of the `/api/chat` read loop (server/server.js):
    the `"text"` fields found in the upstream buffer, their unescaping, and
    the bound on the retained buffer. The regular expression
    `"text":\s*"((?:[^"\\]|\\.)*)"` is written out as a scanner; its two
    alternatives never start with the same character and `\s*` is followed
    by a quote, so a match never needs to backtrack. */
module Upstream {
  import opened Wrappers
  import opened JsText

  /** The literal start of a match: a quote, `text`, a quote, a colon. */
  const TextKey: string := "\"text\":"

  /** The buffer size past which the read loop trims it, and what it keeps. */
  const MaxBuffer: nat := 20000
  const KeptTail: nat := 5000

  /** The characters the regex `.` does not match. */
  predicate IsLineTerminator(c: char) {
    c == '\n' || c == '\r' || c == '\U{2028}' || c == '\U{2029}'
  }

  /** The greedy run `(?:[^"\\]|\\.)*` from `i`: the index of the quote
      that closes it, or `None` when the run meets the end of the buffer or
      a backslash before a line terminator. */
  function BodyEnd(s: string, i: nat): (r: Option<nat>)
    requires i <= |s|
    ensures r.Some? ==> i <= r.value < |s| && s[r.value] == '"'
    decreases |s| - i
  {
    if i == |s| then None
    else if s[i] == '"' then Some(i)
    else if s[i] == '\\' then
      if i + 1 < |s| && !IsLineTerminator(s[i + 1]) then BodyEnd(s, i + 2) else None
    else BodyEnd(s, i + 1)
  }

  /** A match of the regex starting at `p`: the bounds of its capture group. */
  function MatchAt(s: string, p: nat): (r: Option<(nat, nat)>)
    ensures r.Some? ==> p + |TextKey| < r.value.0 <= r.value.1 < |s|
    ensures r.Some? ==> s[r.value.0 - 1] == '"' && s[r.value.1] == '"'
  {
    if LiteralFrom(s, TextKey, p, 0) then
      var q := SkipSpaces(s, p + |TextKey|);
      if q < |s| && s[q] == '"' then
        match BodyEnd(s, q + 1)
        case Some(e) => Some((q + 1, e))
        case None => None
      else None
    else None
  }

  /** Every match starts with the literal `"text":`. */
  lemma MatchStartsWithKey(s: string, p: nat)
    requires MatchAt(s, p).Some?
    ensures OccursAt(s, TextKey, p)
  {
    LiteralOccurs(s, TextKey, p);
  }

  /** `textMatch.exec(buffer)` with `lastIndex` at `from`: the leftmost match
      at or after `from`. */
  function NextMatch(s: string, from: nat): (r: Option<(nat, nat)>)
    ensures r.Some? ==> from + |TextKey| < r.value.0 <= r.value.1 < |s|
    decreases |s| - from
  {
    if from >= |s| then None
    else
      match MatchAt(s, from)
      case Some(m) => Some(m)
      case None => NextMatch(s, from + 1)
  }

  /** The first match `NextMatch` finds starts at the first position with a
      match. */
  lemma {:induction false} NextMatchLeftmost(s: string, from: nat, p: nat)
    requires from <= p && MatchAt(s, p).Some?
    requires forall k :: from <= k < p ==> MatchAt(s, k).None?
    ensures NextMatch(s, from) == MatchAt(s, p)
    decreases p - from
  {
    if from < p {
      NextMatchLeftmost(s, from + 1, p);
    }
  }

  /** The replacements of the unescape chain, in the order they are made:
      `\` `n` becomes a newline, then `\` `"` a quote, then `\` `\` one
      backslash. */
  const UnescapeRules: seq<(string, string)> := [("\\n", "\n"), ("\\\"", "\""), ("\\\\", "\\")]

  /** Each replacement of `rules` over the whole text, left to right, one
      after the other. */
  function ReplaceChain(c: string, rules: seq<(string, string)>): string
    requires forall k :: 0 <= k < |rules| ==> |rules[k].0| > 0
    decreases |rules|
  {
    if rules == [] then c
    else ReplaceChain(ReplaceAll(c, rules[0].0, rules[0].1), rules[1..])
  }

  /** The unescape chain of a captured field. */
  function Unescape(c: string): string {
    ReplaceChain(c, UnescapeRules)
  }

  /** The broadcast of one capture: none when it unescapes to nothing. */
  function Kept(u: string): (r: seq<string>)
    ensures r == [] <==> u == []
  {
    if |u| == 0 then [] else [u]
  }

  /** The raw capture groups of the successive matches of the `exec` loop
      with `lastIndex` at `from`, until `exec` returns null. */
  function Fields(s: string, from: nat): seq<string>
    requires from <= |s|
    decreases |s| - from
  {
    match NextMatch(s, from)
    case None => []
    case Some(m) => [s[m.0..m.1]] + Fields(s, m.1 + 1)
  }

  /** The captures unescaped, the empty ones skipped. */
  function Decode(raw: seq<string>): seq<string>
    decreases |raw|
  {
    if raw == [] then [] else Kept(Unescape(raw[0])) + Decode(raw[1..])
  }

  /** What the `exec` loop broadcasts with `lastIndex` at `from`. */
  function ScanFrom(s: string, from: nat): seq<string>
    requires from <= |s|
  {
    Decode(Fields(s, from))
  }

  lemma DecodeCons(c: string, rest: seq<string>)
    ensures Decode([c] + rest) == Kept(Unescape(c)) + Decode(rest)
  {
    assert ([c] + rest)[0] == c;
    assert ([c] + rest)[1..] == rest;
  }

  /** The capture of the match at `from` comes first among the captures
      from `from`. */
  lemma FieldsCons(s: string, from: nat, m: (nat, nat))
    requires from <= |s| && NextMatch(s, from) == Some(m)
    ensures m.1 < |s| && Fields(s, from) == [s[m.0..m.1]] + Fields(s, m.1 + 1)
  {
  }

  /** One turn of the `exec` loop: what the match at `from` broadcasts
      comes first among the broadcasts from `from`. */
  lemma ScanCons(s: string, from: nat, m: (nat, nat))
    requires from <= |s| && NextMatch(s, from) == Some(m)
    ensures ScanFrom(s, from) == Kept(Unescape(s[m.0..m.1])) + ScanFrom(s, m.1 + 1)
  {
    FieldsCons(s, from, m);
    DecodeCons(s[m.0..m.1], Fields(s, m.1 + 1));
  }

  /** What one read broadcasts: the scan restarts at offset 0 of the whole
      buffer, because the regex is created anew for each read. */
  function ReadEvents(buffer: string): seq<string> {
    ScanFrom(buffer, 0)
  }

  /** No broadcast of a read is empty. */
  lemma {:induction false} DecodeNonEmpty(raw: seq<string>)
    ensures forall k :: 0 <= k < |Decode(raw)| ==> Decode(raw)[k] != []
    decreases |raw|
  {
    if raw != [] {
      DecodeNonEmpty(raw[1..]);
    }
  }

  /** The buffer kept after a read: its last 5000 characters once it is
      over 20000. */
  function Retain(buffer: string): (r: string)
    ensures |r| <= MaxBuffer
    ensures EndsWith(buffer, r)
    ensures |buffer| > MaxBuffer ==> |r| == KeptTail
    ensures |buffer| <= MaxBuffer ==> r == buffer
  {
    if |buffer| > MaxBuffer then buffer[|buffer| - KeptTail..] else buffer
  }

  /** The broadcasts of the reads `chunks` from the retained buffer `buffer`. */
  function StreamEvents(buffer: string, chunks: seq<string>): seq<string>
    decreases |chunks|
  {
    if chunks == [] then []
    else
      var b := buffer + chunks[0];
      ReadEvents(b) + StreamEvents(Retain(b), chunks[1..])
  }

  /** No broadcast of the whole read loop is empty. */
  lemma {:induction false} StreamEventsNonEmpty(buffer: string, chunks: seq<string>)
    ensures forall k :: 0 <= k < |StreamEvents(buffer, chunks)| ==> StreamEvents(buffer, chunks)[k] != []
    decreases |chunks|
  {
    if chunks != [] {
      var b := buffer + chunks[0];
      DecodeNonEmpty(Fields(b, 0));
      StreamEventsNonEmpty(Retain(b), chunks[1..]);
    }
  }

  // ---------------------------------------------------------------------
  // Properties of the extraction
  // ---------------------------------------------------------------------

  /** The chain written out. */
  lemma UnescapeSteps(c: string)
    ensures Unescape(c) ==
      ReplaceAll(ReplaceAll(ReplaceAll(c, "\\n", "\n"), "\\\"", "\""), "\\\\", "\\")
  {
    var r := UnescapeRules;
    assert r[0] == ("\\n", "\n") && r[1..][0] == ("\\\"", "\"") && r[1..][1..][0] == ("\\\\", "\\");
    assert r[1..][1..][1..] == [];
    var c1 := ReplaceAll(c, "\\n", "\n");
    var c2 := ReplaceAll(c1, "\\\"", "\"");
    var c3 := ReplaceAll(c2, "\\\\", "\\");
    assert ReplaceChain(c, r) == ReplaceChain(c1, r[1..]);
    assert ReplaceChain(c1, r[1..]) == ReplaceChain(c2, r[1..][1..]);
    assert ReplaceChain(c2, r[1..][1..]) == ReplaceChain(c3, r[1..][1..][1..]);
  }

  /** Text without a backslash comes through the unescape chain unchanged. */
  lemma UnescapePlain(c: string)
    requires forall k :: 0 <= k < |c| ==> c[k] != '\\'
    ensures Unescape(c) == c
  {
    UnescapeSteps(c);
    NoBackslashNoMatch(c, "\\n");
    NoBackslashNoMatch(c, "\\\"");
    NoBackslashNoMatch(c, "\\\\");
    ReplaceAllAbsent(c, "\\n", "\n");
    ReplaceAllAbsent(c, "\\\"", "\"");
    ReplaceAllAbsent(c, "\\\\", "\\");
  }

  lemma NoBackslashNoMatch(c: string, pat: string)
    requires forall k :: 0 <= k < |c| ==> c[k] != '\\'
    requires |pat| > 0 && pat[0] == '\\'
    ensures forall i :: !OccursAt(c, pat, i)
  {
    forall i: nat
      ensures !OccursAt(c, pat, i)
    {
      if i + |pat| <= |c| {
        assert c[i..i + |pat|][0] == c[i] != pat[0];
      }
    }
  }

  /** A two-character text that is not the two-character pattern is left
      as it is. */
  lemma ReplaceMiss2(s: string, pat: string, rep: string)
    requires |s| == 2 && |pat| == 2 && s != pat
    ensures ReplaceAll(s, pat, rep) == s
  {
    assert s[..2] == s;
    assert s[1..] == [s[1]];
  }

  /** The pattern alone becomes the replacement. */
  lemma ReplaceWhole(pat: string, rep: string)
    requires |pat| > 0
    ensures ReplaceAll(pat, pat, rep) == rep
  {
    assert pat[..|pat|] == pat;
    assert pat[|pat|..] == [];
    assert rep + [] == rep;
  }

  /** A text that does not start with the pattern keeps its first
      character. */
  lemma ReplaceSkip(s: string, pat: string, rep: string)
    requires 0 < |pat| <= |s| && s[..|pat|] != pat
    ensures ReplaceAll(s, pat, rep) == [s[0]] + ReplaceAll(s[1..], pat, rep)
  {
  }

  /** A one-character text is too short for a two-character pattern. */
  lemma ReplaceShort(c: string, pat: string, rep: string)
    requires |c| == 1 && |pat| == 2
    ensures ReplaceAll(c, pat, rep) == c
  {
  }

  /** Each of the three escapes on its own decodes to its character. */
  lemma UnescapeEscapes()
    ensures Unescape("\\n") == "\n"
    ensures Unescape("\\\"") == "\""
    ensures Unescape("\\\\") == "\\"
  {
    UnescapeSteps("\\n");
    UnescapeSteps("\\\"");
    UnescapeSteps("\\\\");
    ReplaceWhole("\\n", "\n");
    ReplaceShort("\n", "\\\"", "\"");
    ReplaceShort("\n", "\\\\", "\\");
    ReplaceMiss2("\\\"", "\\n", "\n");
    ReplaceWhole("\\\"", "\"");
    ReplaceShort("\"", "\\\\", "\\");
    ReplaceMiss2("\\\\", "\\n", "\n");
    ReplaceMiss2("\\\\", "\\\"", "\"");
    ReplaceWhole("\\\\", "\\");
  }

  /** The order of the chain shows on an escaped backslash before `n`: the
      three characters `\` `\` `n` become a backslash and a newline, not a
      backslash and `n`. */
  lemma UnescapeOrder()
    ensures Unescape("\\\\n") == "\\\n"
  {
    UnescapeSteps("\\\\n");
    var s := "\\\\n";
    assert s[..2][1] == '\\' != "\\n"[1];
    ReplaceSkip(s, "\\n", "\n");
    assert s[1..] == "\\n";
    ReplaceWhole("\\n", "\n");
    assert [s[0]] + "\n" == "\\\n";
    ReplaceMiss2("\\\n", "\\\"", "\"");
    ReplaceMiss2("\\\n", "\\\\", "\\");
  }

  /** A read that adds no quote and no backslash. */
  predicate Quiet(x: string) {
    forall k :: 0 <= k < |x| ==> x[k] != '"' && x[k] != '\\'
  }

  lemma {:induction false} BodyEndQuietTail(s: string, j: nat)
    requires j <= |s|
    requires forall k :: j <= k < |s| ==> s[k] != '"' && s[k] != '\\'
    ensures BodyEnd(s, j).None?
    decreases |s| - j
  {
    if j < |s| {
      BodyEndQuietTail(s, j + 1);
    }
  }

  lemma {:induction false} BodyEndExtend(b: string, x: string, i: nat)
    requires i <= |b| && Quiet(x)
    ensures BodyEnd(b + x, i) == BodyEnd(b, i)
    decreases |b| - i
  {
    var s := b + x;
    if i == |b| {
      BodyEndQuietTail(s, i);
    } else if s[i] == '"' {
    } else if s[i] == '\\' {
      if i + 1 < |b| {
        if !IsLineTerminator(s[i + 1]) {
          BodyEndExtend(b, x, i + 2);
        }
      } else if i + 1 < |s| && !IsLineTerminator(s[i + 1]) {
        BodyEndQuietTail(s, i + 2);
      }
    } else {
      BodyEndExtend(b, x, i + 1);
    }
  }

  lemma SkipSpacesExtend(b: string, x: string, i: nat)
    requires i <= |b|
    ensures SkipSpaces(b, i) < |b| ==> SkipSpaces(b + x, i) == SkipSpaces(b, i)
    ensures SkipSpaces(b, i) == |b| ==> |b| <= SkipSpaces(b + x, i)
  {
    var j := SkipSpaces(b, i);
    SkipWhileKeeps(b, i, Spaces);
    assert forall m :: i <= m < j ==> (b + x)[m] == b[m];
    if j < |b| {
      SkipWhileRun(b + x, i, j, Spaces);
    } else {
      SkipWhilePast(b + x, i, j, Spaces);
    }
  }

  lemma MatchAtExtend(b: string, x: string, p: nat)
    requires Quiet(x)
    ensures MatchAt(b + x, p) == MatchAt(b, p)
  {
    var s := b + x;
    var n := |TextKey|;
    if p + n <= |b| {
      assert s[p..p + n] == b[p..p + n];
      LiteralOccurs(s, TextKey, p);
      LiteralOccurs(b, TextKey, p);
      if OccursAt(b, TextKey, p) {
        SkipSpacesExtend(b, x, p + n);
        var q := SkipSpaces(b, p + n);
        if q < |b| && b[q] == '"' {
          BodyEndExtend(b, x, q + 1);
        }
      }
    } else if p + n <= |s| {
      assert forall k :: |b| <= k < |s| ==> s[k] == x[k - |b|];
      SkipSpacesAtEnd(s, |b|, p + n);
    }
  }

  /** Past `j` no quote follows any run of spaces. */
  lemma SkipSpacesAtEnd(s: string, j: nat, i: nat)
    requires j <= i <= |s|
    requires forall k :: j <= k < |s| ==> s[k] != '"'
    ensures SkipSpaces(s, i) == |s| || s[SkipSpaces(s, i)] != '"'
  {
  }

  lemma {:induction false} NextMatchExtend(b: string, x: string, from: nat)
    requires Quiet(x)
    ensures NextMatch(b + x, from) == NextMatch(b, from)
    decreases |b + x| - from
  {
    if from < |b + x| {
      MatchAtExtend(b, x, from);
      NextMatchExtend(b, x, from + 1);
    }
  }

  lemma {:induction false} FieldsExtend(b: string, x: string, from: nat)
    requires from <= |b| && Quiet(x)
    ensures Fields(b + x, from) == Fields(b, from)
    decreases |b| - from
  {
    NextMatchExtend(b, x, from);
    var r := NextMatch(b, from);
    if r.Some? {
      var m := r.value;
      PrefixSlice(b, x, m.0, m.1);
      FieldsCons(b + x, from, m);
      FieldsCons(b, from, m);
      FieldsExtend(b, x, m.1 + 1);
    }
  }

  /** Because every read scans the whole buffer again, a read that adds no
      quote and no backslash broadcasts once more every field the buffer
      already held. */
  lemma QuietReadRepeats(b: string, x: string)
    requires Quiet(x)
    ensures ReadEvents(b + x) == ReadEvents(b)
  {
    FieldsExtend(b, x, 0);
  }

  /** No match starts on a character other than a quote. */
  lemma NoMatchAt(s: string, k: nat)
    requires k < |s| ==> s[k] != '"'
    ensures MatchAt(s, k).None?
  {
    assert TextKey[0] == '"';
  }

  /** The matches of a buffer holding one complete, plain field between
      `p` and `e`, with no other quote: the first captures the field, and
      none follows it. */
  lemma OneMatch(s: string, p: nat, e: nat)
    requires p + |TextKey| < e < |s| && OccursAt(s, TextKey, p)
    requires s[p + |TextKey|] == '"' && s[e] == '"'
    requires forall k :: p + |TextKey| < k < e ==> s[k] != '"' && s[k] != '\\'
    requires forall k :: 0 <= k < p ==> s[k] != '"'
    requires forall k :: e < k < |s| ==> s[k] != '"'
    ensures NextMatch(s, 0) == Some((p + |TextKey| + 1, e)) && NextMatch(s, e + 1).None?
  {
    MatchAtField(s, p, e);
    NoMatchBefore(s, p);
    NextMatchLeftmost(s, 0, p);
    NoMatchAfter(s, e);
  }

  /** The match at the start of a complete, plain field. */
  lemma MatchAtField(s: string, p: nat, e: nat)
    requires p + |TextKey| < e < |s| && OccursAt(s, TextKey, p)
    requires s[p + |TextKey|] == '"' && s[e] == '"'
    requires forall k :: p + |TextKey| < k < e ==> s[k] != '"' && s[k] != '\\'
    ensures MatchAt(s, p) == Some((p + |TextKey| + 1, e))
  {
    var q := p + |TextKey|;
    LiteralOccurs(s, TextKey, p);
    assert SkipSpaces(s, q) == q;
    BodyEndRun(s, q + 1, e);
  }

  /** No match starts before the first quote. */
  lemma NoMatchBefore(s: string, p: nat)
    requires p <= |s|
    requires forall k :: 0 <= k < p ==> s[k] != '"'
    ensures forall k :: 0 <= k < p ==> MatchAt(s, k).None?
  {
    forall k | 0 <= k < p
      ensures MatchAt(s, k).None?
    {
      NoMatchAt(s, k);
    }
  }

  /** No match is found after the last quote. */
  lemma NoMatchAfter(s: string, e: nat)
    requires forall k :: e < k < |s| ==> s[k] != '"'
    ensures NextMatch(s, e + 1).None?
  {
    forall k | e + 1 <= k
      ensures MatchAt(s, k).None?
    {
      NoMatchAt(s, k);
    }
    NextMatchNone(s, e + 1);
  }

  /** A buffer whose only quotes are those of one complete, plain,
      non-empty field broadcasts that field's text and nothing else. */
  lemma OneField(s: string, p: nat, e: nat)
    requires p + |TextKey| + 1 < e < |s| && OccursAt(s, TextKey, p)
    requires s[p + |TextKey|] == '"' && s[e] == '"'
    requires forall k :: p + |TextKey| < k < e ==> s[k] != '"' && s[k] != '\\'
    requires forall k :: 0 <= k < p ==> s[k] != '"'
    requires forall k :: e < k < |s| ==> s[k] != '"'
    ensures ReadEvents(s) == [s[p + |TextKey| + 1..e]]
  {
    OneMatch(s, p, e);
    var body := s[p + |TextKey| + 1..e];
    forall k | 0 <= k < |body|
      ensures body[k] != '\\'
    {
      assert body[k] == s[p + |TextKey| + 1 + k];
    }
    UnescapePlain(body);
    assert Fields(s, e + 1) == [];
    assert Fields(s, 0) == [body] + [];
    DecodeCons(body, []);
  }

  lemma {:induction false} BodyEndRun(s: string, i: nat, e: nat)
    requires i <= e < |s| && s[e] == '"'
    requires forall k :: i <= k < e ==> s[k] != '"' && s[k] != '\\'
    ensures BodyEnd(s, i) == Some(e)
    decreases e - i
  {
    if i < e {
      BodyEndRun(s, i + 1, e);
    }
  }

  lemma {:induction false} NextMatchNone(s: string, from: nat)
    requires forall k :: from <= k ==> MatchAt(s, k).None?
    ensures NextMatch(s, from).None?
    decreases |s| - from
  {
    if from < |s| {
      NextMatchNone(s, from + 1);
    }
  }
}

/** The event relay of server/server.js: the registry of event-stream
    subscribers, `broadcast`, and the `/api/chat` handler, with the
    upstream response given as data and `JSON.stringify` of an assistant
    message as the function `encode`. */
module Relay {
  import opened Wrappers
  import opened JsText
  import opened Upstream
  import Streaming

  /** An entry of `clients`: the connection time used as id and the
      response stream, named by a number. */
  datatype Subscriber = Subscriber(id: int, res: nat)

  /** The `status` of the JSON answer to `/api/chat`. */
  datatype Status = NoKey | Error | Ok

  /** What the upstream request did: answered with a non-ok status and
      this body; streamed these decoded chunks to the end; or threw after
      these chunks (a throw of `fetch` itself is `Broken([])`). */
  datatype Response = Refused(body: string) | Streamed(chunks: seq<string>) | Broken(chunks: seq<string>)

  const NoKeyText: string := "No GEMINI_API_KEY set on server."
  const StartText: string := " "
  const CompleteText: string := "\n[STREAM COMPLETE]"
  const ServerErrorText: string := "Server Error."

  function ApiErrorText(body: string): string {
    "API Error: " + body
  }

  /** An event-stream frame around a JSON text. */
  function Frame(json: string): string {
    "data: " + json + "\n\n"
  }

  /** A frame is the JSON text between the `data: ` prefix and the blank
      line that ends the event. */
  lemma FrameParts(json: string)
    ensures |Frame(json)| == |json| + 8
    ensures StartsWith(Frame(json), "data: ") && EndsWith(Frame(json), "\n\n")
    ensures Frame(json)[6..|Frame(json)| - 2] == json
  {
    var r := Frame(json);
    assert r[..6] == "data: ";
    assert r[|r| - 2..] == "\n\n";
  }

  /** The writes of one broadcast of `msg`: one per subscriber, in list
      order, except those whose stream throws. */
  function Fanout(subs: seq<Subscriber>, broken: set<nat>, msg: string): seq<(nat, string)> {
    if subs == [] then []
    else
      var c := subs[|subs| - 1];
      Fanout(subs[..|subs| - 1], broken, msg) + (if c.res in broken then [] else [(c.res, msg)])
  }

  /** The writes of broadcasting `texts` one after the other. */
  function Deliveries(subs: seq<Subscriber>, broken: set<nat>, encode: string -> string,
                      texts: seq<string>): seq<(nat, string)>
  {
    if texts == [] then []
    else
      Deliveries(subs, broken, encode, texts[..|texts| - 1]) +
      Fanout(subs, broken, Frame(encode(texts[|texts| - 1])))
  }

  /** `clients.filter(c => c.id !== id)`. */
  function Without(subs: seq<Subscriber>, id: int): seq<Subscriber> {
    if subs == [] then []
    else (if subs[0].id == id then [] else [subs[0]]) + Without(subs[1..], id)
  }

  /** The broadcast texts and the status of `/api/chat`. */
  function ChatEvents(hasKey: bool, resp: Response): (seq<string>, Status) {
    if !hasKey then ([NoKeyText], NoKey)
    else ([StartText] + Outcome(resp).0, Outcome(resp).1)
  }

  /** What follows the opening broadcast once the key is set: the texts and
      the status for each way the upstream request ends. */
  function Outcome(resp: Response): (seq<string>, Status) {
    match resp
    case Refused(body) => ([ApiErrorText(body)], Error)
    case Streamed(chunks) => (StreamEvents([], chunks) + [CompleteText], Ok)
    case Broken(chunks) => (StreamEvents([], chunks) + [ServerErrorText], Error)
  }

  // ---------------------------------------------------------------------
  // Properties of the relay functions
  // ---------------------------------------------------------------------

  /** Broadcasting to two lists in turn is broadcasting to their
      concatenation: the writes follow the list order. */
  lemma {:induction false} FanoutAppend(a: seq<Subscriber>, b: seq<Subscriber>, broken: set<nat>, msg: string)
    ensures Fanout(a + b, broken, msg) == Fanout(a, broken, msg) + Fanout(b, broken, msg)
    decreases |b|
  {
    if b != [] {
      var b' := b[..|b| - 1];
      assert (a + b)[..|a + b| - 1] == a + b';
      FanoutAppend(a, b', broken, msg);
    } else {
      assert a + b == a;
    }
  }

  /** Every write of a broadcast carries the frame, and each subscriber
      whose stream works receives it; one whose stream throws does not. */
  lemma {:induction false} FanoutReaches(subs: seq<Subscriber>, broken: set<nat>, msg: string)
    ensures forall w :: w in Fanout(subs, broken, msg) ==> w.1 == msg && w.0 !in broken
    ensures forall c :: c in subs && c.res !in broken ==> (c.res, msg) in Fanout(subs, broken, msg)
    ensures |Fanout(subs, broken, msg)| <= |subs|
    decreases |subs|
  {
    if subs != [] {
      var init := subs[..|subs| - 1];
      FanoutReaches(init, broken, msg);
      assert subs == init + [subs[|subs| - 1]];
    }
  }

  lemma DeliveriesOne(subs: seq<Subscriber>, broken: set<nat>, encode: string -> string, t: string)
    ensures Deliveries(subs, broken, encode, [t]) == Fanout(subs, broken, Frame(encode(t)))
  {
    assert [t][..0] == [];
  }

  lemma DeliveriesSnoc(subs: seq<Subscriber>, broken: set<nat>, encode: string -> string,
                       texts: seq<string>, t: string)
    ensures Deliveries(subs, broken, encode, texts + [t]) ==
      Deliveries(subs, broken, encode, texts) + Fanout(subs, broken, Frame(encode(t)))
  {
    assert (texts + [t])[..|texts|] == texts;
  }

  lemma {:induction false} DeliveriesAppend(subs: seq<Subscriber>, broken: set<nat>, encode: string -> string,
                                            a: seq<string>, b: seq<string>)
    ensures Deliveries(subs, broken, encode, a + b) ==
      Deliveries(subs, broken, encode, a) + Deliveries(subs, broken, encode, b)
    decreases |b|
  {
    if b != [] {
      var b' := b[..|b| - 1];
      var t := b[|b| - 1];
      assert a + b == (a + b') + [t];
      assert b == b' + [t];
      DeliveriesSnoc(subs, broken, encode, a + b', t);
      DeliveriesSnoc(subs, broken, encode, b', t);
      DeliveriesAppend(subs, broken, encode, a, b');
    } else {
      assert a + b == a;
    }
  }

  /** What is left to send from `from` is what the match at `from` sends,
      then what is left after it. */
  lemma DeliveriesStep(subs: seq<Subscriber>, broken: set<nat>, encode: string -> string,
                       s: string, from: nat, m: (nat, nat), content: string, rest: seq<(nat, string)>)
    requires from <= |s| && NextMatch(s, from) == Some(m)
    requires content == Unescape(s[m.0..m.1])
    requires rest == Deliveries(subs, broken, encode, ScanFrom(s, m.1 + 1))
    ensures m.1 < |s|
    ensures content == [] ==> Deliveries(subs, broken, encode, ScanFrom(s, from)) == rest
    ensures content != [] ==>
      Deliveries(subs, broken, encode, ScanFrom(s, from)) == Fanout(subs, broken, Frame(encode(content))) + rest
  {
    ScanCons(s, from, m);
    DeliveriesAppend(subs, broken, encode, Kept(content), ScanFrom(s, m.1 + 1));
    if content == [] {
      assert Deliveries(subs, broken, encode, Kept(content)) == [];
      assert [] + rest == rest;
    } else {
      DeliveriesOne(subs, broken, encode, content);
    }
  }

  /** One turn of the read loop: what is left to send before read `k` is
      what that read sends, then what is left after it. */
  lemma ReadStep(subs: seq<Subscriber>, broken: set<nat>, encode: string -> string,
                 b: string, chunks: seq<string>, k: nat, rest: seq<(nat, string)>)
    requires k < |chunks|
    requires rest == Deliveries(subs, broken, encode, StreamEvents(Retain(b + chunks[k]), chunks[k + 1..]))
    ensures Deliveries(subs, broken, encode, StreamEvents(b, chunks[k..]))
      == Deliveries(subs, broken, encode, ReadEvents(b + chunks[k])) + rest
  {
    assert chunks[k..][0] == chunks[k];
    assert chunks[k..][1..] == chunks[k + 1..];
    DeliveriesAppend(subs, broken, encode, ReadEvents(b + chunks[k]), StreamEvents(Retain(b + chunks[k]), chunks[k + 1..]));
  }

  /** Closing keeps exactly the entries with another id. */
  lemma {:induction false} WithoutMembers(subs: seq<Subscriber>, id: int)
    ensures forall c :: c in Without(subs, id) <==> c in subs && c.id != id
    decreases |subs|
  {
    if subs != [] {
      WithoutMembers(subs[1..], id);
      assert subs == [subs[0]] + subs[1..];
    }
  }

  /** Closing keeps the order: it filters each part of a list on its own. */
  lemma {:induction false} WithoutAppend(a: seq<Subscriber>, b: seq<Subscriber>, id: int)
    ensures Without(a + b, id) == Without(a, id) + Without(b, id)
    decreases |a|
  {
    if a != [] {
      assert (a + b)[1..] == a[1..] + b;
      WithoutAppend(a[1..], b, id);
    } else {
      assert a + b == b;
    }
  }

  /** A list without the id is left as it is. */
  lemma {:induction false} WithoutAbsent(subs: seq<Subscriber>, id: int)
    requires forall k :: 0 <= k < |subs| ==> subs[k].id != id
    ensures Without(subs, id) == subs
    decreases |subs|
  {
    if subs != [] {
      WithoutAbsent(subs[1..], id);
    }
  }

  /** Closing a connection undoes its connect when no other subscriber
      had the same id. */
  lemma CloseAfterConnect(subs: seq<Subscriber>, c: Subscriber)
    requires forall k :: 0 <= k < |subs| ==> subs[k].id != c.id
    ensures Without(subs + [c], c.id) == subs
  {
    WithoutAppend(subs, [c], c.id);
    WithoutAbsent(subs, c.id);
    assert [c][1..] == [];
  }

  /** The outcomes of `/api/chat`: the status, the first text and the last
      text of each, and the sentinel the client waits for only on success. */
  lemma ChatOutcomes(hasKey: bool, resp: Response)
    ensures var (ev, st) := ChatEvents(hasKey, resp);
      |ev| >= 1 && (st == Ok <==> hasKey && resp.Streamed?) && (st == NoKey <==> !hasKey)
    ensures var (ev, st) := ChatEvents(hasKey, resp);
      hasKey ==> |ev| >= 2 && ev[0] == StartText
    ensures var (ev, st) := ChatEvents(hasKey, resp);
      ev[|ev| - 1] == (if !hasKey then NoKeyText
                       else if resp.Refused? then ApiErrorText(resp.body)
                       else if resp.Streamed? then CompleteText
                       else ServerErrorText)
    ensures var (ev, st) := ChatEvents(hasKey, resp);
      !hasKey ==> ev == [NoKeyText]
    ensures var (ev, st) := ChatEvents(hasKey, resp);
      hasKey && resp.Refused? ==> ev == [StartText, ApiErrorText(resp.body)]
    ensures var (ev, st) := ChatEvents(hasKey, resp);
      hasKey && !resp.Refused? ==>
        ev[1..|ev| - 1] == StreamEvents([], resp.chunks) &&
        forall k :: 1 <= k < |ev| - 1 ==> ev[k] != []
    ensures Includes(CompleteText, Streaming.EndMarker)
  {
    if hasKey && !resp.Refused? {
      StreamedMiddle(resp);
    }
    CompleteHasSentinel();
  }

  /** Between the opening text and the closing one come exactly the read
      loop's broadcasts, none of them empty. */
  lemma StreamedMiddle(resp: Response)
    requires !resp.Refused?
    ensures var ev := ChatEvents(true, resp).0;
      |ev| >= 2 && ev[1..|ev| - 1] == StreamEvents([], resp.chunks) &&
      forall k :: 1 <= k < |ev| - 1 ==> ev[k] != []
  {
    var ev := ChatEvents(true, resp).0;
    assert ev[1..|ev| - 1] == StreamEvents([], resp.chunks);
    StreamEventsNonEmpty([], resp.chunks);
  }

  /** The closing text of a successful stream carries the client's sentinel. */
  lemma CompleteHasSentinel()
    ensures Includes(CompleteText, Streaming.EndMarker)
  {
    assert CompleteText[1..] == Streaming.EndMarker;
    assert OccursAt(CompleteText, Streaming.EndMarker, 1);
    IncludesIff(CompleteText, Streaming.EndMarker);
  }

  /** The server's subscriber list and what has been written to the
      response streams. */
  class Server {
    var clients: seq<Subscriber>
    /** Each successful write: the stream and the frame. */
    var log: seq<(nat, string)>
    /** The streams whose `write` throws. */
    const broken: set<nat>
    /** `JSON.stringify({type: 'assistant_message', text})`. */
    const encode: string -> string

    constructor (broken: set<nat>, encode: string -> string)
      ensures clients == [] && log == []
      ensures this.broken == broken && this.encode == encode
    {
      clients := [];
      log := [];
      this.broken := broken;
      this.encode := encode;
    }

    /** `GET /api/events`: register the new stream. */
    method Connect(id: int, res: nat)
      modifies this
      ensures clients == old(clients) + [Subscriber(id, res)]
      ensures log == old(log)
    {
      clients := clients + [Subscriber(id, res)];
    }

    /** The `close` handler of a stream. */
    method Close(id: int)
      modifies this
      ensures clients == Without(old(clients), id)
      ensures log == old(log)
    {
      clients := Without(clients, id);
    }

    /** `broadcast(data)`: the frame is written to every subscriber in
        turn; a throwing write is logged and the loop goes on, leaving the
        subscriber in the list. */
    method Broadcast(text: string)
      modifies this`log
      ensures clients == old(clients)
      ensures log == old(log) + Fanout(clients, broken, Frame(encode(text)))
    {
      var msg := Frame(encode(text));
      for i := 0 to |clients|
        invariant clients == old(clients)
        invariant log == old(log) + Fanout(clients[..i], broken, msg)
      {
        assert clients[..i + 1][..i] == clients[..i];
        if clients[i].res !in broken {
          AppendAssoc(old(log), Fanout(clients[..i], broken, msg), [(clients[i].res, msg)]);
          log := log + [(clients[i].res, msg)];
        }
      }
      assert clients[..|clients|] == clients;
    }

    /** The `exec` loop of one read: broadcast every non-empty unescaped
        field of the buffer, scanning from its start. */
    method BroadcastRead(buffer: string)
      modifies this`log
      ensures clients == old(clients)
      ensures log == old(log) + Deliveries(clients, broken, encode, ReadEvents(buffer))
    {
      ghost var goal := old(log) + Deliveries(clients, broken, encode, ReadEvents(buffer));
      var lastIndex: nat := 0;
      assert log + [] == log;
      while true
        invariant lastIndex <= |buffer|
        invariant log + Deliveries(clients, broken, encode, ScanFrom(buffer, lastIndex)) == goal
        decreases |buffer| - lastIndex
      {
        var m := NextMatch(buffer, lastIndex);
        if m.None? {
          assert Fields(buffer, lastIndex) == [];
          assert log + [] == log;
          return;
        }
        lastIndex := Exec(buffer, lastIndex, m.value, goal);
      }
    }

    /** One match of the `exec` loop: broadcast the unescaped capture
        unless it is empty, and move `lastIndex` past the match. What is
        left to send shrinks by exactly what was sent. */
    method Exec(buffer: string, from: nat, m: (nat, nat), ghost goal: seq<(nat, string)>)
      returns (next: nat)
      requires from <= |buffer| && NextMatch(buffer, from) == Some(m)
      requires log + Deliveries(clients, broken, encode, ScanFrom(buffer, from)) == goal
      modifies this`log
      ensures from < next <= |buffer|
      ensures log + Deliveries(clients, broken, encode, ScanFrom(buffer, next)) == goal
    {
      var content := Unescape(buffer[m.0..m.1]);
      next := m.1 + 1;
      ghost var rest := Deliveries(clients, broken, encode, ScanFrom(buffer, next));
      DeliveriesStep(clients, broken, encode, buffer, from, m, content, rest);
      if |content| > 0 {
        ghost var before := log;
        Broadcast(content);
        AppendAssoc(before, Fanout(clients, broken, Frame(encode(content))), rest);
      }
    }

    /** The `while (true)` read loop: append each read to the buffer,
        broadcast its fields, then trim the buffer. */
    method ReadAll(chunks: seq<string>)
      modifies this`log
      ensures clients == old(clients)
      ensures log == old(log) + Deliveries(clients, broken, encode, StreamEvents([], chunks))
    {
      ghost var goal := old(log) + Deliveries(clients, broken, encode, StreamEvents([], chunks));
      var buffer: string := [];
      assert chunks[0..] == chunks;
      for k := 0 to |chunks|
        invariant |buffer| <= MaxBuffer
        invariant log + Deliveries(clients, broken, encode, StreamEvents(buffer, chunks[k..])) == goal
      {
        ghost var before := buffer;
        buffer := buffer + chunks[k];
        ghost var rest := Deliveries(clients, broken, encode, StreamEvents(Retain(buffer), chunks[k + 1..]));
        ReadStep(clients, broken, encode, before, chunks, k, rest);
        ghost var sofar := log;
        BroadcastRead(buffer);
        AppendAssoc(sofar, Deliveries(clients, broken, encode, ReadEvents(buffer)), rest);
        if |buffer| > MaxBuffer {
          buffer := buffer[|buffer| - KeptTail..];
        }
        assert buffer == Retain(before + chunks[k]);
      }
      assert chunks[|chunks|..] == [];
      assert log + [] == log;
    }

    /** `POST /api/chat`, from the key check to the JSON status. */
    method HandleChat(hasKey: bool, resp: Response) returns (status: Status)
      modifies this
      ensures clients == old(clients)
      ensures status == ChatEvents(hasKey, resp).1
      ensures log == old(log) + Deliveries(clients, broken, encode, ChatEvents(hasKey, resp).0)
    {
      if !hasKey {
        Broadcast(NoKeyText);
        DeliveriesOne(clients, broken, encode, NoKeyText);
        status := NoKey;
      } else {
        Broadcast(StartText);
        DeliveriesOne(clients, broken, encode, StartText);
        status := Respond(resp);
        DeliveriesAppend(clients, broken, encode, [StartText], Outcome(resp).0);
        AppendAssoc(old(log), Deliveries(clients, broken, encode, [StartText]),
                    Deliveries(clients, broken, encode, Outcome(resp).0));
      }
    }

    /** The request to the model once the key is set: the error text of a
        refused request, or the relayed stream and its closing text. */
    method Respond(resp: Response) returns (status: Status)
      modifies this
      ensures clients == old(clients)
      ensures status == Outcome(resp).1
      ensures log == old(log) + Deliveries(clients, broken, encode, Outcome(resp).0)
    {
      match resp
      case Refused(body) =>
        Broadcast(ApiErrorText(body));
        DeliveriesOne(clients, broken, encode, ApiErrorText(body));
        status := Error;
      case Streamed(chunks) =>
        RelayStream(chunks, CompleteText);
        status := Ok;
      case Broken(chunks) =>
        RelayStream(chunks, ServerErrorText);
        status := Error;
    }

    /** The read loop of a response that was ok, then the closing
        broadcast: the sentinel at the end, or the error text of the catch
        block. */
    method RelayStream(chunks: seq<string>, last: string)
      modifies this
      ensures clients == old(clients)
      ensures log == old(log) + Deliveries(clients, broken, encode, StreamEvents([], chunks) + [last])
    {
      ReadAll(chunks);
      Broadcast(last);
      DeliveriesSnoc(clients, broken, encode, StreamEvents([], chunks), last);
      AppendAssoc(old(log), Deliveries(clients, broken, encode, StreamEvents([], chunks)),
                  Fanout(clients, broken, Frame(encode(last))));
    }
  }
}
