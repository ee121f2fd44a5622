/** The typing state machine of the chat client (client/app.js:164-341).

    Text arrives in packets from the server's event stream. Each packet's
    text is appended to `safeBuffer`; the part of the buffer before the
    first `<FILE` or `<DIFF` is the chat text, and whatever of it has not
    been queued yet goes into `typeQueue`. A timer types one queued
    character per firing into `fullMarkdownBuffer`. When the server has
    signalled the end and the queue has drained, the response is finished.

    The state is the `Typing` value below; the timer is the `timerPending`
    flag and each firing is one call of `Tick`. The effects on the rest of
    the page (the file scan of the buffer, storing the typed text in the
    history) are reported to the caller, which is `Client.App`. */
module Streaming {
  import opened Wrappers
  import opened JsText
  import TagScan

  /** The end sentinel the server appends to its last event. */
  const EndMarker: string := "[STREAM COMPLETE]"

  /** The first index at or after `i` where `<FILE` or `<DIFF` starts:
      `/<(FILE|DIFF)/` matched from `i`. */
  function MarkerFrom(s: string, i: nat): (r: Option<nat>)
    ensures r.Some? ==> i <= r.value && r.value + 5 <= |s| && TagScan.KindAt(s, r.value).Some?
    decreases |s| - i
  {
    if i + 5 > |s| then None
    else if TagScan.KindAt(s, i).Some? then Some(i)
    else MarkerFrom(s, i + 1)
  }

  /** `safeBuffer.match(/<(FILE|DIFF)/)`: the index of the first tag start. */
  function MarkerIndex(s: string): Option<nat> {
    MarkerFrom(s, 0)
  }

  /** No tag starts between `i` and the match (or anywhere after `i`). */
  lemma {:induction false} MarkerFromFirst(s: string, i: nat, j: nat)
    requires i <= j
    requires MarkerFrom(s, i).None? || j < MarkerFrom(s, i).value
    ensures TagScan.KindAt(s, j).None?
    decreases |s| - i
  {
    if i + 5 > |s| {
    } else if TagScan.KindAt(s, i).Some? {
    } else if i < j {
      MarkerFromFirst(s, i + 1, j);
    }
  }

  /** Whether a tag starts at `j` depends only on the five characters there. */
  lemma KindAtPrefix(b: string, c: string, j: nat)
    requires j + 5 <= |b|
    ensures TagScan.KindAt(b + c, j) == TagScan.KindAt(b, j)
  {
    assert (b + c)[j + 1..j + 5] == b[j + 1..j + 5];
  }

  /** Appending text keeps a tag start already present, and a tag start that
      appears only after appending ends past the old text. */
  lemma {:induction false} MarkerFromExtend(b: string, c: string, i: nat)
    ensures MarkerFrom(b, i).Some? ==> MarkerFrom(b + c, i) == MarkerFrom(b, i)
    ensures MarkerFrom(b, i).None? && MarkerFrom(b + c, i).Some? ==>
      |b| < MarkerFrom(b + c, i).value + 5
    decreases |b| - i
  {
    if i + 5 <= |b| {
      KindAtPrefix(b, c, i);
      if TagScan.KindAt(b, i).None? {
        MarkerFromExtend(b, c, i + 1);
      }
    }
  }

  /** The chat text of a buffer: everything before the first tag start. */
  function ChatDisplay(s: string): (r: string)
    ensures StartsWith(s, r)
    ensures MarkerIndex(s).None? <==> r == s
  {
    match MarkerIndex(s)
    case None => s
    case Some(m) => s[..m]
  }

  /** The chat text is cut exactly at the first tag start: no tag starts
      inside it, and when it is not the whole buffer a tag starts right
      after it. */
  lemma ChatDisplayCut(s: string)
    ensures forall j :: 0 <= j < |ChatDisplay(s)| ==> TagScan.KindAt(s, j).None?
    ensures ChatDisplay(s) != s ==> TagScan.KindAt(s, |ChatDisplay(s)|).Some?
  {
    forall j | 0 <= j < |ChatDisplay(s)| ensures TagScan.KindAt(s, j).None? {
      MarkerFromFirst(s, 0, j);
    }
  }

  /** The per-response state. `typed` is `fullMarkdownBuffer`, `ended` is
      `serverFinished`, `timerPending` stands for a scheduled `typeLoop`,
      `bubble` for a created `currentAiMsgElement`. */
  datatype Typing = Typing(
    buffer: string,
    cursor: nat,
    queue: string,
    typed: string,
    ended: bool,
    timerPending: bool,
    bubble: bool)

  /** What holds between resets: the typed text followed by the queue is
      exactly the buffer up to the cursor; the cursor is at the end of a
      buffer with no tag start, and at most four characters into the first
      tag start otherwise; queued characters always have a timer coming. */
  predicate Valid(t: Typing) {
    Consistent(t) && (t.queue != [] ==> t.timerPending)
  }

  /** The part of `Valid` about the text alone. */
  predicate Consistent(t: Typing) {
    t.cursor <= |t.buffer| &&
    t.typed + t.queue == t.buffer[..t.cursor] &&
    match MarkerIndex(t.buffer)
    case None => t.cursor == |t.buffer|
    case Some(m) => t.cursor <= m + 4
  }

  /** The reset in `sendMessage`: buffers emptied, the end flag cleared and
      the bubble forgotten. A scheduled timer is not cancelled. */
  function Reset(t: Typing): (r: Typing)
    ensures Valid(r)
    ensures r.buffer == [] && r.typed == [] && r.queue == []
    ensures !r.ended && !r.bubble
    ensures r.timerPending == t.timerPending
  {
    Typing([], 0, [], [], false, t.timerPending, false)
  }

  /** The delay before the next firing when `n` characters remain queued. */
  function TypeDelay(n: nat): (d: nat)
    ensures d == 2 || d == 5 || d == 15
  {
    if n > 50 then 2 else if n > 20 then 5 else 15
  }

  /** A longer queue never types more slowly. */
  lemma TypeDelayNonIncreasing(a: nat, b: nat)
    requires a <= b
    ensures TypeDelay(b) <= TypeDelay(a)
  {
  }

  /** The end of `finishMessageProcessing` for the typing state: no timer,
      the end flag cleared. */
  function Finish(t: Typing): (r: Typing)
    ensures !r.timerPending && !r.ended
    ensures r.buffer == t.buffer && r.typed == t.typed && r.queue == t.queue
    ensures r.cursor == t.cursor && r.bubble == t.bubble
  {
    t.(timerPending := false, ended := false)
  }

  /** What one firing of `typeLoop` did. */
  datatype Step = Typed(delay: nat) | Stopped | Finished

  /** One firing of `typeLoop`: type the next queued character and schedule
      the next firing, or, with an empty queue, stop and finish the response
      if the server has ended it. */
  function Tick(t: Typing): (r: (Typing, Step))
    ensures r.0.buffer == t.buffer && r.0.cursor == t.cursor && r.0.bubble == t.bubble
    ensures t.queue != [] ==>
      r.0.typed == t.typed + [t.queue[0]] && r.0.queue == t.queue[1..] &&
      r.0.timerPending && r.0.ended == t.ended && r.1 == Typed(TypeDelay(|t.queue| - 1))
    ensures t.queue == [] ==> r.0.typed == t.typed && r.0.queue == [] && !r.0.timerPending
    ensures r.1 == Finished <==> t.queue == [] && t.ended
    ensures r.1 == Finished ==> !r.0.ended
    ensures r.1 == Stopped ==> r.0.ended == t.ended
  {
    if t.queue != [] then
      (t.(typed := t.typed + [t.queue[0]], queue := t.queue[1..], timerPending := true),
       Typed(TypeDelay(|t.queue| - 1)))
    else if t.ended then
      (Finish(t), Finished)
    else
      (t.(timerPending := false), Stopped)
  }

  /** `processTextChunk(chunk)` for the typing state: note the bubble,
      append the chunk, queue the chat text past the cursor, and start the
      timer (which types the first character at once) if none is pending. */
  function AddChunk(t: Typing, chunk: string): (r: Typing)
    ensures r.buffer == t.buffer + chunk
    ensures r.bubble == (t.bubble || (t.buffer == [] && Trim(chunk) != []))
    ensures r.ended == t.ended
  {
    var bubble := t.bubble || (|t.buffer| == 0 && Trim(chunk) != []);
    var buf := t.buffer + chunk;
    Enqueue(t.(buffer := buf, bubble := bubble), DropFrom(ChatDisplay(buf), t.cursor))
  }

  /** `AddChunk` as its two steps: the appended buffer and bubble, then
      the queueing. */
  lemma AddChunkByEnqueue(t: Typing, chunk: string)
    ensures AddChunk(t, chunk) ==
      Enqueue(t.(buffer := t.buffer + chunk, bubble := t.bubble || (|t.buffer| == 0 && Trim(chunk) != [])),
              DropFrom(ChatDisplay(t.buffer + chunk), t.cursor))
  {
  }

  /** Queue `added` past the cursor and start the timer if none is pending. */
  function Enqueue(t: Typing, added: string): (r: Typing)
    ensures r.buffer == t.buffer && r.bubble == t.bubble && r.ended == t.ended
  {
    if |added| == 0 then t
    else
      var t2 := t.(cursor := t.cursor + |added|, queue := t.queue + added);
      if t.timerPending then t2 else Tick(t2).0
  }

  /** The sentinel removal: only the first two occurrences go. */
  function StripSentinel(text: string): (r: string)
    ensures !Includes(text, EndMarker) ==> r == text
  {
    ReplaceFirst(ReplaceFirst(text, EndMarker, []), EndMarker, [])
  }

  /** What a packet did besides changing the typing state. */
  datatype PacketOut = PacketOut(scanned: bool, finished: bool)

  /** Whether a packet ends the response: it carries the sentinel or is
      of type `done`. */
  predicate Ending(text: string, done: bool) {
    Includes(text, EndMarker) || done
  }

  /** The text of a packet that `handleServerPacket` processes. */
  function PacketChunk(text: string, done: bool): (r: string)
    ensures !Includes(text, EndMarker) ==> r == text
  {
    if Ending(text, done) then StripSentinel(text) else text
  }

  /** The typing state after a packet's text, before the finish check. */
  function Received(t: Typing, text: string, done: bool): Typing {
    var t1 := if Ending(text, done) then t.(ended := true) else t;
    var chunk := PacketChunk(text, done);
    if |chunk| > 0 then AddChunk(t1, chunk) else t1
  }

  /** `handleServerPacket({text, type})`, with an absent text given as the
      empty string and `done` standing for `type === 'done'`. */
  function Packet(t: Typing, text: string, done: bool): (r: (Typing, PacketOut))
  {
    var t2 := Received(t, text, done);
    var scanned := |PacketChunk(text, done)| > 0;
    if t2.ended && t2.queue == [] && !t2.timerPending then (Finish(t2), PacketOut(scanned, true))
    else (t2, PacketOut(scanned, false))
  }

  // ---------------------------------------------------------------------
  // Properties of the transitions

  /** The typed text and the queue never hold a tag start. */
  lemma NoMarkerShown(t: Typing, j: nat)
    requires Valid(t)
    ensures TagScan.KindAt(t.typed + t.queue, j).None?
  {
    var shown := t.typed + t.queue;
    if j + 5 <= |shown| {
      assert t.buffer == shown + t.buffer[t.cursor..];
      KindAtPrefix(shown, t.buffer[t.cursor..], j);
      MarkerFromFirst(t.buffer, 0, j);
    }
  }

  /** What is shown is a prefix of the buffer: all of it without a tag
      start, and otherwise nothing past the fourth character of the first
      tag start, so nothing after a closing tag is ever shown. */
  lemma ShownBeforeMarker(t: Typing)
    requires Valid(t)
    ensures StartsWith(t.buffer, t.typed + t.queue)
    ensures MarkerIndex(t.buffer).None? ==> t.typed + t.queue == t.buffer
    ensures MarkerIndex(t.buffer).Some? ==> |t.typed + t.queue| <= MarkerIndex(t.buffer).value + 4
  {
  }

  /** A firing keeps the invariant. */
  lemma TickValid(t: Typing)
    requires Consistent(t)
    ensures Valid(Tick(t).0)
  {
    if t.queue != [] {
      assert t.typed + [t.queue[0]] + t.queue[1..] == t.typed + t.queue;
    }
  }

  /** Finishing keeps the text, so a consistent state with nothing left
      to type is valid once finished. */
  lemma FinishValid(t: Typing)
    requires Consistent(t) && t.queue == []
    ensures Valid(Finish(t))
  {
  }

  /** The text part of a chunk: the buffer grows by the chunk, and the
      chat text past the cursor is queued and the cursor moved past it. */
  lemma ChunkConsistent(t: Typing, chunk: string)
    requires Consistent(t)
    ensures var added := DropFrom(ChatDisplay(t.buffer + chunk), t.cursor);
      Consistent(t.(buffer := t.buffer + chunk, cursor := t.cursor + |added|, queue := t.queue + added))
  {
    var buf := t.buffer + chunk;
    var disp := ChatDisplay(buf);
    var added := DropFrom(disp, t.cursor);
    ChunkText(t.buffer, chunk, t.cursor, t.typed + t.queue, disp, added);
    assert t.typed + (t.queue + added) == t.typed + t.queue + added;
  }

  /** `ChunkConsistent` on the texts alone: `shown` is what was typed or
      queued, `disp` the chat text of the longer buffer. */
  lemma ChunkText(b: string, chunk: string, cursor: nat, shown: string, disp: string, added: string)
    requires cursor <= |b| && shown == b[..cursor]
    requires match MarkerIndex(b) case None => cursor == |b| case Some(m) => cursor <= m + 4
    requires disp == ChatDisplay(b + chunk) && added == DropFrom(disp, cursor)
    ensures cursor + |added| <= |b + chunk|
    ensures shown + added == (b + chunk)[..cursor + |added|]
    ensures match MarkerIndex(b + chunk)
      case None => cursor + |added| == |b + chunk|
      case Some(m) => cursor + |added| <= m + 4
  {
    var buf := b + chunk;
    MarkerFromExtend(b, chunk, 0);
    assert buf[..cursor] == shown;
    if |added| > 0 {
      assert disp == disp[..cursor] + added;
      assert buf[..cursor + |added|] == disp;
    }
  }

  /** Queueing keeps the invariant once the cursor may move past `added`,
      moves the cursor forwards and keeps the typed text followed by the
      queue equal to the old one followed by `added`. */
  lemma EnqueueValid(t: Typing, added: string)
    requires t.queue != [] ==> t.timerPending
    requires Consistent(t.(cursor := t.cursor + |added|, queue := t.queue + added))
    ensures Valid(Enqueue(t, added))
    ensures t.cursor <= Enqueue(t, added).cursor
    ensures t.typed + t.queue + added == Enqueue(t, added).typed + Enqueue(t, added).queue
  {
    var t2 := t.(cursor := t.cursor + |added|, queue := t.queue + added);
    if |added| == 0 {
      assert t.queue + added == t.queue;
      assert t2 == t;
    } else {
      assert t.typed + t.queue + added == t2.typed + t2.queue;
      if !t.timerPending {
        TickValid(t2);
        assert t2.typed + [t2.queue[0]] + t2.queue[1..] == t2.typed + t2.queue;
      }
    }
  }

  /** A chunk keeps the invariant, moves the cursor forwards only, and
      queues exactly the new chat text. */
  lemma AddChunkValid(t: Typing, chunk: string)
    requires Valid(t)
    ensures Valid(AddChunk(t, chunk))
    ensures t.cursor <= AddChunk(t, chunk).cursor
    ensures t.typed + t.queue + DropFrom(ChatDisplay(t.buffer + chunk), t.cursor) ==
      AddChunk(t, chunk).typed + AddChunk(t, chunk).queue
  {
    ChunkConsistent(t, chunk);
    var buf := t.buffer + chunk;
    var t1 := t.(buffer := buf, bubble := t.bubble || (|t.buffer| == 0 && Trim(chunk) != []));
    EnqueueValid(t1, DropFrom(ChatDisplay(buf), t.cursor));
  }

  /** A packet keeps the invariant. */
  lemma PacketValid(t: Typing, text: string, done: bool)
    requires Valid(t)
    ensures Valid(Packet(t, text, done).0)
  {
    var chunk := PacketChunk(text, done);
    var t1 := if Ending(text, done) then t.(ended := true) else t;
    if |chunk| > 0 {
      AddChunkValid(t1, chunk);
    }
  }

  /** A packet carrying the sentinel, or of type `done`, ends the response:
      it is finished now or marked ended for the timer to finish. A packet
      finishes only with an empty queue and no timer, and the rest of the
      text is processed only when non-empty. */
  lemma PacketEnding(t: Typing, text: string, done: bool)
    requires Valid(t)
    ensures var r := Packet(t, text, done);
      (Includes(text, EndMarker) || done) ==> r.0.ended || r.1.finished
    ensures var r := Packet(t, text, done);
      r.1.finished ==>
        (r.0.queue == [] && !r.0.timerPending && !r.0.ended &&
         (t.ended || Includes(text, EndMarker) || done))
    ensures var r := Packet(t, text, done);
      r.1.scanned <==> PacketChunk(text, done) != []
  {
  }

  /** Three sentinels in a row leave the third: only two are removed. */
  lemma StripSentinelTwoOnly(rest: string)
    ensures StripSentinel(EndMarker + EndMarker + rest) == rest
  {
    var s := EndMarker + EndMarker + rest;
    assert s[0..|EndMarker|] == EndMarker;
    LiteralOccurs(s, EndMarker, 0);
    assert IndexOf(s, EndMarker, 0) == Some(0);
    var s1 := ReplaceFirst(s, EndMarker, []);
    assert s1 == EndMarker + rest;
    assert s1[0..|EndMarker|] == EndMarker;
    LiteralOccurs(s1, EndMarker, 0);
    assert IndexOf(s1, EndMarker, 0) == Some(0);
  }

  /** Firings of the timer, `n` at most, for as long as one is pending;
      the count is of firings that finished the response. */
  function Drain(t: Typing, n: nat): (r: (Typing, nat))
    decreases n
  {
    if n == 0 || !t.timerPending then (t, 0)
    else
      var step := Tick(t);
      var rest := Drain(step.0, n - 1);
      (rest.0, rest.1 + if step.1 == Finished then 1 else 0)
  }

  /** The timer finishes a response at most once per end signal. */
  lemma {:induction false} DrainFinishesAtMostOnce(t: Typing, n: nat)
    ensures Drain(t, n).1 <= if t.ended then 1 else 0
    decreases n
  {
    if n > 0 && t.timerPending {
      var step := Tick(t);
      DrainFinishesAtMostOnce(step.0, n - 1);
      if step.1 == Finished {
        assert Drain(step.0, n - 1).1 == 0;
      }
    }
  }

  /** Once ended, the timer types the whole queue and then finishes exactly
      once, leaving no timer behind. */
  lemma {:induction false} DrainTypesAllThenFinishes(t: Typing, n: nat)
    requires t.timerPending && t.ended
    requires |t.queue| < n
    ensures var r := Drain(t, n);
      r.1 == 1 && r.0.typed == t.typed + t.queue && r.0.queue == [] &&
      !r.0.timerPending && !r.0.ended
    decreases |t.queue|
  {
    var t1 := Tick(t).0;
    if t.queue != [] {
      assert t.typed + t.queue == t1.typed + t1.queue;
      DrainTypesAllThenFinishes(t1, n - 1);
    } else {
      assert Drain(t1, n - 1) == (t1, 0);
    }
  }
}
