/** The small rules of the chat client (client/app.js): the retry counter of
    `handle503Error`, the send-button predicate of `checkInputState` and the
    bouncing dots of the status line. */
module ClientRules {
  import opened Wrappers
  import opened JsText

  // ---------------------------------------------------------------------
  // handle503Error (lines 21-22, 1901-1913)
  // ---------------------------------------------------------------------

  /** `maxRetries`. */
  const MaxRetries: nat := 5

  function Pow2(n: nat): (r: nat)
    ensures r >= 1
  {
    if n == 0 then 1 else 2 * Pow2(n - 1)
  }

  /** One 503 response on the retry counter: the new counter and the delay
      in seconds before the retry, or `None` when the client gives up. */
  function On503(count: nat): (r: (nat, Option<nat>))
    ensures r.1.None? <==> count >= MaxRetries
    ensures r.1.None? ==> r.0 == 0
    ensures r.1.Some? ==> r.0 == count + 1 && r.1.value == Pow2(r.0)
    ensures count <= MaxRetries ==> r.0 <= MaxRetries
  {
    if count < MaxRetries then (count + 1, Some(Pow2(count + 1))) else (0, None)
  }

  /** `n` consecutive 503 responses from counter `count`: the final counter
      and the outcome of each. */
  function Run503s(count: nat, n: nat): (r: (nat, seq<Option<nat>>))
    ensures |r.1| == n
  {
    if n == 0 then (count, [])
    else
      var prev := Run503s(count, n - 1);
      var step := On503(prev.0);
      (step.0, prev.1 + [step.1])
  }

  /** Below the cap, each 503 doubles the delay: from counter `k`, the
      `i`-th of `n` responses waits `2^(k+i+1)` seconds. */
  lemma {:induction false} RetriesDouble(k: nat, n: nat)
    requires k + n <= MaxRetries
    ensures Run503s(k, n).0 == k + n
    ensures forall i :: 0 <= i < n ==> Run503s(k, n).1[i] == Some(Pow2(k + i + 1))
  {
    if n > 0 {
      RetriesDouble(k, n - 1);
      var prev := Run503s(k, n - 1);
      var out := prev.1 + [On503(prev.0).1];
      assert Run503s(k, n).1 == out;
      assert out[n - 1] == Some(Pow2(k + n));
      assert forall i :: 0 <= i < n - 1 ==> out[i] == prev.1[i];
    }
  }

  /** From a fresh send, five 503 responses retry after 2, 4, 8, 16 and 32
      seconds; the sixth gives up and puts the counter back to 0. */
  lemma BackoffSchedule()
    ensures Run503s(0, 6) == (0, [Some(2), Some(4), Some(8), Some(16), Some(32), None])
  {
    RetriesDouble(0, 5);
    var five := Run503s(0, 5);
    assert Pow2(1) == 2 && Pow2(2) == 4 && Pow2(3) == 8 && Pow2(4) == 16 && Pow2(5) == 32;
    var expected: seq<Option<nat>> := [Some(2), Some(4), Some(8), Some(16), Some(32)];
    assert five.1 == expected by {
      assert forall i :: 0 <= i < 5 ==> five.1[i] == Some(Pow2(i + 1));
    }
    assert Run503s(0, 6).0 == 0;
    assert Run503s(0, 6).1 == expected + [None] == [Some(2), Some(4), Some(8), Some(16), Some(32), None];
  }

  // ---------------------------------------------------------------------
  // checkInputState (lines 1559-1568)
  // ---------------------------------------------------------------------

  /** The send button is enabled when the trimmed input is non-empty and no
      reply is streaming. */
  function SendEnabled(input: string, streaming: bool): (r: bool)
    ensures r <==> !streaming && exists k :: 0 <= k < |input| && !IsSpace(input[k])
  {
    TrimEmptyIff(input);
    !(|Trim(input)| == 0 || streaming)
  }

  // ---------------------------------------------------------------------
  // The status dots (lines 1308-1345)
  // ---------------------------------------------------------------------

  /** `statusDotCount` and `statusDirection`. */
  datatype Dots = Dots(count: int, direction: int)

  /** What `showStatus` sets. */
  const DotsStart: Dots := Dots(3, -1)

  /** One firing of the 300 ms interval. */
  function StepDots(d: Dots): Dots {
    var c := d.count + d.direction;
    if c <= 0 then Dots(0, 1)
    else if c >= 3 then Dots(3, -1)
    else Dots(c, d.direction)
  }

  /** The states the dots reach: between none and three dots, turning at
      both ends. */
  predicate DotsValid(d: Dots) {
    0 <= d.count <= 3 && (d.direction == 1 || d.direction == -1) &&
    (d.count == 3 ==> d.direction == -1) && (d.count == 0 ==> d.direction == 1)
  }

  /** Each step keeps the dots in range and moves the count by exactly one. */
  lemma StepDotsValid(d: Dots)
    requires DotsValid(d)
    ensures DotsValid(StepDots(d))
    ensures StepDots(d).count == d.count + d.direction
  {
  }

  /** Six steps bring the dots back to where they were. */
  lemma {:induction false} DotsPeriod(d: Dots)
    requires DotsValid(d)
    ensures StepDots(StepDots(StepDots(StepDots(StepDots(StepDots(d)))))) == d
  {
  }

  /** From `showStatus` the dots go 2, 1, 0, 1, 2, 3. */
  lemma DotsCycle()
    ensures StepDots(DotsStart).count == 2
    ensures StepDots(StepDots(DotsStart)).count == 1
    ensures StepDots(StepDots(StepDots(DotsStart))).count == 0
    ensures StepDots(StepDots(StepDots(StepDots(DotsStart)))).count == 1
    ensures StepDots(StepDots(StepDots(StepDots(StepDots(DotsStart))))).count == 2
    ensures StepDots(StepDots(StepDots(StepDots(StepDots(StepDots(DotsStart)))))) == DotsStart
  {
  }
}

/** The chat client's state and event handlers (client/app.js): the typing
    state of `Streaming` as fields, the retry counter, `isStreaming`, the
    input box text and the status dots, together with the project
    (`Workspace`) and the history (`History`) they act on.

    Each asynchronous event is one method: a send up to its request, the
    response status, a packet of the event stream, a firing of the typing
    timer, a firing of the dots interval, the retry and edit buttons. A
    retry's timer is returned to the caller as a delay, after which the
    caller calls `SendMessage(text, true, …)`. */
module Client {
  import opened Wrappers
  import opened JsText
  import opened ProjectFiles
  import opened Workspaces
  import Chats
  import opened Histories
  import opened Streaming
  import opened ClientRules

  /** The page a fresh conversation starts with. */
  const FreshFiles: seq<File> := [File("index.html", "// Start coding...")]

  class App {
    const ws: Workspace
    const hist: History
    var safeBuffer: string
    var streamCursor: nat
    var typeQueue: string
    var fullMarkdownBuffer: string
    var serverFinished: bool
    var timerPending: bool
    var bubble: bool
    var isStreaming: bool
    var retryCount: nat
    var input: string
    var dotCount: int
    var dotDirection: int

    function Typing(): Streaming.Typing
      reads this
    {
      Streaming.Typing(safeBuffer, streamCursor, typeQueue, fullMarkdownBuffer,
                       serverFinished, timerPending, bubble)
    }

    predicate Valid()
      reads this, ws, hist
    {
      OthersValid() && Streaming.Valid(Typing())
    }

    /** Everything of `Valid` but the typing state. */
    predicate OthersValid()
      reads this, ws, hist
    {
      ProjectFiles.Valid(ws.State()) && Chats.Valid(hist.State()) &&
      retryCount <= MaxRetries && DotsValid(Dots(dotCount, dotDirection))
    }

    /** Whether a finish now stores the reply and scans the buffer: a
        conversation is open and the reply bubble exists. */
    predicate Persists()
      reads this, hist
    {
      hist.activeId.Some? && bubble
    }

    /** A fresh page. */
    constructor ()
      ensures Valid() && fresh(ws) && fresh(hist)
      ensures hist.State() == Chats.Archive([], None)
      ensures ws.State() == Project(FreshFiles, 0, []) && ws.lastParsedIndex == 0
      ensures Typing() == Streaming.Typing([], 0, [], [], false, false, false)
      ensures !isStreaming && retryCount == 0 && input == []
    {
      ws := new Workspace([]);
      hist := new History();
      safeBuffer, streamCursor, typeQueue, fullMarkdownBuffer := [], 0, [], [];
      serverFinished, timerPending, bubble := false, false, false;
      isStreaming, retryCount, input := false, 0, [];
      dotCount, dotDirection := 3, -1;
    }

    /** The fields no typing step touches: `isStreaming`, the retry
        counter, the input box and the dots. */
    function Rest(): (bool, nat, string, int, int)
      reads this
    {
      (isStreaming, retryCount, input, dotCount, dotDirection)
    }

    /** `showStatus`: the dots start over. */
    method ShowStatus()
      modifies this
      ensures Dots(dotCount, dotDirection) == DotsStart
      ensures Typing() == old(Typing())
      ensures isStreaming == old(isStreaming) && retryCount == old(retryCount) && input == old(input)
    {
      dotCount := 3;
      dotDirection := -1;
    }

    /** One firing of the status interval. */
    method DotTick()
      requires Valid()
      modifies this
      ensures Valid()
      ensures Dots(dotCount, dotDirection) == StepDots(old(Dots(dotCount, dotDirection)))
      ensures Typing() == old(Typing())
      ensures isStreaming == old(isStreaming) && retryCount == old(retryCount) && input == old(input)
    {
      StepDotsValid(Dots(dotCount, dotDirection));
      dotCount := dotCount + dotDirection;
      if dotCount <= 0 {
        dotCount := 0;
        dotDirection := 1;
      } else if dotCount >= 3 {
        dotCount := 3;
        dotDirection := -1;
      }
    }

    /** The step of `finishMessageProcessing` taken when a conversation is
        open and the bubble exists: store the typed reply as the last
        message and scan the buffer for files. */
    method Persist()
      requires OthersValid()
      modifies ws, hist
      ensures OthersValid()
      ensures old(Persists()) ==>
        hist.State() == Chats.SetLastText(old(hist.State()), fullMarkdownBuffer) &&
        (ws.State(), ws.lastParsedIndex) == SyncFrom(old(ws.State()), safeBuffer, old(ws.lastParsedIndex))
      ensures !old(Persists()) ==>
        hist.State() == old(hist.State()) &&
        ws.State() == old(ws.State()) && ws.lastParsedIndex == old(ws.lastParsedIndex)
    {
      if hist.activeId.Some? && bubble {
        hist.SetLastText(fullMarkdownBuffer);
        ws.ProcessFilesUpdate(safeBuffer);
      }
    }

    /** `finishMessageProcessing`, entered with an empty queue. */
    method FinishMessageProcessing()
      requires Valid() && typeQueue == []
      modifies this, ws, hist
      ensures Valid()
      ensures Typing() == Finish(old(Typing())) && !isStreaming
      ensures retryCount == old(retryCount) && input == old(input)
      ensures Dots(dotCount, dotDirection) == old(Dots(dotCount, dotDirection))
      ensures old(Persists()) ==>
        hist.State() == Chats.SetLastText(old(hist.State()), fullMarkdownBuffer) &&
        (ws.State(), ws.lastParsedIndex) == SyncFrom(old(ws.State()), safeBuffer, old(ws.lastParsedIndex))
      ensures !old(Persists()) ==>
        hist.State() == old(hist.State()) &&
        ws.State() == old(ws.State()) && ws.lastParsedIndex == old(ws.lastParsedIndex)
    {
      ghost var t := Typing();
      FinishValid(t);
      timerPending := false;
      serverFinished := false;
      assert Typing() == Finish(t);
      Persist();
      ghost var saved := (hist.State(), ws.State(), ws.lastParsedIndex);
      isStreaming := false;
      assert Typing() == Finish(t);
      assert (hist.State(), ws.State(), ws.lastParsedIndex) == saved;
    }

    /** One firing of the `typeLoop` timer. */
    method TypeLoop() returns (step: Step)
      requires Valid() && timerPending
      modifies this, ws, hist
      ensures Valid()
      ensures (Typing(), step) == Tick(old(Typing()))
      ensures step != Finished ==> isStreaming == old(isStreaming)
      ensures step == Finished ==> !isStreaming
      ensures retryCount == old(retryCount) && input == old(input)
      ensures Dots(dotCount, dotDirection) == old(Dots(dotCount, dotDirection))
      ensures step == Finished && old(Persists()) ==>
        hist.State() == Chats.SetLastText(old(hist.State()), fullMarkdownBuffer) &&
        (ws.State(), ws.lastParsedIndex) == SyncFrom(old(ws.State()), safeBuffer, old(ws.lastParsedIndex))
      ensures !(step == Finished && old(Persists())) ==>
        hist.State() == old(hist.State()) &&
        ws.State() == old(ws.State()) && ws.lastParsedIndex == old(ws.lastParsedIndex)
    {
      TickValid(Typing());
      if |typeQueue| > 0 {
        TypeNext();
        step := Typed(TypeDelay(|typeQueue|));
      } else {
        timerPending := false;
        if serverFinished {
          FinishMessageProcessing();
          step := Finished;
        } else {
          step := Stopped;
        }
      }
    }

    /** The branch of `typeLoop` with a non-empty queue: move the first
        queued character to the typed text and schedule the next firing. */
    method TypeNext()
      requires typeQueue != []
      modifies this
      ensures Typing() == Tick(old(Typing())).0
      ensures Rest() == old(Rest())
    {
      var c := typeQueue[0];
      typeQueue := typeQueue[1..];
      fullMarkdownBuffer := fullMarkdownBuffer + [c];
      timerPending := true;
    }

    /** The queueing of `processTextChunk`: push the new characters one by
        one and, with no timer pending, call `startTyping`, whose first
        `typeLoop` types one character at once. */
    method Enqueue(added: string)
      modifies this
      ensures Typing() == Streaming.Enqueue(old(Typing()), added)
      ensures Rest() == old(Rest())
    {
      if |added| > 0 {
        streamCursor := streamCursor + |added|;
        ghost var before := Typing();
        for k := 0 to |added|
          invariant Typing() == before.(queue := before.queue + added[..k])
          invariant Rest() == old(Rest())
        {
          typeQueue := typeQueue + [added[k]];
        }
        assert added[..|added|] == added;
        if !timerPending {
          TypeNext();
        }
      }
    }

    /** `processTextChunk(chunk)`: the typing step, then the file scan of
        the whole buffer. */
    method ProcessTextChunk(chunk: string)
      requires Valid()
      modifies this, ws, hist
      ensures Valid()
      ensures Typing() == AddChunk(old(Typing()), chunk)
      ensures Rest() == old(Rest())
      ensures hist.State() == old(hist.State())
      ensures (ws.State(), ws.lastParsedIndex) == SyncFrom(old(ws.State()), safeBuffer, old(ws.lastParsedIndex))
    {
      AddChunkValid(Typing(), chunk);
      AppendChunk(chunk);
      ws.ProcessFilesUpdate(safeBuffer);
    }

    /** The typing part of `processTextChunk`: note the bubble for the first
        non-blank chunk, append the chunk, and queue the chat text past the
        cursor. */
    method AppendChunk(chunk: string)
      modifies this
      ensures Typing() == AddChunk(old(Typing()), chunk)
      ensures Rest() == old(Rest())
    {
      AddChunkByEnqueue(Typing(), chunk);
      var opens := |safeBuffer| == 0 && Trim(chunk) != [];
      if opens && !bubble {
        bubble := true;
      }
      safeBuffer := safeBuffer + chunk;
      var display := ChatDisplay(safeBuffer);
      Enqueue(DropFrom(display, streamCursor));
    }

    /** `handleServerPacket({text, type})`: `text` is the packet's text, the
        empty string when absent, and `done` whether its type is `done`. */
    method HandleServerPacket(text: string, done: bool) returns (out: PacketOut)
      requires Valid()
      modifies this, ws, hist
      ensures Valid()
      ensures (Typing(), out) == Packet(old(Typing()), text, done)
      ensures out.finished ==> !isStreaming
      ensures !out.finished ==> isStreaming == old(isStreaming)
      ensures retryCount == old(retryCount) && input == old(input)
      ensures out.finished && old(hist.activeId).Some? && bubble ==>
        hist.State() == Chats.SetLastText(old(hist.State()), fullMarkdownBuffer)
      ensures !(out.finished && old(hist.activeId).Some? && bubble) ==>
        hist.State() == old(hist.State())
      ensures out.scanned || (out.finished && old(hist.activeId).Some? && bubble) ==>
        (ws.State(), ws.lastParsedIndex) == SyncFrom(old(ws.State()), safeBuffer, old(ws.lastParsedIndex))
      ensures !(out.scanned || (out.finished && old(hist.activeId).Some? && bubble)) ==>
        ws.State() == old(ws.State()) && ws.lastParsedIndex == old(ws.lastParsedIndex)
    {
      PacketValid(Typing(), text, done);
      ghost var p0, i0 := ws.State(), ws.lastParsedIndex;
      var chunk := ReceiveText(text, done);
      if |chunk| > 0 {
        SyncAgainIsNoop(p0, safeBuffer, i0);
      }
      var finished := FinishIfDone();
      out := PacketOut(|chunk| > 0, finished);
    }

    /** The first part of `handleServerPacket`: a sentinel or a `done` type
        marks the response ended and the sentinel is cut out, then what is
        left, when non-empty, goes to `processTextChunk`. */
    method ReceiveText(text: string, done: bool) returns (chunk: string)
      requires Valid()
      modifies this, ws, hist
      ensures OthersValid()
      ensures chunk == PacketChunk(text, done)
      ensures Typing() == Received(old(Typing()), text, done)
      ensures Rest() == old(Rest()) && hist.State() == old(hist.State())
      ensures |chunk| > 0 ==>
        (ws.State(), ws.lastParsedIndex) == SyncFrom(old(ws.State()), safeBuffer, old(ws.lastParsedIndex))
      ensures |chunk| == 0 ==> ws.State() == old(ws.State()) && ws.lastParsedIndex == old(ws.lastParsedIndex)
    {
      chunk := text;
      if Includes(chunk, EndMarker) || done {
        serverFinished := true;
        chunk := ReplaceFirst(ReplaceFirst(chunk, EndMarker, []), EndMarker, []);
      }
      if |chunk| > 0 {
        ProcessTextChunk(chunk);
      }
    }

    /** The finish check closing `handleServerPacket`. */
    method FinishIfDone() returns (finished: bool)
      requires Valid()
      modifies this, ws, hist
      ensures Valid()
      ensures finished <==> old(serverFinished && typeQueue == [] && !timerPending)
      ensures finished ==> Typing() == Finish(old(Typing())) && !isStreaming
      ensures !finished ==> Typing() == old(Typing()) && isStreaming == old(isStreaming)
      ensures retryCount == old(retryCount) && input == old(input)
      ensures finished && old(Persists()) ==>
        hist.State() == Chats.SetLastText(old(hist.State()), fullMarkdownBuffer) &&
        (ws.State(), ws.lastParsedIndex) == SyncFrom(old(ws.State()), safeBuffer, old(ws.lastParsedIndex))
      ensures !(finished && old(Persists())) ==>
        hist.State() == old(hist.State()) &&
        ws.State() == old(ws.State()) && ws.lastParsedIndex == old(ws.lastParsedIndex)
    {
      finished := false;
      if serverFinished {
        if |typeQueue| == 0 && !timerPending {
          FinishMessageProcessing();
          finished := true;
        }
      }
    }

    /** `finalizeError`: streaming stops and the reply placeholder goes. */
    method FinalizeError()
      requires Valid()
      modifies this, hist
      ensures Valid()
      ensures hist.State() == Chats.DropReply(old(hist.State()))
      ensures !isStreaming && Typing() == old(Typing())
      ensures retryCount == old(retryCount) && input == old(input)
      ensures Dots(dotCount, dotDirection) == old(Dots(dotCount, dotDirection))
    {
      isStreaming := false;
      hist.DropReply();
    }

    /** `handle503Error`: schedule a retry with a doubled delay, or give up
        after the fifth. Returns the delay in seconds of the scheduled retry. */
    method Handle503Error() returns (delay: Option<nat>)
      requires Valid()
      modifies this, hist
      ensures Valid()
      ensures (retryCount, delay) == On503(old(retryCount))
      ensures !isStreaming && Typing() == old(Typing()) && input == old(input)
      ensures delay.None? ==> hist.State() == Chats.DropReply(old(hist.State()))
      ensures delay.Some? ==> hist.State() == old(hist.State())
    {
      isStreaming := false;
      if retryCount < MaxRetries {
        delay := Some(Pow2(retryCount + 1));
        retryCount := retryCount + 1;
      } else {
        retryCount := 0;
        FinalizeError();
        delay := None;
      }
    }

    /** The buffer reset of `sendMessage` (its lines 952-956 and 981-983). */
    method ResetBuffers()
      modifies this
      ensures Typing() == Reset(old(Typing())) && isStreaming
      ensures Dots(dotCount, dotDirection) == DotsStart
      ensures retryCount == old(retryCount) && input == old(input)
    {
      ShowStatus();
      isStreaming := true;
      serverFinished := false;
      safeBuffer, fullMarkdownBuffer, typeQueue, streamCursor := [], [], [], 0;
      bubble := false;
    }

    /** The history part of a first send: a new conversation, with a fresh
        project, when none is open, then the user turn and the placeholder. */
    method OpenTurn(text: string, newId: string)
      requires OthersValid()
      modifies ws, hist
      ensures OthersValid()
      ensures hist.State() == Chats.StartTurn(old(hist.State()), text, newId)
      ensures old(hist.activeId).None? ==> ws.State() == Project(FreshFiles, 0, old(ws.editor))
      ensures old(hist.activeId).Some? ==> ws.State() == old(ws.State())
      ensures ws.lastParsedIndex == old(ws.lastParsedIndex)
    {
      if hist.activeId.None? {
        ws.ResetProject();
      }
      hist.StartTurn(text, newId);
    }

    /** The part of `sendMessage` before its request, for the first send
        (`isRetry` false) and for a retry; `newId` is `Date.now()` as a
        string. Returns whether a request goes out. */
    method SendMessage(text: string, isRetry: bool, newId: string) returns (requested: bool)
      requires Valid()
      modifies this, ws, hist
      ensures Valid()
      ensures requested <==> text != []
      ensures !requested ==> Typing() == old(Typing()) && Rest() == old(Rest())
      ensures requested ==> Typing() == Reset(old(Typing())) && isStreaming
      ensures requested ==> Dots(dotCount, dotDirection) == DotsStart
      ensures requested && !isRetry ==> retryCount == 0
      ensures requested && !isRetry ==> hist.State() == Chats.StartTurn(old(hist.State()), text, newId)
      ensures !(requested && !isRetry) ==> retryCount == old(retryCount) && hist.State() == old(hist.State())
      ensures requested && !isRetry && old(hist.activeId).None? ==> ws.State() == Project(FreshFiles, 0, old(ws.editor))
      ensures !(requested && !isRetry && old(hist.activeId).None?) ==> ws.State() == old(ws.State())
      ensures ws.lastParsedIndex == old(ws.lastParsedIndex) && input == old(input)
    {
      if text == [] {
        return false;
      }
      if !isRetry {
        retryCount := 0;
        ResetBuffers();
        OpenTurn(text, newId);
      }
      ResetBuffers();
      requested := true;
    }

    /** The response to the request of `sendMessage`: a 503 goes to
        `handle503Error`, an ok status resets the counter, and any other
        status is thrown and caught, which only logs. */
    method OnResponse(status: int) returns (delay: Option<nat>)
      requires Valid()
      modifies this, hist
      ensures Valid()
      ensures Typing() == old(Typing()) && input == old(input)
      ensures status == 503 ==> (retryCount, delay) == On503(old(retryCount)) && !isStreaming
      ensures status == 503 && delay.None? ==> hist.State() == Chats.DropReply(old(hist.State()))
      ensures !(status == 503 && delay.None?) ==> hist.State() == old(hist.State())
      ensures status != 503 ==> delay.None? && isStreaming == old(isStreaming)
      ensures 200 <= status < 300 ==> retryCount == 0
      ensures status != 503 && !(200 <= status < 300) ==> retryCount == old(retryCount)
    {
      delay := None;
      if status == 503 {
        delay := Handle503Error();
      } else if 200 <= status < 300 {
        retryCount := 0;
      }
    }

    /** `handleRetryOrEdit(mode)`: take off the last turn, then put its text
        back in the input box (`edit`) or send it again as a new send. */
    method HandleRetryOrEdit(edit: bool, newId: string) returns (requested: bool)
      requires Valid()
      modifies this, ws, hist
      ensures Valid()
      ensures var r := Chats.TakeLastTurn(old(hist.State()));
        r.1.None? ==> hist.State() == old(hist.State()) && input == old(input) && !requested
      ensures var r := Chats.TakeLastTurn(old(hist.State()));
        r.1.Some? && edit ==> hist.State() == r.0 && input == r.1.value && !requested
      ensures var r := Chats.TakeLastTurn(old(hist.State()));
        r.1.Some? && !edit ==> input == old(input) && (requested <==> r.1.value != [])
      ensures var r := Chats.TakeLastTurn(old(hist.State()));
        r.1.Some? && !edit && !requested ==> hist.State() == r.0
      ensures var r := Chats.TakeLastTurn(old(hist.State()));
        r.1.Some? && !edit && requested ==> hist.State() == Chats.StartTurn(r.0, r.1.value, newId)
      ensures !requested ==> Typing() == old(Typing()) && isStreaming == old(isStreaming) &&
                             retryCount == old(retryCount) && Dots(dotCount, dotDirection) == old(Dots(dotCount, dotDirection))
      ensures requested ==> Typing() == Reset(old(Typing())) && isStreaming && retryCount == 0 &&
                            Dots(dotCount, dotDirection) == DotsStart
      ensures ws.State() == old(ws.State()) && ws.lastParsedIndex == old(ws.lastParsedIndex)
    {
      requested := false;
      var t := hist.TakeLastTurn();
      if t.Some? {
        if edit {
          input := t.value;
        } else {
          requested := SendMessage(t.value, false, newId);
        }
      }
    }
  }
}
