/** The chat history of the client: the list of conversations `convs` and
    the open one, `activeId` (client/app.js:17, 96). The functions below are
    the history bookkeeping of `sendMessage`, `finalizeError`,
    `handleRetryOrEdit`, `finishMessageProcessing` and
    `summarizeConversation` on an `Archive` value; the class `History` in
    the module `Histories` after it performs them in place. */
module Chats {
  import opened Wrappers
  import opened JsText

  datatype Role = User | Ai

  datatype Message = Message(role: Role, text: string)

  datatype Conversation = Conversation(id: string, title: string, messages: seq<Message>)

  /** `convs` and `activeId`, with `null` as `None`. */
  datatype Archive = Archive(convs: seq<Conversation>, activeId: Option<string>)

  /** `convs.find(c => c.id === id)`: the index of the first conversation
      with that id. */
  function FindConv(convs: seq<Conversation>, id: string): (r: Option<nat>)
    ensures r.Some? ==> r.value < |convs| && convs[r.value].id == id
    ensures r.Some? ==> forall j :: 0 <= j < r.value ==> convs[j].id != id
    ensures r.None? ==> forall j :: 0 <= j < |convs| ==> convs[j].id != id
  {
    if |convs| == 0 then None
    else if convs[0].id == id then Some(0)
    else
      match FindConv(convs[1..], id)
      case None => None
      case Some(i) => Some(i + 1)
  }

  /** An open conversation is always in the list: deleting the open
      conversation clears `activeId`, and a new one is added before it is
      opened. */
  predicate Valid(a: Archive) {
    a.activeId.Some? ==> FindConv(a.convs, a.activeId.value).Some?
  }

  /** The index of the open conversation, if any. */
  function Active(a: Archive): (r: Option<nat>)
    ensures r.Some? ==> a.activeId.Some? && r.value < |a.convs| && a.convs[r.value].id == a.activeId.value
    ensures Valid(a) && a.activeId.Some? ==> r.Some?
  {
    match a.activeId
    case None => None
    case Some(id) => FindConv(a.convs, id)
  }

  /** The messages of the open conversation, empty when none is open. */
  function ActiveMessages(a: Archive): seq<Message> {
    match Active(a)
    case None => []
    case Some(i) => a.convs[i].messages
  }

  /** Replace the messages of the open conversation. */
  function WithMessages(a: Archive, i: nat, msgs: seq<Message>): (r: Archive)
    requires i < |a.convs|
    ensures |r.convs| == |a.convs| && r.activeId == a.activeId
    ensures r.convs[i] == a.convs[i].(messages := msgs)
    ensures forall j :: 0 <= j < |a.convs| && j != i ==> r.convs[j] == a.convs[j]
  {
    Archive(a.convs[i := a.convs[i].(messages := msgs)], a.activeId)
  }

  /** `r` differs from `a` at most in the messages of the open
      conversation: the list keeps its length, every conversation keeps its
      id and title, the others are kept whole, and the same one stays open. */
  predicate OnlyActiveMessages(a: Archive, r: Archive) {
    |r.convs| == |a.convs| && r.activeId == a.activeId &&
    (forall j :: 0 <= j < |a.convs| ==> r.convs[j].id == a.convs[j].id && r.convs[j].title == a.convs[j].title) &&
    (forall j :: 0 <= j < |a.convs| && Some(j) != Active(a) ==> r.convs[j] == a.convs[j])
  }

  /** The same ids in the same places keep `FindConv` where it was. */
  lemma {:induction false} FindConvSameIds(x: seq<Conversation>, y: seq<Conversation>, id: string)
    requires |x| == |y|
    requires forall j :: 0 <= j < |x| ==> x[j].id == y[j].id
    ensures FindConv(x, id) == FindConv(y, id)
  {
    if |x| > 0 && x[0].id != id {
      FindConvSameIds(x[1..], y[1..], id);
    }
  }

  /** Changing the messages of a conversation keeps the archive valid and
      the same conversation open. */
  lemma WithMessagesActive(a: Archive, i: nat, msgs: seq<Message>)
    requires Valid(a) && Active(a) == Some(i)
    ensures Valid(WithMessages(a, i, msgs)) && Active(WithMessages(a, i, msgs)) == Some(i)
    ensures ActiveMessages(WithMessages(a, i, msgs)) == msgs
  {
    FindConvSameIds(a.convs, WithMessages(a, i, msgs).convs, a.activeId.value);
  }

  // ---------------------------------------------------------------------
  // sendMessage (lines 959-975)
  // ---------------------------------------------------------------------

  /** With no conversation open, a new one is put first, titled with the
      first 30 characters of the text, and opened; `newId` is the clock
      reading `Date.now()` as a string. */
  function OpenFor(a: Archive, text: string, newId: string): (r: Archive)
    requires Valid(a)
    ensures Valid(r) && r.activeId.Some?
    ensures a.activeId.Some? ==> r == a
    ensures a.activeId.None? ==>
      r.convs == [Conversation(newId, TakePrefix(text, 30), [])] + a.convs &&
      Active(r) == Some(0)
  {
    if a.activeId.Some? then a
    else Archive([Conversation(newId, TakePrefix(text, 30), [])] + a.convs, Some(newId))
  }

  /** The first-send history bookkeeping: open a conversation if needed,
      then push the user turn and an empty reply placeholder. */
  function StartTurn(a: Archive, text: string, newId: string): (r: Archive)
    requires Valid(a)
    ensures Valid(r)
  {
    var b := OpenFor(a, text, newId);
    var i := Active(b).value;
    WithMessagesActive(b, i, b.convs[i].messages + [Message(User, text), Message(Ai, [])]);
    WithMessages(b, i, b.convs[i].messages + [Message(User, text), Message(Ai, [])])
  }

  /** A send appends exactly the user turn and the placeholder to the open
      conversation, changes no other conversation, and keeps it open. */
  lemma StartTurnAppends(a: Archive, text: string, newId: string)
    requires Valid(a)
    ensures var b := OpenFor(a, text, newId);
      var r := StartTurn(a, text, newId);
      Active(r) == Active(b) && r.activeId == b.activeId && |r.convs| == |b.convs| &&
      ActiveMessages(r) == ActiveMessages(b) + [Message(User, text), Message(Ai, [])] &&
      forall j :: 0 <= j < |b.convs| && Some(j) != Active(b) ==> r.convs[j] == b.convs[j]
  {
    var b := OpenFor(a, text, newId);
    WithMessagesActive(b, Active(b).value, b.convs[Active(b).value].messages + [Message(User, text), Message(Ai, [])]);
  }

  // ---------------------------------------------------------------------
  // finalizeError (lines 1393-1398) and finishMessageProcessing (249-256)
  // ---------------------------------------------------------------------

  /** Drop the last message of the open conversation if it is a reply. */
  function DropReply(a: Archive): (r: Archive)
    requires Valid(a)
    ensures Valid(r) && r.activeId == a.activeId && Active(r) == Active(a)
    ensures OnlyActiveMessages(a, r)
    ensures var m := ActiveMessages(a);
      if m != [] && m[|m| - 1].role == Ai then ActiveMessages(r) == m[..|m| - 1] else r == a
  {
    match Active(a)
    case None => a
    case Some(i) =>
      var m := a.convs[i].messages;
      if |m| > 0 && m[|m| - 1].role == Ai then
        WithMessagesActive(a, i, m[..|m| - 1]);
        WithMessages(a, i, m[..|m| - 1])
      else a
  }

  /** Store the typed reply as the text of the last message of the open
      conversation. */
  function SetLastText(a: Archive, text: string): (r: Archive)
    requires Valid(a)
    ensures Valid(r) && r.activeId == a.activeId && Active(r) == Active(a)
    ensures OnlyActiveMessages(a, r)
    ensures var m := ActiveMessages(a);
      if m != [] then ActiveMessages(r) == m[|m| - 1 := m[|m| - 1].(text := text)] else r == a
  {
    match Active(a)
    case None => a
    case Some(i) =>
      var m := a.convs[i].messages;
      if |m| > 0 then
        WithMessagesActive(a, i, m[|m| - 1 := m[|m| - 1].(text := text)]);
        WithMessages(a, i, m[|m| - 1 := m[|m| - 1].(text := text)])
      else a
  }

  /** A terminal error after a send removes the placeholder and keeps the
      user turn. */
  lemma DropReplyAfterStart(a: Archive, text: string, newId: string)
    requires Valid(a)
    ensures ActiveMessages(DropReply(StartTurn(a, text, newId))) ==
      ActiveMessages(OpenFor(a, text, newId)) + [Message(User, text)]
  {
    StartTurnAppends(a, text, newId);
    var m := ActiveMessages(StartTurn(a, text, newId));
    assert m[..|m| - 1] == ActiveMessages(OpenFor(a, text, newId)) + [Message(User, text)];
  }

  /** A second error removes nothing more: the user turn stays. */
  lemma DropReplyOnceAfterStart(a: Archive, text: string, newId: string)
    requires Valid(a)
    ensures var r := DropReply(StartTurn(a, text, newId));
      DropReply(r) == r
  {
    DropReplyAfterStart(a, text, newId);
  }

  /** A finished reply replaces the placeholder's text. */
  lemma SetLastTextAfterStart(a: Archive, text: string, newId: string, reply: string)
    requires Valid(a)
    ensures ActiveMessages(SetLastText(StartTurn(a, text, newId), reply)) ==
      ActiveMessages(OpenFor(a, text, newId)) + [Message(User, text), Message(Ai, reply)]
  {
    StartTurnAppends(a, text, newId);
    var m := ActiveMessages(StartTurn(a, text, newId));
    assert m[|m| - 1 := m[|m| - 1].(text := reply)] ==
      ActiveMessages(OpenFor(a, text, newId)) + [Message(User, text), Message(Ai, reply)];
  }

  // ---------------------------------------------------------------------
  // handleRetryOrEdit (lines 1647-1666)
  // ---------------------------------------------------------------------

  /** Take off the last two messages of the open conversation and return
      the text of the first of them, which is resent or put back in the
      input box; nothing happens with fewer than two messages. */
  function TakeLastTurn(a: Archive): (r: (Archive, Option<string>))
    requires Valid(a)
    ensures Valid(r.0) && r.0.activeId == a.activeId && Active(r.0) == Active(a)
    ensures OnlyActiveMessages(a, r.0)
    ensures var m := ActiveMessages(a);
      if |m| >= 2 then ActiveMessages(r.0) == m[..|m| - 2] && r.1 == Some(m[|m| - 2].text)
      else r == (a, None)
  {
    match Active(a)
    case None => (a, None)
    case Some(i) =>
      var m := a.convs[i].messages;
      if |m| < 2 then (a, None)
      else
        WithMessagesActive(a, i, m[..|m| - 2]);
        (WithMessages(a, i, m[..|m| - 2]), Some(m[|m| - 2].text))
  }

  /** Retrying right after a send undoes the send's history change and
      gives back the sent text. */
  lemma TakeLastTurnAfterStart(a: Archive, text: string, newId: string)
    requires Valid(a)
    ensures var b := OpenFor(a, text, newId);
      var r := TakeLastTurn(StartTurn(a, text, newId));
      r.1 == Some(text) && r.0 == b
  {
    var b := OpenFor(a, text, newId);
    var i := Active(b).value;
    StartTurnAppends(a, text, newId);
    var m := ActiveMessages(StartTurn(a, text, newId));
    assert m[..|m| - 2] == b.convs[i].messages;
    var r := TakeLastTurn(StartTurn(a, text, newId));
    assert r.0.convs == b.convs;
  }

  // ---------------------------------------------------------------------
  // summarizeConversation (lines 1447-1465)
  // ---------------------------------------------------------------------

  /** `text.split('\n')[0]`: the text up to the first newline. */
  function FirstLine(text: string): (r: string)
    ensures StartsWith(text, r)
    ensures !Includes(r, "\n")
    ensures r == text || (|r| < |text| && text[|r|] == '\n')
  {
    match IndexOf(text, "\n", 0)
    case None => text
    case Some(i) =>
      assert !Includes(text[..i], "\n") by {
        IncludesIff(text[..i], "\n");
        forall k | OccursAt(text[..i], "\n", k) ensures false {
          assert OccursAt(text, "\n", k);
          IndexOfFirst(text, "\n", 0, k);
        }
      }
      text[..i]
  }

  /** The new title: the first line cut to 40 characters, with `...` when
      the whole text is longer than 40. */
  function Title(text: string): (r: string)
    ensures |r| <= 43
    ensures |text| > 40 <==> EndsWith(r, "...") && |r| == |TakePrefix(FirstLine(text), 40)| + 3
    ensures StartsWith(r, TakePrefix(FirstLine(text), 40))
    ensures StartsWith(FirstLine(text), TakePrefix(FirstLine(text), 40))
    ensures |text| <= 40 ==> r == FirstLine(text)
    ensures |text| > 40 ==> r == TakePrefix(FirstLine(text), 40) + "..."
  {
    var head := TakePrefix(FirstLine(text), 40);
    if |text| > 40 then head + "..." else head
  }

  /** A title taken from a single line of at most 40 characters is that line. */
  lemma TitleOfShortLine(text: string)
    requires |text| <= 40 && !Includes(text, "\n")
    ensures Title(text) == text
  {
  }

  /** The index of the first user message. */
  function FirstUser(m: seq<Message>): (r: Option<nat>)
    ensures r.Some? ==> r.value < |m| && m[r.value].role == User
    ensures r.Some? ==> forall j :: 0 <= j < r.value ==> m[j].role != User
    ensures r.None? ==> forall j :: 0 <= j < |m| ==> m[j].role != User
  {
    if |m| == 0 then None
    else if m[0].role == User then Some(0)
    else
      match FirstUser(m[1..])
      case None => None
      case Some(i) => Some(i + 1)
  }

  /** `summarizeConversation`: retitle the open conversation from its first
      user message. */
  function Summarize(a: Archive): (r: Archive)
    requires Valid(a)
    ensures Valid(r) && r.activeId == a.activeId && |r.convs| == |a.convs|
    ensures forall j :: 0 <= j < |a.convs| ==>
      r.convs[j].id == a.convs[j].id && r.convs[j].messages == a.convs[j].messages
    ensures forall j :: 0 <= j < |a.convs| && Some(j) != Active(a) ==> r.convs[j] == a.convs[j]
    ensures FirstUser(ActiveMessages(a)).None? ==> r == a
    ensures FirstUser(ActiveMessages(a)).Some? ==>
      r.convs[Active(a).value].title == Title(ActiveMessages(a)[FirstUser(ActiveMessages(a)).value].text)
  {
    match Active(a)
    case None => a
    case Some(i) =>
      var m := a.convs[i].messages;
      match FirstUser(m)
      case None => a
      case Some(k) =>
        var r := Archive(a.convs[i := a.convs[i].(title := Title(m[k].text))], a.activeId);
        FindConvSameIds(a.convs, r.convs, a.activeId.value);
        r
  }

  /** Retitling twice is retitling once. */
  lemma SummarizeIdempotent(a: Archive)
    requires Valid(a)
    ensures Summarize(Summarize(a)) == Summarize(a)
  {
    var r := Summarize(a);
    if Active(a).Some? {
      FindConvSameIds(a.convs, r.convs, a.activeId.value);
      assert ActiveMessages(r) == ActiveMessages(a);
    }
  }
}

/** The history updated in place: `convs` and `activeId` as the fields of
    `History`, each method proved to perform its `Chats` function. */
module Histories {
  import opened Wrappers
  import opened JsText
  import opened Chats

  class History {
    var convs: seq<Conversation>
    var activeId: Option<string>

    function State(): Archive
      reads this
    {
      Archive(convs, activeId)
    }

    /** A fresh page: no conversations, none open. */
    constructor ()
      ensures State() == Archive([], None)
    {
      convs := [];
      activeId := None;
    }

    /** The history part of a first send. */
    method StartTurn(text: string, newId: string)
      requires Valid(State())
      modifies this
      ensures State() == Chats.StartTurn(old(State()), text, newId)
    {
      if activeId.None? {
        convs := [Conversation(newId, TakePrefix(text, 30), [])] + convs;
        activeId := Some(newId);
      }
      var i := Active(State());
      var m := convs[i.value].messages + [Message(User, text), Message(Ai, [])];
      convs := convs[i.value := convs[i.value].(messages := m)];
    }

    /** The history part of `finalizeError`. */
    method DropReply()
      requires Valid(State())
      modifies this
      ensures State() == Chats.DropReply(old(State()))
    {
      var i := Active(State());
      if i.Some? {
        var m := convs[i.value].messages;
        if |m| > 0 && m[|m| - 1].role == Ai {
          convs := convs[i.value := convs[i.value].(messages := m[..|m| - 1])];
        }
      }
    }

    /** The history part of `finishMessageProcessing`. */
    method SetLastText(text: string)
      requires Valid(State())
      modifies this
      ensures State() == Chats.SetLastText(old(State()), text)
    {
      var i := Active(State());
      if i.Some? {
        var m := convs[i.value].messages;
        if |m| > 0 {
          convs := convs[i.value := convs[i.value].(messages := m[|m| - 1 := m[|m| - 1].(text := text)])];
        }
      }
    }

    /** The splice of `handleRetryOrEdit`; returns the text to resend or edit. */
    method TakeLastTurn() returns (text: Option<string>)
      requires Valid(State())
      modifies this
      ensures (State(), text) == Chats.TakeLastTurn(old(State()))
    {
      text := None;
      var i := Active(State());
      if i.Some? {
        var m := convs[i.value].messages;
        if |m| >= 2 {
          text := Some(m[|m| - 2].text);
          convs := convs[i.value := convs[i.value].(messages := m[..|m| - 2])];
        }
      }
    }

    /** `summarizeConversation`. */
    method Summarize()
      requires Valid(State())
      modifies this
      ensures State() == Chats.Summarize(old(State()))
    {
      var i := Active(State());
      if i.Some? {
        var m := convs[i.value].messages;
        var k := FirstUser(m);
        if k.Some? {
          convs := convs[i.value := convs[i.value].(title := Title(m[k.value].text))];
        }
      }
    }
  }
}
