# Codeai streaming core, modelled in Dafny

Codeai is a browser code editor with an AI chat panel (`client/app.js`)
and a small Node relay (`server/server.js`). The relay forwards a chat
request to the model's streaming endpoint. It pulls each `"text"` field
out of the raw upstream bytes with a regular expression, and broadcasts
every field as a server-sent event to all connected browsers. The client
does four things:

- It appends each event's text to `safeBuffer`.
- It types the chat part of the buffer (everything before the first
  `<FILE` or `<DIFF`) into the reply one character per timer tick.
- It applies the `<FILE name="…">…</FILE>` and `<DIFF name="…">…</DIFF>`
  blocks it finds to the project's tabs. A DIFF block applies
  `<<<<<<< SEARCH … ======= … >>>>>>> REPLACE` hunks.
- When the server's sentinel `[STREAM COMPLETE]` arrives and the queue
  has drained, it finishes the reply.

The model has these parts:

- `wrappers.dfy` (`Wrappers`): the `Option` type.
- `js_text.dfy` (`JsText`): the JavaScript string operations the code
  relies on, written out over `seq<char>`. These are the `\s`/`trim()`
  whitespace set, `indexOf`/`includes`, `replace` with a string pattern
  (first occurrence) and with a global regex (every occurrence),
  `substring` clamping, and decimal rendering.
- `tag_scan.dfy` (`TagScan`): explicit scanners for the client's regular
  expressions. These are the block regex of line 362 (lazy body,
  back-referenced closing tag), the fence strip of line 371, the hunk
  regex of line 386 (with its backtracking order written out), and the
  `File:` section regex of line 1893.
- `project_files.dfy`:
  - `ProjectFiles` holds the tab list as a value and the pure
    transitions: upsert, DIFF patching, the block scan from
    `lastParsedIndex`, tab delete/rename/add, the z-index rule and
    `compileFullProject`.
  - `Workspaces` holds the same state as a class whose methods run the
    source's `while (exec)` loops and are proved to perform those
    functions.
- `chats.dfy`:
  - `Chats` holds the conversation history as a value: send, rollback,
    finish, retry/edit, title.
  - `Histories` holds the same history as a class.
- `streaming.dfy` (`Streaming`): the typing state machine (buffer,
  cursor, queue, typed text, end flag, pending timer, bubble) and its
  invariant.
- `client.dfy`:
  - `ClientRules` holds the retry backoff, the send-button rule and the
    status dots.
  - `Client.App` is the client's module-level state as one object. Its
    event handlers are methods over the workspace and the history.
- `server.dfy`:
  - `Upstream` models the read loop's text extraction: the regex as a
    scanner, the unescape chain, and the buffer trim.
  - `Relay` holds the subscriber registry, `broadcast` and the
    `/api/chat` handler as a class `Server` whose writes are logged.

Timers are explicit: a `timerPending` flag, with one method call per
firing. The network and `JSON.stringify` are parameters:

- an upstream response is a `Response` value carrying its decoded chunks;
- `JSON.stringify` of a message is the function `encode`;
- the streams whose `write` throws are the set `broken`.

Where the code and its documented design differ, the model follows the
code:

- The sentinel is detected per packet, not across packet boundaries.
- Only its first two occurrences in a packet are removed (line 184).
- Text after a closing tag is never typed. The chat display is cut at
  the first `<FILE`/`<DIFF` of the whole buffer (lines 321-325).
- `lastParsedIndex` is never reset between replies.
- There is no credential pool and no rate ledger.
- The unescape chain runs `\n` first. So an escaped backslash before `n`
  decodes to a backslash and a newline (`Upstream.UnescapeOrder`).

## Model

| member | source | states |
|---|---|---|
| JsText.SkipSpaces | client/app.js:362 | `\s*` from `i` stops within the text, at the end or at a character that is not white space |
| JsText.SkipSpacesAllSpace | client/app.js:362 | the run `\s*` skips consists of white space only |
| JsText.Trim | client/app.js:369 | `trim()` never lengthens the text, and its result neither starts nor ends with white space |
| JsText.TrimEmptyIff | client/app.js:1106 | a trimmed text is empty exactly when every character is white space |
| JsText.TrimIsInfix | client/app.js:369 | the trimmed text is the original with a white-space prefix and suffix removed |
| JsText.LiteralOccurs | server/server.js:82 | matching a literal character by character finds exactly its occurrences |
| JsText.IndexOf | client/app.js:396 | `indexOf` returns an index at or after `from` where the pattern occurs |
| JsText.IndexOfFirst | client/app.js:396 | no occurrence lies between `from` and the index found, and none at all when nothing is found |
| JsText.IndexOfFinds | client/app.js:396 | an occurrence at `j` is found from any `from <= j` |
| JsText.IncludesIff | client/app.js:396 | `includes` holds exactly when the pattern occurs somewhere |
| JsText.ReplaceFirst | client/app.js:397 | `replace(search, rep)` leaves a text without an occurrence unchanged; otherwise it splices `rep` in place of the first occurrence, changing the length by that of `rep` minus that of `search` |
| JsText.ReplaceFirstAfter | client/app.js:1837 | when the text before an occurrence holds none and the pattern's first character does not recur in it, `replace` splices at that occurrence |
| JsText.ReplaceAllAbsent | server/server.js:90 | a global replace of an absent pattern leaves the text unchanged |
| JsText.ReplaceAll | server/server.js:90 | the global literal replace of every occurrence, left to right; `ReplaceAllAbsent` states that an absent pattern leaves the text unchanged |
| JsText.DropFrom | client/app.js:328 | `substring(k)` clamps: the suffix from `k`, empty past the end |
| JsText.TakePrefix | client/app.js:1457 | `substring(0, n)` is the prefix of length `min(n, length)` |
| JsText.Decimal | client/app.js:1168 | the decimal rendering of a count is a non-empty string of digits with no leading zero |
| JsText.DecimalValue | client/app.js:1168 | read back as a decimal number, the rendering of `n` is `n` |
| JsText.DecimalInjective | client/app.js:1168 | different counts render as different strings |
| TagScan.KindAt | client/app.js:362 | `<(FILE\|DIFF)` at `p` needs a `<` there and five characters |
| TagScan.CloseTagShape | client/app.js:362 | the back-referenced closing tag has one `<`, at its start |
| TagScan.QuotedAt | client/app.js:362 | `"([^"]+)"` finds a non-empty quoted run |
| TagScan.AttrAt | client/app.js:362 | `(?:name\|file)\s*=\s*"([^"]+)"\s*>` yields a non-empty raw name and the index past `>` |
| TagScan.OpenTagAt | client/app.js:362 | an opening tag captures a non-empty name and its body starts after it; nothing matches where there is no `<` |
| TagScan.OpenTagNameNoQuote | client/app.js:362 | the captured name holds no quote |
| TagScan.BlockAt | client/app.js:362 | a block is an opening tag followed by the FIRST closing tag of the same kind (lazy body) |
| TagScan.BlockAtCloses | client/app.js:362 | a block body never contains its own closing tag |
| TagScan.NextBlock | client/app.js:365-367 | `exec` from `lastIndex` returns a block starting at or after it |
| TagScan.NextBlockHere | client/app.js:367 | a block at `lastIndex` itself is the one found |
| TagScan.NextBlockLeftmost | client/app.js:367 | no block starts between `lastIndex` and the one found, and none anywhere after when none is found |
| TagScan.NextBlockFinds | client/app.js:367 | a block at `p` is always found from any earlier `lastIndex`, no later than `p` |
| TagScan.OpenTagRendered | client/app.js:362 | a canonical `<FILE name="x">` opening tag is recognised with name `x` |
| TagScan.BlockAtRendered | client/app.js:362 | a well-formed block is recognised with its name and exact body |
| TagScan.BlockAtParts | client/app.js:362 | the block at `p` in terms of its opening tag and first closing tag |
| TagScan.StripFence | client/app.js:371 | stripping the fences never lengthens a body |
| TagScan.StripFenceOfFenced | client/app.js:371 | a body fenced as "```lang\n" … "```" gives back exactly the code |
| TagScan.StripFenceUnfenced | client/app.js:371 | a body with no fence at either end is kept as it is |
| TagScan.FirstCloseMarker | client/app.js:386 | the lazy replacement group ends at the first `\n>>>>>>>` followed by `\s*REPLACE` |
| TagScan.HunkAt | client/app.js:386 | a hunk matched at `p` has in-bounds search and replacement groups after the `SEARCH` line |
| TagScan.NextHunk | client/app.js:391 | `exec` of the hunk regex from `lastIndex` finds a hunk at or after it |
| TagScan.NextHunkHere | client/app.js:391 | a hunk at `lastIndex` itself is the one found |
| TagScan.NextHunkLeftmost | client/app.js:391 | `exec` finds the leftmost hunk |
| TagScan.HunkAtRendered | client/app.js:381-386 | a canonical SEARCH/REPLACE hunk is matched with exactly its search and replacement texts |
| TagScan.SectionAt | client/app.js:1893 | a `File:` section captures a non-empty name, and its code ends before a closing fence |
| TagScan.SectionCode | client/app.js:1893 | after the opening fence, an optional `\w*` label and a newline start the code, which ends before the next closing fence; the name is kept |
| TagScan.SectionAtShape | client/app.js:1893 | the section name is made of `[\w.-]` characters and the code stops at the first fence |
| TagScan.NextSection | client/app.js:1895 | `exec` finds a section at or after `lastIndex` |
| TagScan.NextSectionLeftmost | client/app.js:1895 | `exec` finds the leftmost section |
| TagScan.SectionAtRendered | client/app.js:1893 | a canonical `File: name` section with backtick-free code is matched with that name and exactly that code, ending after its closing fence |
| TagScan.NextSectionRendered | client/app.js:1895 | `exec` at a canonical section finds that section |
| ProjectFiles.FindIndex | client/app.js:1874 | `findIndex` returns the first tab with that name, or none when no tab has it |
| ProjectFiles.Upsert | client/app.js:1873-1889 | `updateFileContent` keeps the tab list valid |
| ProjectFiles.UpsertStores | client/app.js:1873-1889 | afterwards the tab with that name holds the content: the same tab as before, or a new last tab |
| ProjectFiles.UpsertOthers | client/app.js:1873-1889 | every other tab is untouched; the list grows exactly when the name was new; the active tab changes only when the list was empty |
| ProjectFiles.UpsertEditor | client/app.js:1877-1887 | the editor shows the new content exactly when the upserted tab is (or becomes) the active one |
| ProjectFiles.UpsertKeepsUnique | client/app.js:1873-1889 | at most one file per name is preserved |
| ProjectFiles.ApplyHunks | client/app.js:391-408 | once a hunk applied the flag stays set; with no hunk applied the text is unchanged |
| ProjectFiles.ApplyOneHunk | client/app.js:391-399 | a body with one canonical hunk replaces the first occurrence of its search text, or skips it when absent |
| ProjectFiles.ApplyDiff | client/app.js:375-418 | a DIFF block keeps the tab count and the active index |
| ProjectFiles.ApplyDiffOnlyTarget | client/app.js:378-417 | only the target file's content can change, no name changes, no file is created; with no target or no applicable hunk nothing changes |
| ProjectFiles.ApplyDiffKeepsUnique | client/app.js:378-417 | a DIFF keeps names unique |
| ProjectFiles.ApplyBlock | client/app.js:368-375 | one block upserts (FILE) or patches (DIFF) its trimmed name with its fence-stripped body and keeps the project valid |
| ProjectFiles.SyncFrom | client/app.js:358-423 | the scan from `lastParsedIndex` never moves it backwards and stops where no further block exists |
| ProjectFiles.SyncAgainIsNoop | client/app.js:365-420 | rescanning from the saved index applies nothing: no block is applied twice |
| ProjectFiles.SyncAppliesFileBlock | client/app.js:367-374 | a complete FILE block at the saved index is applied with trimmed name and content, and the index moves past its closing tag |
| ProjectFiles.SyncStep | client/app.js:367-420 | each step applies the next block and moves the index strictly forwards to its end |
| ProjectFiles.SyncKeepsUnique | client/app.js:358-423 | the block scan keeps names unique |
| ProjectFiles.SyncSections | client/app.js:1892-1898 | the `File:` scan keeps the project valid |
| ProjectFiles.SyncSectionsKeepsUnique | client/app.js:1892-1898 | the `File:` scan keeps names unique |
| ProjectFiles.SyncAppliesSection | client/app.js:1895-1896 | a canonical section at the scan position upserts its trimmed name with its trimmed code, and the scan resumes after its closing fence |
| ProjectFiles.SyncSectionsNone | client/app.js:1892-1898 | text without `File:` leaves the project unchanged |
| ProjectFiles.DeleteTab | client/app.js:880-885 | deleting keeps the project valid, and does nothing with one tab or no tab selected |
| ProjectFiles.DeleteTabRemoves | client/app.js:881 | exactly that tab is removed; the others keep their order |
| ProjectFiles.DeleteTabActive | client/app.js:882-885 | the active file stays the same unless it was deleted (then the next, or the new last, becomes active); the editor shows the active file |
| ProjectFiles.RenameTab | client/app.js:1103-1112 | renaming keeps the tab count, the active index and the editor |
| ProjectFiles.RenameTabSpec | client/app.js:1105-1107 | only tab `i`'s name changes, to the trimmed name, and nothing happens for a blank name |
| ProjectFiles.UntitledName | client/app.js:1168 | a new tab's name is `Untitled<n>.html` |
| ProjectFiles.AddNewTab | client/app.js:1166-1174 | a new last tab is added and made active |
| ProjectFiles.AddNewTabSpec | client/app.js:1167-1171 | the new tab is empty and named for the tab count; the old active tab saves the editor; the editor is emptied |
| ProjectFiles.ZIndex | client/app.js:1132-1139 | z-index 5000 exactly for the active tab, at most 100 for the others |
| ProjectFiles.ZIndexLeftCovers | client/app.js:1135-1138 | the active tab is on top and each inactive tab covers the ones to its right |
| ProjectFiles.PageOfFirstHtml | client/app.js:1827 | the page is the content of the first `.html` file |
| ProjectFiles.OfExt | client/app.js:1828-1830 | `filter` by extension keeps only files of the list that end in the extension |
| ProjectFiles.Wrapped | client/app.js:1828-1830 | one entry per file of the extension, in tab order, each exactly the opening tag, the content (trimmed for Python) and the closing tag |
| ProjectFiles.WrappedEmptyIff | client/app.js:1828-1830 | nothing is wrapped exactly when no file has the extension |
| ProjectFiles.PythonEnabledIff | client/app.js:1830-1833 | Brython is loaded exactly when some file ends in `.py` |
| ProjectFiles.PageOf | client/app.js:1827 | the page: `PageOfFirstHtml` states it is the first `.html` file's content |
| ProjectFiles.CssPart | client/app.js:1828 | the `.css` files wrapped as `Wrapped` states, joined with newlines |
| ProjectFiles.JsPart | client/app.js:1829 | the `.js` files wrapped as `Wrapped` states, joined with newlines |
| ProjectFiles.PyPart | client/app.js:1830 | the trimmed `.py` files wrapped as `Wrapped` states, joined with newlines; `PythonEnabledIff` states when it is blank |
| ProjectFiles.ReplaceBodyTag | client/app.js:1838 | `/<body/i` replaced at its first case-insensitive occurrence |
| ProjectFiles.CompileFullProject | client/app.js:1826-1844 | the compiled page: `CompileInsertsParts` and `CompileWithoutMarkers` state what it is |
| ProjectFiles.CompileWithoutMarkers | client/app.js:1837-1842 | with no Python and no `</head>`/`</body>` the page is served unchanged |
| ProjectFiles.CompileWithoutPython | client/app.js:1832-1842 | with no Python the Python part is empty and only the two literal replacements apply |
| ProjectFiles.CompileInsertsParts | client/app.js:1826-1844 | with no Python, the styles and a newline go right before the page's first `</head>`, the scripts and Python part each with a newline right before its first `</body>`, and the rest of the page is kept |
| Workspaces.RunHunks | client/app.js:386-408 | the `while (exec)` hunk loop computes exactly `ApplyHunks` |
| Workspaces.Workspace.constructor | client/app.js:18-20 | the page starts with one `index.html` tab, active, and scan index 0 |
| Workspaces.Workspace.ResetProject | client/app.js:961-962 | a new conversation resets the project to one `index.html` tab |
| Workspaces.Workspace.UpdateFileContent | client/app.js:1873-1889 | the in-place update performs `Upsert` and keeps the scan index |
| Workspaces.Workspace.ApplyDiffBlock | client/app.js:378-417 | the in-place DIFF performs `ApplyDiff` |
| Workspaces.Workspace.ApplyOneBlock | client/app.js:368-419 | the loop body performs `ApplyBlock` on the matched block |
| Workspaces.Workspace.ProcessFilesUpdate | client/app.js:358-423 | the block loop ends in exactly the project and `lastParsedIndex` that `SyncFrom` gives |
| Workspaces.Workspace.ExtractAndSyncFiles | client/app.js:1892-1898 | the section loop performs `SyncSections` from the start |
| Workspaces.Workspace.DeleteTab | client/app.js:875-888 | the in-place delete performs `DeleteTab` |
| Workspaces.Workspace.RenameTab | client/app.js:1103-1112 | the in-place rename performs `RenameTab` |
| Workspaces.Workspace.AddNewTab | client/app.js:1166-1174 | the in-place add performs `AddNewTab` |
| Chats.FindConv | client/app.js:968 | `convs.find` gives the first conversation with the id, or none |
| Chats.Active | client/app.js:968 | the open conversation exists whenever an id is open |
| Chats.WithMessagesActive | client/app.js:969-974 | changing the open conversation's messages keeps it open and valid |
| Chats.OpenFor | client/app.js:959-966 | with nothing open, a new conversation titled with the first 30 characters is put first and opened; otherwise nothing changes |
| Chats.StartTurn | client/app.js:959-975 | the send bookkeeping keeps the history valid |
| Chats.StartTurnAppends | client/app.js:968-974 | a send appends exactly the user turn and an empty reply placeholder to the open conversation and touches no other |
| Chats.DropReply | client/app.js:1394-1398 | the last message is removed exactly when it is a reply; the other conversations, the list length and the open one's id and title are kept |
| Chats.SetLastText | client/app.js:253-255 | the typed reply becomes the last message's text; the other conversations, the list length and the open one's id and title are kept |
| Chats.DropReplyAfterStart | client/app.js:1394-1398 | an error after a send removes the placeholder and keeps the user turn |
| Chats.DropReplyOnceAfterStart | client/app.js:1394-1398 | a second rollback removes nothing more |
| Chats.SetLastTextAfterStart | client/app.js:253-255 | finishing after a send fills the placeholder with the reply |
| Chats.TakeLastTurn | client/app.js:1649-1654 | with two or more messages the last two are spliced off and the user text returned, keeping the other conversations and the open one's id and title; otherwise nothing happens |
| Chats.TakeLastTurnAfterStart | client/app.js:1647-1654 | a retry right after a send undoes its history change and returns the sent text |
| Chats.FirstLine | client/app.js:1457 | `split('\n')[0]` is a newline-free prefix that is the whole text or stops right before a newline |
| Chats.Title | client/app.js:1457-1458 | a text of at most 40 characters is titled by its first line; a longer one by its first line cut to 40 characters followed by `...` |
| Chats.TitleOfShortLine | client/app.js:1457-1458 | a single line of at most 40 characters is its own title |
| Chats.FirstUser | client/app.js:1453 | the first user message, or none |
| Chats.Summarize | client/app.js:1447-1465 | only the open conversation's title changes, to the title of its first user message |
| Chats.SummarizeIdempotent | client/app.js:1447-1465 | retitling twice is retitling once |
| Histories.History.constructor | client/app.js:17 | no conversation is open at the start |
| Histories.History.StartTurn | client/app.js:959-975 | the in-place send performs `StartTurn` |
| Histories.History.DropReply | client/app.js:1394-1398 | the in-place rollback performs `DropReply` |
| Histories.History.SetLastText | client/app.js:253-256 | the in-place store performs `SetLastText` |
| Histories.History.TakeLastTurn | client/app.js:1648-1654 | the in-place splice performs `TakeLastTurn` |
| Histories.History.Summarize | client/app.js:1447-1465 | the in-place retitle performs `Summarize` |
| Streaming.MarkerFrom | client/app.js:322 | `/<(FILE\|DIFF)/` finds a tag start at or after `i` |
| Streaming.MarkerFromFirst | client/app.js:322 | no tag start lies before the one found |
| Streaming.MarkerFromExtend | client/app.js:313-322 | appending keeps an existing first tag start; a new one ends past the old text |
| Streaming.ChatDisplay | client/app.js:321-325 | the chat text is a prefix of the buffer, and the whole buffer exactly when it has no tag start |
| Streaming.ChatDisplayCut | client/app.js:322-323 | no tag starts inside the chat text, and when it is not the whole buffer a tag starts right after it |
| Streaming.Reset | client/app.js:952-955 | the send reset empties the buffers, clears the end flag and the bubble, and keeps a pending timer |
| Streaming.TypeDelay | client/app.js:222-223 | the delay is 2, 5 or 15 |
| Streaming.TypeDelayNonIncreasing | client/app.js:222-223 | a longer queue never types more slowly |
| Streaming.Finish | client/app.js:243-245 | finishing clears the timer and the end flag and keeps the text |
| Streaming.Tick | client/app.js:209-235 | a firing moves one queued character to the typed text and reschedules with `TypeDelay`, or with an empty queue stops, finishing exactly when the server ended |
| Streaming.AddChunk | client/app.js:293-337 | a chunk grows the buffer by itself; the bubble opens on the first non-blank chunk |
| Streaming.Received | client/app.js:176-190 | a packet's end flag and chunk: `PacketEnding` and `PacketValid` state its effect |
| Streaming.Packet | client/app.js:174-200 | a whole packet: `PacketEnding` states when it finishes and `PacketValid` that it keeps the invariant |
| Streaming.Enqueue | client/app.js:328-337 | queueing touches neither the buffer nor the end flag |
| Streaming.StripSentinel | client/app.js:184 | text without the sentinel is untouched |
| Streaming.PacketChunk | client/app.js:176-185 | a packet without the sentinel keeps its text |
| Streaming.NoMarkerShown | client/app.js:321-332 | the typed and queued text never contains `<FILE` or `<DIFF` |
| Streaming.ShownBeforeMarker | client/app.js:321-337 | typed + queued text is a prefix of the buffer: all of it without a tag, at most four characters into the first tag otherwise |
| Streaming.TickValid | client/app.js:209-235 | a firing keeps `typed ++ queue == buffer[..cursor]` and the timer invariant |
| Streaming.FinishValid | client/app.js:241-245 | finishing with an empty queue keeps the invariant |
| Streaming.ChunkConsistent | client/app.js:313-332 | a chunk queues exactly the new chat text past the cursor and keeps `typed ++ queue == buffer[..cursor]` |
| Streaming.EnqueueValid | client/app.js:328-337 | queueing keeps the invariant, moves the cursor forwards and adds exactly the new text |
| Streaming.AddChunkValid | client/app.js:293-337 | a chunk keeps the invariant, never moves the cursor back, and queues exactly the new chat text |
| Streaming.PacketValid | client/app.js:174-200 | a packet keeps the invariant |
| Streaming.PacketEnding | client/app.js:180-199 | a sentinel or `done` packet ends the reply (finished now, or marked for the timer); it finishes only with an empty queue and no timer; the rest is processed only when non-empty |
| Streaming.StripSentinelTwoOnly | client/app.js:184 | only the first two sentinels are removed |
| Streaming.DrainFinishesAtMostOnce | client/app.js:227-233 | the timer finishes a reply at most once per end signal |
| Streaming.Drain | client/app.js:209-233 | `n` timer firings in a row: `DrainTypesAllThenFinishes` states where they end |
| Streaming.DrainTypesAllThenFinishes | client/app.js:209-233 | once ended, the timer types the whole queue, then finishes exactly once and leaves no timer |
| ClientRules.Pow2 | client/app.js:1905 | `Math.pow(2, n)` is at least 1; `RetriesDouble` states the doubling |
| ClientRules.Run503s | client/app.js:1901-1913 | the delays of `n` consecutive 503s, one per 503 |
| ClientRules.On503 | client/app.js:1904-1911 | below 5 retries the counter goes up and the delay is `2^(count+1)`; at 5 it gives up and resets to 0 |
| ClientRules.RetriesDouble | client/app.js:1904-1908 | consecutive 503s below the cap double the delay each time |
| ClientRules.BackoffSchedule | client/app.js:1901-1913 | from a fresh send, retries come after 2, 4, 8, 16, 32 seconds, and the sixth 503 gives up with the counter at 0 |
| ClientRules.SendEnabled | client/app.js:1559-1568 | the send button is enabled exactly when the input has a non-space character and nothing streams |
| ClientRules.StepDots | client/app.js:1329-1339 | one dots tick: `StepDotsValid`, `DotsPeriod` and `DotsCycle` state its behaviour |
| ClientRules.StepDotsValid | client/app.js:1329-1339 | the dot counter stays in 0..3 and moves by one per tick |
| ClientRules.DotsPeriod | client/app.js:1329-1339 | six ticks bring the dots back to where they were |
| ClientRules.DotsCycle | client/app.js:1317-1339 | from `showStatus` the dots go 2, 1, 0, 1, 2, 3 |
| Client.App.constructor | client/app.js:12-22 | a fresh page: empty buffers, no timer, no conversation, retry counter 0 |
| Client.App.ShowStatus | client/app.js:1312-1318 | `showStatus` restarts the dots at three, falling |
| Client.App.DotTick | client/app.js:1329-1345 | an interval firing steps the dots and changes nothing else |
| Client.App.Persist | client/app.js:249-280 | with a conversation open and a bubble, the reply is stored and the buffer scanned for files; otherwise nothing changes |
| Client.App.FinishMessageProcessing | client/app.js:241-284 | finishing clears timer and end flag, stops streaming, and stores and scans only when a conversation and bubble exist |
| Client.App.TypeLoop | client/app.js:209-235 | one firing performs `Tick`; a finishing firing stops streaming |
| Client.App.TypeNext | client/app.js:210-225 | `shift` + append + reschedule performs the non-empty branch of `Tick` |
| Client.App.Enqueue | client/app.js:328-337 | the push loop and `startTyping` perform `Enqueue` |
| Client.App.ProcessTextChunk | client/app.js:293-341 | the typing state follows `AddChunk`, then the files follow `SyncFrom` of the whole buffer from the saved index |
| Client.App.AppendChunk | client/app.js:294-337 | the typing part performs `AddChunk` |
| Client.App.HandleServerPacket | client/app.js:174-200 | a packet performs `Packet`; the reply is stored and the files scanned exactly as the finish and chunk rules say |
| Client.App.ReceiveText | client/app.js:176-190 | the end flag and the stripped text follow `PacketChunk`; the chunk is processed only when non-empty |
| Client.App.FinishIfDone | client/app.js:193-199 | it finishes exactly when the server ended, the queue is empty and no timer is pending |
| Client.App.FinalizeError | client/app.js:1381-1399 | streaming stops and the last history entry is popped only when it is a reply |
| Client.App.Handle503Error | client/app.js:1901-1913 | the counter and delay follow `On503`; giving up rolls the placeholder back |
| Client.App.ResetBuffers | client/app.js:979-983 | the status restarts, and the buffers, queue, cursor and bubble are reset with streaming on and the end flag off |
| Client.App.OpenTurn | client/app.js:959-975 | a first send opens a conversation (with a fresh project) when none is open, then pushes the user turn and placeholder |
| Client.App.SendMessage | client/app.js:930-983 | an empty text does nothing; a first send zeroes the counter and pushes the turn; every send resets the buffers |
| Client.App.OnResponse | client/app.js:993-1006 | a 503 follows `On503`; an ok status zeroes the counter; any other status only logs |
| Client.App.HandleRetryOrEdit | client/app.js:1647-1666 | the last turn is spliced off; edit puts its text in the input and changes nothing else; retry sends it again as a new send (typing state reset, streaming on, counter 0), and an empty text leaves the spliced history with nothing sent; the workspace is untouched |
| Upstream.BodyEnd | server/server.js:82 | the capture `(?:[^"\\]\|\\.)*` ends at a quote |
| Upstream.MatchAt | server/server.js:82 | a match at `p` has its capture between two quotes after the key |
| Upstream.MatchStartsWithKey | server/server.js:82 | every match starts with the literal `"text":` |
| Upstream.NextMatch | server/server.js:87 | `exec` from `lastIndex` finds a match after it |
| Upstream.NextMatchLeftmost | server/server.js:87 | `exec` finds the leftmost match |
| Upstream.Fields | server/server.js:87-95 | the captures of the `exec` loop: `ScanCons` and `QuietReadRepeats` state them |
| Upstream.ScanFrom | server/server.js:87-95 | what the loop broadcasts from `lastIndex`: `ScanCons` and `DecodeNonEmpty` state it |
| Upstream.ReadEvents | server/server.js:82-95 | one read scans the whole buffer from 0: `QuietReadRepeats` and `OneField` state it |
| Upstream.Kept | server/server.js:92 | a capture is broadcast exactly when it unescapes to a non-empty text |
| Upstream.ScanCons | server/server.js:87-95 | one turn of the `exec` loop: the current match's broadcast comes before the rest |
| Upstream.DecodeNonEmpty | server/server.js:92 | no broadcast text of a read is empty |
| Upstream.Retain | server/server.js:98 | after each read the buffer has at most 20000 characters; over that it keeps exactly its last 5000 |
| Upstream.StreamEvents | server/server.js:71-99 | the broadcasts of all reads: `StreamEventsNonEmpty` and `ReadStep` state them |
| Upstream.StreamEventsNonEmpty | server/server.js:92 | no text broadcast by the read loop is empty |
| Upstream.UnescapeSteps | server/server.js:90 | unescaping replaces `\n`, then `\"`, then `\\`, in that order, everywhere |
| Upstream.Unescape | server/server.js:90 | the unescape chain: `UnescapeSteps`, `UnescapePlain`, `UnescapeEscapes` and `UnescapeOrder` state it |
| Upstream.UnescapePlain | server/server.js:90 | text without a backslash is unchanged by unescaping |
| Upstream.UnescapeEscapes | server/server.js:90 | each escape alone decodes to its character |
| Upstream.UnescapeOrder | server/server.js:90 | the order shows: `\\n` decodes to a backslash and a newline |
| Upstream.QuietReadRepeats | server/server.js:82-95 | because the regex is recreated for each read, a read adding no quote or backslash re-broadcasts the same fields |
| Upstream.OneField | server/server.js:82-95 | a buffer with one complete plain field broadcasts exactly that field |
| Relay.Frame | server/server.js:21 | one event-stream frame: `FrameParts` states its shape |
| Relay.FrameParts | server/server.js:21 | every frame is `data: ` + JSON + blank line |
| Relay.Fanout | server/server.js:22-25 | the writes of one broadcast: `FanoutAppend` and `FanoutReaches` state them |
| Relay.Deliveries | server/server.js:20-26 | the writes of several broadcasts in turn: `DeliveriesStep` and `ReadStep` state them |
| Relay.FanoutAppend | server/server.js:22-25 | writes follow the subscriber list order |
| Relay.FanoutReaches | server/server.js:22-25 | every working stream gets the frame; a throwing one gets nothing and the loop goes on |
| Relay.DeliveriesStep | server/server.js:87-95 | one match sends its unescaped capture unless empty, then the rest |
| Relay.ReadStep | server/server.js:71-98 | one read sends its fields, then the reads after it on the trimmed buffer |
| Relay.Without | server/server.js:132 | `filter` by id: `WithoutMembers`, `WithoutAppend` and `CloseAfterConnect` state it |
| Relay.WithoutMembers | server/server.js:132 | closing keeps exactly the entries with another id |
| Relay.WithoutAppend | server/server.js:132 | closing keeps the order of the remaining entries |
| Relay.CloseAfterConnect | server/server.js:122-133 | a close undoes its connect when the id was unique |
| Relay.ChatEvents | server/server.js:31-108 | what `/api/chat` broadcasts and answers: `ChatOutcomes` states it |
| Relay.Outcome | server/server.js:40-108 | the outcome once the key is set: `ChatOutcomes` states it |
| Relay.ChatOutcomes | server/server.js:35-108 | no key: exactly the one message, `no-key`; refused: exactly `' '` then `API Error: …`, `error`; streamed: `' '`, the non-empty fields of the read loop, then the sentinel, `ok`; thrown: `' '`, the fields read so far, then `Server Error.`, `error` |
| Relay.Server.constructor | server/server.js:18 | no subscriber and nothing written at start |
| Relay.Server.Connect | server/server.js:122-123 | connecting appends `{id, res}` |
| Relay.Server.Close | server/server.js:130-133 | closing removes every entry with the id |
| Relay.Server.Broadcast | server/server.js:20-26 | the frame is written to every non-throwing subscriber in list order; the list is unchanged |
| Relay.Server.BroadcastRead | server/server.js:82-95 | one read broadcasts every field of the whole buffer, in order |
| Relay.Server.Exec | server/server.js:87-95 | one loop turn sends exactly what the match accounts for and advances `lastIndex` |
| Relay.Server.ReadAll | server/server.js:71-99 | the read loop sends `StreamEvents` of the reads with the buffer trimmed after each |
| Relay.Server.HandleChat | server/server.js:31-108 | the status and the broadcasts are those of `ChatEvents` |
| Relay.Server.Respond | server/server.js:40-108 | after the opening `' '`, the refused, streamed and thrown outcomes send their texts and status |
| Relay.Server.RelayStream | server/server.js:71-106 | the read loop's broadcasts, then the closing text |

## Left out

- DOM work is not modelled: element creation, `marked`/Prism rendering, scrolling, the Arabic direction class (line 314), modals, touch gestures, the font scale and the service worker. These are user interface only. The bubble is kept as a flag.
- `localStorage` is not modelled: `saveState` and the settings are storage I/O, and the model treats `saveState` as doing nothing.
- Timers are not real: `setTimeout`/`setInterval` are a pending flag plus one method call per firing. Delays are returned or stated, never waited for.
- Client.App.Handle503Error: the retry's `setTimeout(() => sendMessage(text, true))` is returned as a delay for the caller to act on. `clearTimeout(retryTimeout)` cancels nothing, because `retryTimeout` is never assigned.
- `fetch`, Express, the event-stream transport, `TextDecoder` and JSON are not modelled. An upstream response is a `Response` value of decoded chunks. `JSON.stringify` is the parameter `encode`. A throwing `write` is a stream in the set `broken`.
- The heartbeat (server/server.js:126-128) is not modelled: it is timer I/O whose comment lines clients ignore.
- Concurrency is not modelled: the async interleaving of `fetch` with incoming events is left to the caller's order of method calls.
- Brython and `runCode` are not modelled. `compileFullProject`'s string is the end of the model.
- The whitespace-collapsed strings at client/app.js:402-403 are computed but never used, so they are not modelled.
- JsText.ReplaceFirst: replacement text is inserted literally. JavaScript's `$` patterns in the replacement (lines 397, 1837, 1842) are not interpreted.
- Strings are sequences of Unicode scalar values, not UTF-16 code units, so `length` differs from JavaScript for characters outside the Basic Multilingual Plane.
- Client.App.OnResponse: the simulation mode after a caught error is commented out in the source, and the model only logs.
- A new conversation's `files: projectFiles` entry and its `code: ''` field (client/app.js:963) are not modelled: the stored project is only read back by browsing the history, which is user interface.
- Client.App.DotTick: whether `removeStatus` has cleared the interval (client/app.js:1370) is not tracked; a firing after it would step the dots, which only the caller's order of calls rules out.
- ProjectFiles.CompileFullProject: the case with Python (Brython loader and `onload` on the first `<body`) is stated only through `PythonEnabledIff`, not by a lemma on the resulting page.
- Server-side fields the handler reads but only pastes into the prompt (`message`, `code`) are not modelled, because the prompt text goes to `fetch`.
