/** The project the editor holds (client/app.js): a list of named files
    (`projectFiles`), the index of the active tab (`activeFileIndex`) and the
    text in the code area (`codeArea.value`), together with the operations
    that change them: the upsert `updateFileContent`, the FILE/DIFF scan of
    `processFilesUpdate`, the `File:` scan of `extractAndSyncFiles`, and the
    tab operations delete, rename and add. The operations are functions on a
    `Project` value; the class `Workspace` at the end performs them in place,
    with the loops the source runs, and is proved against these functions. */
module ProjectFiles {
  import opened Wrappers
  import opened JsText
  import opened TagScan

  datatype File = File(name: string, content: string)

  /** The tab list, the active index, and the code area's text, which may
      differ from the active file's stored content until it is saved back. */
  datatype Project = Project(files: seq<File>, active: nat, editor: string)

  /** The active index names a tab, or there are no tabs and it is 0. */
  predicate Valid(p: Project) {
    p.active < |p.files| || (p.files == [] && p.active == 0)
  }

  predicate UniqueNames(files: seq<File>) {
    forall i, j :: 0 <= i < j < |files| ==> files[i].name != files[j].name
  }

  /** `projectFiles.findIndex(f => f.name === name)`: the first tab with that name. */
  function FindIndex(files: seq<File>, name: string): (r: Option<nat>)
    ensures r.Some? ==> r.value < |files| && files[r.value].name == name
    ensures r.Some? ==> forall j :: 0 <= j < r.value ==> files[j].name != name
    ensures r.None? ==> forall j :: 0 <= j < |files| ==> files[j].name != name
  {
    if |files| == 0 then None
    else if files[0].name == name then Some(0)
    else
      match FindIndex(files[1..], name)
      case None => None
      case Some(i) => Some(i + 1)
  }

  // ---------------------------------------------------------------------
  // updateFileContent (lines 1873-1889)
  // ---------------------------------------------------------------------

  /** `updateFileContent(name, content)`: overwrite the content of the first
      file with that name, showing it in the editor when it is the active
      tab; otherwise append a new file, which becomes the active one when it
      is the only tab. */
  function Upsert(p: Project, name: string, content: string): (r: Project)
    requires Valid(p)
    ensures Valid(r)
  {
    match FindIndex(p.files, name)
    case Some(i) =>
      Project(p.files[i := p.files[i].(content := content)], p.active,
              if i == p.active then content else p.editor)
    case None =>
      var files := p.files + [File(name, content)];
      if |files| == 1 then Project(files, 0, content) else Project(files, p.active, p.editor)
  }

  /** After the upsert the file of that name holds the new content: it is
      the same tab as before, or a new last tab when there was none. */
  lemma UpsertStores(p: Project, name: string, content: string)
    requires Valid(p)
    ensures var r := Upsert(p, name, content);
      var k := if FindIndex(p.files, name).Some? then FindIndex(p.files, name).value else |p.files|;
      FindIndex(r.files, name) == Some(k) && r.files[k] == File(name, content)
  {
    var r := Upsert(p, name, content);
    match FindIndex(p.files, name)
    case Some(i) =>
      assert forall j :: 0 <= j < i ==> r.files[j] == p.files[j];
      FindIndexAt(r.files, name, i);
    case None =>
      FindIndexAt(r.files, name, |p.files|);
  }

  /** The first tab named `name` is at `k` when it is named so and no
      earlier one is. */
  lemma {:induction false} FindIndexAt(files: seq<File>, name: string, k: nat)
    requires k < |files| && files[k].name == name
    requires forall j :: 0 <= j < k ==> files[j].name != name
    ensures FindIndex(files, name) == Some(k)
  {
    if k > 0 {
      FindIndexAt(files[1..], name, k - 1);
    }
  }

  /** Every other tab is untouched, the tab list grows exactly when the name
      was new, and the active tab changes only when the list was empty. */
  lemma UpsertOthers(p: Project, name: string, content: string)
    requires Valid(p)
    ensures var r := Upsert(p, name, content);
      (forall j :: 0 <= j < |p.files| && FindIndex(p.files, name) != Some(j) ==> r.files[j] == p.files[j])
      && |r.files| == (if FindIndex(p.files, name).Some? then |p.files| else |p.files| + 1)
      && (p.files != [] ==> r.active == p.active)
  {
  }

  /** The editor shows the new content exactly when the upserted file is the
      active tab afterwards and was not already showing other text. */
  lemma UpsertEditor(p: Project, name: string, content: string)
    requires Valid(p)
    ensures var r := Upsert(p, name, content);
      r.editor == (if FindIndex(p.files, name) == Some(p.active) || p.files == [] then content else p.editor)
  {
  }

  /** The upsert keeps names unique ("at most one file per name"). */
  lemma UpsertKeepsUnique(p: Project, name: string, content: string)
    requires Valid(p) && UniqueNames(p.files)
    ensures UniqueNames(Upsert(p, name, content).files)
  {
    var r := Upsert(p, name, content);
    match FindIndex(p.files, name)
    case Some(i) =>
      assert forall j :: 0 <= j < |r.files| ==> r.files[j].name == p.files[j].name;
    case None =>
      assert forall j :: 0 <= j < |p.files| ==> r.files[j] == p.files[j];
  }

  // ---------------------------------------------------------------------
  // DIFF blocks (lines 378-417)
  // ---------------------------------------------------------------------

  /** The hunk loop over a DIFF body, from index `from` of `body` on: each
      hunk whose search text occurs in the running `text` replaces its first
      occurrence there, and a hunk whose search text is absent is skipped.
      The result is the final text and whether any hunk applied. */
  function ApplyHunks(body: string, from: nat, text: string, changed: bool): (r: (string, bool))
    ensures changed ==> r.1
    ensures !r.1 ==> r.0 == text
    decreases |body| - from
  {
    match NextHunk(body, from)
    case None => (text, changed)
    case Some(h) =>
      var search := SearchText(body, h);
      if Includes(text, search) then
        ApplyHunks(body, h.end, ReplaceFirst(text, search, ReplaceText(body, h)), true)
      else ApplyHunks(body, h.end, text, changed)
  }

  /** A DIFF body holding one canonical hunk replaces the first occurrence
      of its search text, or changes nothing when that text is absent. */
  lemma ApplyOneHunk(search: string, replace: string, text: string)
    requires search != [] && !IsSpace(search[0]) && !Includes(search, "\n=======")
    requires replace != [] && !IsSpace(replace[0]) && !Includes(replace, "\n>>>>>>>")
    ensures ApplyHunks(HunkText(search, replace), 0, text, false)
      == if Includes(text, search) then (ReplaceFirst(text, search, replace), true) else (text, false)
  {
    var body := HunkText(search, replace);
    HunkTextAlone(search, replace);
    ApplyLastHunk(body, NextHunk(body, 0).value, text, search, replace);
  }

  /** The canonical hunk on its own is found at its start and spans the
      whole text. */
  lemma HunkTextAlone(search: string, replace: string)
    requires search != [] && !IsSpace(search[0]) && !Includes(search, "\n=======")
    requires replace != [] && !IsSpace(replace[0]) && !Includes(replace, "\n>>>>>>>")
    ensures var body := HunkText(search, replace); var e := 15 + |search|;
      var h := Hunk(0, 15, e, e + 9, e + 9 + |replace|, |body|);
      NextHunk(body, 0) == Some(h) && SearchText(body, h) == search && ReplaceText(body, h) == replace
  {
    var body := HunkText(search, replace);
    var e := 15 + |search|;
    var h := Hunk(0, 15, e, e + 9, e + 9 + |replace|, |body|);
    HunkTextAt(body, search, replace);
    NextHunkHere(body, 0);
  }

  lemma HunkTextAt(body: string, search: string, replace: string)
    requires search != [] && !IsSpace(search[0]) && !Includes(search, "\n=======")
    requires replace != [] && !IsSpace(replace[0]) && !Includes(replace, "\n>>>>>>>")
    requires body == HunkText(search, replace)
    ensures var e := 15 + |search|;
      var h := Hunk(0, 15, e, e + 9, e + 9 + |replace|, |body|);
      HunkAt(body, 0) == Some(h) && SearchText(body, h) == search && ReplaceText(body, h) == replace
  {
    assert body[0..|body|] == body;
    HunkAtRendered(body, 0, search, replace);
    HunkPositions(body, search, replace);
  }

  /** The two spellings of the canonical hunk's positions agree. */
  lemma HunkPositions(body: string, search: string, replace: string)
    requires |body| == |search| + |replace| + 40
    ensures var e := 0 + 15 + |search|; var t := e + 9 + |replace|;
      Hunk(0, 0 + 15, e, e + 9, t, t + 16)
        == Hunk(0, 15, 15 + |search|, 15 + |search| + 9, 15 + |search| + 9 + |replace|, |body|)
  {
  }

  /** The hunk loop over a body whose only hunk is `h`. */
  lemma ApplyLastHunk(body: string, h: Hunk, text: string, search: string, replace: string)
    requires NextHunk(body, 0) == Some(h) && h.end == |body|
    requires SearchText(body, h) == search && ReplaceText(body, h) == replace
    ensures ApplyHunks(body, 0, text, false)
      == if Includes(text, search) then (ReplaceFirst(text, search, replace), true) else (text, false)
  {
    assert NextHunk(body, h.end) == None;
    var text' := ReplaceFirst(text, search, replace);
    assert ApplyHunks(body, h.end, text', true) == (text', true);
    assert ApplyHunks(body, h.end, text, false) == (text, false);
  }

  /** `processFilesUpdate` on a DIFF block: the first file with the target
      name gets the patched text when some hunk applied, and the editor shows
      it when the active tab has that name. */
  function ApplyDiff(p: Project, name: string, body: string): (r: Project)
    requires Valid(p)
    ensures Valid(r) && |r.files| == |p.files| && r.active == p.active
  {
    match FindIndex(p.files, name)
    case None => p
    case Some(i) =>
      var (text, changed) := ApplyHunks(body, 0, p.files[i].content, false);
      if !changed then p
      else
        Project(p.files[i := p.files[i].(content := text)], p.active,
                if p.files[p.active].name == name then text else p.editor)
  }

  /** A DIFF changes at most the content of its target, never a name, and
      creates no file; with no target or no applicable hunk nothing changes. */
  lemma ApplyDiffOnlyTarget(p: Project, name: string, body: string)
    requires Valid(p)
    ensures var r := ApplyDiff(p, name, body);
      (forall j :: 0 <= j < |p.files| ==> r.files[j].name == p.files[j].name)
      && (forall j :: 0 <= j < |p.files| && FindIndex(p.files, name) != Some(j) ==> r.files[j] == p.files[j])
      && (FindIndex(p.files, name).None? ==> r == p)
      && (FindIndex(p.files, name).Some? && !ApplyHunks(body, 0, p.files[FindIndex(p.files, name).value].content, false).1 ==> r == p)
  {
  }

  /** A DIFF keeps names unique. */
  lemma ApplyDiffKeepsUnique(p: Project, name: string, body: string)
    requires Valid(p) && UniqueNames(p.files)
    ensures UniqueNames(ApplyDiff(p, name, body).files)
  {
    ApplyDiffOnlyTarget(p, name, body);
  }

  // ---------------------------------------------------------------------
  // processFilesUpdate (lines 358-423)
  // ---------------------------------------------------------------------

  /** One matched block: a FILE block upserts its trimmed name with its
      fence-stripped, trimmed body; a DIFF block patches the file of its
      trimmed name with its fence-stripped body. */
  function ApplyBlock(p: Project, s: string, b: Block): (r: Project)
    requires Valid(p)
    ensures Valid(r)
  {
    var name := Trim(b.rawName);
    var content := StripFence(BlockBody(s, b));
    match b.kind
    case FileTag => Upsert(p, name, Trim(content))
    case DiffTag => ApplyDiff(p, name, content)
  }

  /** `processFilesUpdate(s)` entered with `lastParsedIndex == from`: every
      block found from `from` on is applied in order and the saved index
      moves to the end of each. The result is the project and the final
      saved index, which never moves back and after which no block is left
      to find. */
  function SyncFrom(p: Project, s: string, from: nat): (r: (Project, nat))
    requires Valid(p)
    ensures Valid(r.0) && from <= r.1
    ensures r.1 != from ==> r.1 <= |s|
    ensures NextBlock(s, r.1).None?
    decreases |s| - from
  {
    match NextBlock(s, from)
    case None => (p, from)
    case Some(b) =>
      assert OpenTagAt(s, b.start).Some?;
      SyncFrom(ApplyBlock(p, s, b), s, b.end)
  }

  /** Scanning the same buffer again from the saved index applies nothing:
      no block is applied twice. */
  lemma SyncAgainIsNoop(p: Project, s: string, from: nat)
    requires Valid(p)
    ensures var r := SyncFrom(p, s, from); SyncFrom(r.0, s, r.1) == r
  {
    var r := SyncFrom(p, s, from);
    assert NextBlock(s, r.1).None?;
  }

  /** A canonical FILE block at the saved index is applied by the scan: its
      trimmed name is upserted with its fence-stripped, trimmed body, and the
      scan goes on after it. */
  lemma SyncAppliesFileBlock(p: Project, s: string, from: nat, name: string, body: string)
    requires Valid(p)
    requires name != [] && forall i :: 0 <= i < |name| ==> name[i] != '"'
    requires !Includes(body, CloseTag(FileTag))
    requires from + |name| + 14 + |body| + 7 <= |s|
    requires s[from..from + |name| + 14] == OpenTagText(FileTag, name)
    requires s[from + |name| + 14..from + |name| + 14 + |body|] == body
    requires s[from + |name| + 14 + |body|..from + |name| + 14 + |body| + 7] == CloseTag(FileTag)
    ensures SyncFrom(p, s, from)
      == SyncFrom(Upsert(p, Trim(name), Trim(StripFence(body))), s, from + |name| + 14 + |body| + 7)
  {
    var bs := from + |name| + 14;
    var end := bs + |body| + 7;
    BlockAtRendered(s, from, FileTag, name, body);
    NextBlockHere(s, from);
    SyncAppliesFile(p, s, from, name, bs, end, body);
  }

  /** The scan applies the next block, a FILE block, and goes on after it. */
  lemma SyncAppliesFile(p: Project, s: string, from: nat, name: string, bs: nat, end: nat, body: string)
    requires Valid(p)
    requires NextBlock(s, from) == Some(Block(FileTag, name, from, bs, end))
    requires BlockBody(s, Block(FileTag, name, from, bs, end)) == body
    ensures SyncFrom(p, s, from) == SyncFrom(Upsert(p, Trim(name), Trim(StripFence(body))), s, end)
  {
    var b := Block(FileTag, name, from, bs, end);
    assert ApplyBlock(p, s, b) == Upsert(p, Trim(name), Trim(StripFence(body)));
  }

  /** One step of the scan: the next block is applied and the scan goes on
      after it, which is further on. */
  lemma SyncStep(p: Project, s: string, from: nat, b: Block)
    requires Valid(p) && NextBlock(s, from) == Some(b)
    ensures from < b.end <= |s|
    ensures SyncFrom(p, s, from) == SyncFrom(ApplyBlock(p, s, b), s, b.end)
  {
    assert OpenTagAt(s, b.start).Some?;
  }

  /** The scan keeps names unique. */
  lemma {:induction false} SyncKeepsUnique(p: Project, s: string, from: nat)
    requires Valid(p) && UniqueNames(p.files)
    ensures UniqueNames(SyncFrom(p, s, from).0.files)
    decreases |s| - from
  {
    match NextBlock(s, from)
    case None =>
    case Some(b) =>
      assert OpenTagAt(s, b.start).Some?;
      match b.kind {
        case FileTag => UpsertKeepsUnique(p, Trim(b.rawName), Trim(StripFence(BlockBody(s, b))));
        case DiffTag => ApplyDiffKeepsUnique(p, Trim(b.rawName), StripFence(BlockBody(s, b)));
      }
      SyncKeepsUnique(ApplyBlock(p, s, b), s, b.end);
  }

  // ---------------------------------------------------------------------
  // extractAndSyncFiles (lines 1892-1898)
  // ---------------------------------------------------------------------

  /** The `File:` scan from index `from`: each section upserts its trimmed
      name with its trimmed code. */
  function SyncSections(p: Project, s: string, from: nat): (r: Project)
    requires Valid(p)
    ensures Valid(r)
    decreases |s| - from
  {
    match NextSection(s, from)
    case None => p
    case Some(m) => SyncSections(Upsert(p, Trim(m.name), Trim(SectionBody(s, m))), s, m.end)
  }

  /** The `File:` scan keeps names unique. */
  lemma {:induction false} SyncSectionsKeepsUnique(p: Project, s: string, from: nat)
    requires Valid(p) && UniqueNames(p.files)
    ensures UniqueNames(SyncSections(p, s, from).files)
    decreases |s| - from
  {
    match NextSection(s, from)
    case None =>
    case Some(m) =>
      UpsertKeepsUnique(p, Trim(m.name), Trim(SectionBody(s, m)));
      SyncSectionsKeepsUnique(Upsert(p, Trim(m.name), Trim(SectionBody(s, m))), s, m.end);
  }

  /** A canonical `File:` section at the scan position is applied: its
      trimmed name is upserted with its trimmed code, and the scan goes on
      after the closing fence. */
  lemma SyncAppliesSection(p: Project, s: string, from: nat, name: string, code: string)
    requires Valid(p)
    requires name != [] && forall i :: 0 <= i < |name| ==> IsNameChar(name[i])
    requires forall i :: 0 <= i < |code| ==> code[i] != '`'
    requires from + |name| + |code| + 14 <= |s|
    requires s[from..from + 5] == "File:" && s[from + 5] == ' ' && s[from + 6..from + 6 + |name|] == name
    requires s[from + 6 + |name|] == '\n' && s[from + 7 + |name|..from + 10 + |name|] == "```"
    requires s[from + 10 + |name|] == '\n'
    requires s[from + 11 + |name|..from + 11 + |name| + |code|] == code
    requires s[from + 11 + |name| + |code|..from + 14 + |name| + |code|] == "```"
    ensures SyncSections(p, s, from) ==
      SyncSections(Upsert(p, Trim(name), Trim(code)), s, from + |name| + |code| + 14)
  {
    var bs, end := from + |name| + 11, from + |name| + |code| + 14;
    NextSectionRendered(s, from, name, code);
    SyncSectionsStep(p, s, from, name, bs, end, code);
  }

  /** The scan applies the section found at `from` and goes on after it. */
  lemma SyncSectionsStep(p: Project, s: string, from: nat, name: string, bs: nat, end: nat, code: string)
    requires Valid(p) && NextSection(s, from) == Some(Section(name, from, bs, end))
    requires SectionBody(s, Section(name, from, bs, end)) == code
    ensures SyncSections(p, s, from) == SyncSections(Upsert(p, Trim(name), Trim(code)), s, end)
  {
  }

  /** Text without a section leaves the project as it is. */
  lemma SyncSectionsNone(p: Project, s: string)
    requires Valid(p) && !Includes(s, "File:")
    ensures SyncSections(p, s, 0) == p
  {
    match NextSection(s, 0)
    case None =>
    case Some(m) =>
      LiteralOccurs(s, "File:", m.start);
      IncludesIff(s, "File:");
      assert false;
  }

  // ---------------------------------------------------------------------
  // Tabs (lines 875-888, 1103-1112, 1132-1139, 1166-1174)
  // ---------------------------------------------------------------------

  /** The delete button for tab `i`: only when `i > -1` and more than one
      tab is open; the active index then moves to stay on the same tab, or
      to the last tab when it fell off the end, and the editor shows the
      active file's stored content. */
  function DeleteTab(p: Project, i: int): (r: Project)
    ensures i > -1 && |p.files| > 1 ==> Valid(r)
    ensures (i <= -1 || |p.files| <= 1) ==> r == p
  {
    if !(i > -1 && |p.files| > 1) then p
    else
      var files := if i < |p.files| then p.files[..i] + p.files[i + 1..] else p.files;
      var active := if p.active >= |files| then |files| - 1 else if p.active > i then p.active - 1 else p.active;
      Project(files, active, files[active].content)
  }

  /** Deleting a tab removes exactly that tab and keeps the others in order. */
  lemma DeleteTabRemoves(p: Project, i: nat)
    requires i < |p.files| && |p.files| > 1
    ensures var r := DeleteTab(p, i);
      |r.files| == |p.files| - 1
      && (forall j :: 0 <= j < i ==> r.files[j] == p.files[j])
      && (forall j :: i <= j < |r.files| ==> r.files[j] == p.files[j + 1])
  {
  }

  /** The active tab stays the same file when another tab is deleted; when
      the active tab itself is deleted its right neighbour, or the new last
      tab, becomes active. The editor shows the active file's content. */
  lemma DeleteTabActive(p: Project, i: nat)
    requires Valid(p) && i < |p.files| && |p.files| > 1
    ensures var r := DeleteTab(p, i);
      r.editor == r.files[r.active].content
      && (i != p.active ==> r.files[r.active] == p.files[p.active])
      && (i == p.active ==> r.active == (if i < |p.files| - 1 then i else |p.files| - 2))
  {
  }

  /** The rename dialog's save for tab `i`: the trimmed new name replaces
      the tab's name unless it is empty. */
  function RenameTab(p: Project, i: int, newName: string): (r: Project)
    requires i > -1 ==> i < |p.files|
    ensures |r.files| == |p.files| && r.active == p.active && r.editor == p.editor
  {
    if i > -1 && Trim(newName) != [] then
      p.(files := p.files[i := p.files[i].(name := Trim(newName))])
    else p
  }

  /** Renaming changes only the name of tab `i`, to a name with no spaces
      at either end, and does nothing when the new name is all white space. */
  lemma RenameTabSpec(p: Project, i: nat, newName: string)
    requires i < |p.files|
    ensures var r := RenameTab(p, i, newName);
      (forall j :: 0 <= j < |p.files| && j != i ==> r.files[j] == p.files[j])
      && r.files[i].content == p.files[i].content
      && (r == p <==> AllSpace(newName) || p.files[i].name == Trim(newName))
      && (!AllSpace(newName) ==> r.files[i].name == Trim(newName) != [])
  {
    TrimEmptyIff(newName);
    var r := RenameTab(p, i, newName);
    if r == p && !AllSpace(newName) {
      assert r.files[i].name == Trim(newName);
    }
  }

  /** The name of a new tab when `count` tabs are open. */
  function UntitledName(count: nat): (r: string)
    ensures StartsWith(r, "Untitled") && EndsWith(r, ".html")
  {
    var r := "Untitled" + (if count > 0 then Decimal(count) else "") + ".html";
    assert r[..8] == "Untitled";
    assert r[|r| - 5..] == ".html";
    r
  }

  /** `addNewTab`: save the editor into the active file, append an empty tab
      named for the tab count and make it active with an empty editor. */
  function AddNewTab(p: Project): (r: Project)
    requires p.active < |p.files|
    ensures Valid(r) && r.active == |p.files| && |r.files| == |p.files| + 1
  {
    var saved := p.files[p.active := p.files[p.active].(content := p.editor)];
    var files := saved + [File(UntitledName(|saved|), "")];
    Project(files, |files| - 1, "")
  }

  /** The new tab is the last one, empty, named `Untitled<n>.html` for the
      `n` tabs open before it, and active; the old tabs keep their names and
      contents except that the active one now holds the editor's text. */
  lemma AddNewTabSpec(p: Project)
    requires p.active < |p.files|
    ensures var r := AddNewTab(p);
      r.files[|p.files|] == File("Untitled" + Decimal(|p.files|) + ".html", "") && r.editor == ""
      && (forall j :: 0 <= j < |p.files| ==> r.files[j].name == p.files[j].name)
      && (forall j :: 0 <= j < |p.files| && j != p.active ==> r.files[j] == p.files[j])
      && r.files[p.active].content == p.editor
  {
  }

  /** The stacking order of tab `index` (`renderTabs`): the active tab is on
      top, the others below it with each covering the one to its right. */
  function ZIndex(index: nat, active: nat): (z: int)
    ensures z == 5000 <==> index == active
    ensures index != active ==> z <= 100
  {
    if index == active then 5000 else 100 - index
  }

  lemma ZIndexLeftCovers(i: nat, j: nat, active: nat)
    requires i < j && i != active && j != active
    ensures ZIndex(active, active) > ZIndex(i, active) > ZIndex(j, active)
  {
  }

  // ---------------------------------------------------------------------
  // compileFullProject (lines 1826-1844)
  // ---------------------------------------------------------------------

  const DefaultPage: string := "<!DOCTYPE html><html><head></head><body></body></html>"

  const BrythonScripts: string :=
    "\n    <script src=\"https://cdnjs.cloudflare.com/ajax/libs/brython/3.10.5/brython.min.js\"></script>"
    + "\n    <script src=\"https://cdnjs.cloudflare.com/ajax/libs/brython/3.10.5/brython_stdlib.min.js\"></script>"

  /** The content of the first `.html` file, or the default page. */
  function PageOf(files: seq<File>): string {
    if |files| == 0 then DefaultPage
    else if EndsWith(files[0].name, ".html") then files[0].content
    else PageOf(files[1..])
  }

  lemma {:induction false} PageOfFirstHtml(files: seq<File>, k: nat)
    requires k < |files| && EndsWith(files[k].name, ".html")
    requires forall j :: 0 <= j < k ==> !EndsWith(files[j].name, ".html")
    ensures PageOf(files) == files[k].content
  {
    if k > 0 {
      PageOfFirstHtml(files[1..], k - 1);
    }
  }

  /** `files.filter(f => f.name.endsWith(ext))`. */
  function OfExt(files: seq<File>, ext: string): (r: seq<File>)
    ensures |r| <= |files|
    ensures forall k :: 0 <= k < |r| ==> r[k] in files && EndsWith(r[k].name, ext)
  {
    if |files| == 0 then []
    else (if EndsWith(files[0].name, ext) then [files[0]] else []) + OfExt(files[1..], ext)
  }

  /** The text a file contributes inside its tag. */
  function Inner(f: File, trim: bool): string {
    if trim then Trim(f.content) else f.content
  }

  /** The files of one extension, each wrapped in `open` ... `close`, in tab
      order; Python sources are trimmed first. */
  function Wrapped(files: seq<File>, ext: string, open: string, close: string, trim: bool): (r: seq<string>)
    ensures |r| == |OfExt(files, ext)|
    ensures forall k :: 0 <= k < |r| ==> r[k] == open + Inner(OfExt(files, ext)[k], trim) + close
    ensures forall k :: 0 <= k < |r| ==> StartsWith(r[k], open)
  {
    if |files| == 0 then []
    else
      var rest := Wrapped(files[1..], ext, open, close, trim);
      if EndsWith(files[0].name, ext) then
        var w := open + Inner(files[0], trim) + close;
        assert w[..|open|] == open;
        [w] + rest
      else rest
  }

  function CssPart(files: seq<File>): string {
    Join(Wrapped(files, ".css", "<style>", "</style>", false), "\n")
  }

  function JsPart(files: seq<File>): string {
    Join(Wrapped(files, ".js", "<script>", "</script>", false), "\n")
  }

  function PyPart(files: seq<File>): string {
    Join(Wrapped(files, ".py", "<script type=\"text/python\">", "</script>", true), "\n")
  }

  /** JavaScript's `/<body/i`: the first `<body` in any letter case. */
  function ReplaceBodyTag(s: string, rep: string): string {
    ReplaceAt(s, IndexOf(LowerAscii(s), "<body", 0), 5, rep)
  }

  /** `compileFullProject`: the page with the styles inserted before the first
      `</head>` (after the Brython loader, and with `onload` added to the
      first `<body`, when there is Python), then scripts and Python before
      the first `</body>`. Replacement texts are taken literally. */
  function CompileFullProject(files: seq<File>): string {
    var page := PageOf(files);
    var css := CssPart(files);
    var js := JsPart(files);
    var py := PyPart(files);
    var headed :=
      if Trim(py) != [] then
        ReplaceBodyTag(ReplaceFirst(page, "</head>", BrythonScripts + "\n" + css + "\n</head>"), "<body onload=\"brython()\"")
      else ReplaceFirst(page, "</head>", css + "\n</head>");
    ReplaceFirst(headed, "</body>", js + "\n" + py + "\n</body>")
  }

  /** Brython is loaded exactly when the project has a Python file: the
      wrapped Python part is never blank once there is one. */
  lemma PythonEnabledIff(files: seq<File>)
    ensures Trim(PyPart(files)) != [] <==> exists k :: 0 <= k < |files| && EndsWith(files[k].name, ".py")
  {
    var w := Wrapped(files, ".py", "<script type=\"text/python\">", "</script>", true);
    WrappedEmptyIff(files, ".py", "<script type=\"text/python\">", "</script>", true);
    TrimEmptyIff(PyPart(files));
    if |w| > 0 {
      PyPartOpens(files);
    }
  }

  /** A non-empty Python part starts with its script tag. */
  lemma PyPartOpens(files: seq<File>)
    requires Wrapped(files, ".py", "<script type=\"text/python\">", "</script>", true) != []
    ensures |PyPart(files)| > 0 && PyPart(files)[0] == '<'
  {
    var w := Wrapped(files, ".py", "<script type=\"text/python\">", "</script>", true);
    JoinStartsWithFirst(w, "\n");
    assert StartsWith(w[0], "<script type=\"text/python\">");
    assert PyPart(files)[0] == w[0][0] == '<';
  }

  lemma {:induction false} WrappedEmptyIff(files: seq<File>, ext: string, open: string, close: string, trim: bool)
    ensures Wrapped(files, ext, open, close, trim) == [] <==> forall k :: 0 <= k < |files| ==> !EndsWith(files[k].name, ext)
  {
    if |files| > 0 {
      WrappedEmptyIff(files[1..], ext, open, close, trim);
      assert forall k :: 1 <= k < |files| ==> files[k] == files[1..][k - 1];
    }
  }

  lemma JoinStartsWithFirst(parts: seq<string>, sep: string)
    requires |parts| > 0
    ensures StartsWith(Join(parts, sep), parts[0])
  {
    if |parts| > 1 {
      var j := Join(parts, sep);
      assert j == parts[0] + (sep + Join(parts[1..], sep));
    }
  }

  /** A page without `</head>` and `</body>` is served as it is when there
      is no Python: the assets have nowhere to go. */
  lemma CompileWithoutMarkers(files: seq<File>)
    requires forall k :: 0 <= k < |files| ==> !EndsWith(files[k].name, ".py")
    requires !Includes(PageOf(files), "</head>") && !Includes(PageOf(files), "</body>")
    ensures CompileFullProject(files) == PageOf(files)
  {
    PythonEnabledIff(files);
  }

  /** Without Python, a page whose first `</head>` comes before its first
      `</body>` gets the styles (and a newline) just before that `</head>`,
      and the scripts (and a newline each for them and for the empty
      Python part) just before that `</body>`; the rest of the page is
      kept. The last requires says that the styles bring in no `</body>`
      of their own ahead of the page's. */
  lemma CompileInsertsParts(files: seq<File>, pre: string, mid: string, post: string)
    requires forall k :: 0 <= k < |files| ==> !EndsWith(files[k].name, ".py")
    requires PageOf(files) == pre + "</head>" + mid + "</body>" + post
    requires !Includes(pre, "</head>")
    requires !Includes(pre + CssPart(files) + "\n</head>" + mid, "</body>")
    ensures PyPart(files) == []
    ensures CompileFullProject(files) ==
      pre + CssPart(files) + "\n</head>" + mid + JsPart(files) + "\n" + PyPart(files) + "\n</body>" + post
  {
    CompileWithoutPython(files);
    Assemble(PageOf(files), CssPart(files), JsPart(files), PyPart(files), pre, mid, post);
  }

  /** `InsertBeforeBoth` with the insertions of `compileFullProject`. */
  lemma Assemble(page: string, css: string, js: string, py: string, pre: string, mid: string, post: string)
    requires page == pre + "</head>" + mid + "</body>" + post
    requires !Includes(pre, "</head>")
    requires !Includes(pre + css + "\n</head>" + mid, "</body>")
    ensures ReplaceFirst(ReplaceFirst(page, "</head>", css + "\n</head>"), "</body>", js + "\n" + py + "\n</body>") ==
      pre + css + "\n</head>" + mid + js + "\n" + py + "\n</body>" + post
  {
    CloseTagsNoBorder();
    var a, b := css + "\n", js + "\n" + py + "\n";
    assert css + "\n</head>" == a + "</head>";
    assert pre + (a + "</head>") + mid == pre + css + "\n</head>" + mid;
    assert js + "\n" + py + "\n</body>" == b + "</body>";
    InsertBeforeBoth(pre, mid, post, a, b);
  }

  /** Without Python, the page gets only the two literal replacements. */
  lemma CompileWithoutPython(files: seq<File>)
    requires forall k :: 0 <= k < |files| ==> !EndsWith(files[k].name, ".py")
    ensures PyPart(files) == []
    ensures CompileFullProject(files) ==
      ReplaceFirst(ReplaceFirst(PageOf(files), "</head>", CssPart(files) + "\n</head>"),
                   "</body>", JsPart(files) + "\n" + PyPart(files) + "\n</body>")
  {
    WrappedEmptyIff(files, ".py", "<script type=\"text/python\">", "</script>", true);
    PythonEnabledIff(files);
  }

  /** Neither closing tag has its `<` anywhere but at its start. */
  lemma CloseTagsNoBorder()
    ensures forall k :: 0 < k < |"</head>"| ==> "</head>"[k] != "</head>"[0]
    ensures forall k :: 0 < k < |"</body>"| ==> "</body>"[k] != "</body>"[0]
  {
  }

  /** The two replacements of `compileFullProject` on a page split at its
      first `</head>` and first `</body>`. */
  lemma InsertBeforeBoth(pre: string, mid: string, post: string, a: string, b: string)
    requires forall k :: 0 < k < |"</head>"| ==> "</head>"[k] != "</head>"[0]
    requires forall k :: 0 < k < |"</body>"| ==> "</body>"[k] != "</body>"[0]
    requires !Includes(pre, "</head>")
    requires !Includes(pre + (a + "</head>") + mid, "</body>")
    ensures ReplaceFirst(ReplaceFirst(pre + "</head>" + mid + "</body>" + post, "</head>", a + "</head>"),
                         "</body>", b + "</body>") ==
      pre + (a + "</head>") + mid + (b + "</body>") + post
  {
    var tail := mid + "</body>" + post;
    assert pre + "</head>" + mid + "</body>" + post == pre + "</head>" + tail;
    ReplaceFirstAfter(pre, "</head>", tail, a + "</head>");
    var x := pre + (a + "</head>") + mid;
    assert pre + (a + "</head>") + tail == x + "</body>" + post;
    ReplaceFirstAfter(x, "</body>", post, b + "</body>");
  }

}

/** The workspace state of client/app.js as mutable fields, updated in place
    the way the source updates `projectFiles`, `activeFileIndex`,
    `codeArea.value` and `window.lastParsedIndex`. Each method is proved to
    perform the corresponding function of `ProjectFiles` on `State()`. */
module Workspaces {
  import opened Wrappers
  import opened JsText
  import opened TagScan
  import opened ProjectFiles

  /** The hunk loop of a DIFF block: `exec` of the hunk pattern over the body
      until it fails, patching the running text. */
  method RunHunks(body: string, text: string) returns (r: string, changed: bool)
    ensures (r, changed) == ApplyHunks(body, 0, text, false)
    ensures !changed ==> r == text
  {
    r, changed := text, false;
    var from := 0;
    var m := NextHunk(body, from);
    while m.Some?
      invariant from <= |body|
      invariant m == NextHunk(body, from)
      invariant ApplyHunks(body, from, r, changed) == ApplyHunks(body, 0, text, false)
      decreases |body| - from
    {
      var h := m.value;
      var search := SearchText(body, h);
      if Includes(r, search) {
        r := ReplaceFirst(r, search, ReplaceText(body, h));
        changed := true;
      }
      from := h.end;
      m := NextHunk(body, from);
    }
  }

  class Workspace {
    var files: seq<File>
    var active: nat
    var editor: string
    var lastParsedIndex: nat

    function State(): Project
      reads this
    {
      Project(files, active, editor)
    }

    /** The page's start: one `index.html` tab, active, and a saved scan
        index of 0 (the value an undefined `lastParsedIndex` takes). */
    constructor (initialEditor: string)
      ensures State() == Project([File("index.html", "// Start coding...")], 0, initialEditor)
      ensures lastParsedIndex == 0
    {
      files := [File("index.html", "// Start coding...")];
      active := 0;
      editor := initialEditor;
      lastParsedIndex := 0;
    }

    /** The project reset of a send that opens a new conversation: one
        `index.html` tab, active. The editor and the saved scan index are
        left as they are. */
    method ResetProject()
      modifies this
      ensures State() == Project([File("index.html", "// Start coding...")], 0, old(editor))
      ensures lastParsedIndex == old(lastParsedIndex)
    {
      files := [File("index.html", "// Start coding...")];
      active := 0;
    }

    /** `updateFileContent(name, content)`. */
    method UpdateFileContent(name: string, content: string)
      requires Valid(State())
      modifies this
      ensures State() == Upsert(old(State()), name, content)
      ensures lastParsedIndex == old(lastParsedIndex)
    {
      match FindIndex(files, name)
      case Some(i) =>
        files := files[i := files[i].(content := content)];
        if i == active {
          editor := content;
        }
      case None =>
        files := files + [File(name, content)];
        if |files| == 1 {
          active := 0;
          editor := content;
        }
    }

    /** The DIFF branch of `processFilesUpdate`. */
    method ApplyDiffBlock(name: string, body: string)
      requires Valid(State())
      modifies this
      ensures State() == ApplyDiff(old(State()), name, body)
      ensures lastParsedIndex == old(lastParsedIndex)
    {
      match FindIndex(files, name)
      case None =>
      case Some(i) =>
        var text, changed := RunHunks(body, files[i].content);
        if changed {
          files := files[i := files[i].(content := text)];
          if files[active].name == name {
            editor := text;
          }
        }
    }

    /** `processFilesUpdate(text)`: the `while (exec)` over the blocks from
        the saved index, saving the index after each block. */
    method ProcessFilesUpdate(text: string)
      requires Valid(State())
      modifies this
      ensures (State(), lastParsedIndex) == SyncFrom(old(State()), text, old(lastParsedIndex))
    {
      var m := NextBlock(text, lastParsedIndex);
      while m.Some?
        invariant Valid(State())
        invariant m == NextBlock(text, lastParsedIndex)
        invariant SyncFrom(State(), text, lastParsedIndex) == SyncFrom(old(State()), text, old(lastParsedIndex))
        decreases |text| - lastParsedIndex
      {
        var b := m.value;
        SyncStep(State(), text, lastParsedIndex, b);
        ApplyOneBlock(text, b);
        lastParsedIndex := b.end;
        m := NextBlock(text, lastParsedIndex);
      }
    }

    /** The body of the block loop: a FILE block rewrites or adds its file,
        a DIFF block patches it. */
    method ApplyOneBlock(text: string, b: Block)
      requires Valid(State())
      modifies this
      ensures State() == ApplyBlock(old(State()), text, b)
      ensures lastParsedIndex == old(lastParsedIndex)
    {
      var name := Trim(b.rawName);
      var content := StripFence(BlockBody(text, b));
      match b.kind {
        case FileTag => UpdateFileContent(name, Trim(content));
        case DiffTag => ApplyDiffBlock(name, content);
      }
    }

    /** `extractAndSyncFiles(text)`: the `while (exec)` over the `File:`
        sections, from the start of the text. */
    method ExtractAndSyncFiles(text: string)
      requires Valid(State())
      modifies this
      ensures State() == SyncSections(old(State()), text, 0)
      ensures lastParsedIndex == old(lastParsedIndex)
    {
      var from := 0;
      var m := NextSection(text, from);
      while m.Some?
        invariant Valid(State()) && lastParsedIndex == old(lastParsedIndex)
        invariant m == NextSection(text, from)
        invariant SyncSections(State(), text, from) == SyncSections(old(State()), text, 0)
        decreases |text| - from
      {
        var sec := m.value;
        UpdateFileContent(Trim(sec.name), Trim(SectionBody(text, sec)));
        from := sec.end;
        m := NextSection(text, from);
      }
    }

    /** The delete button for the tab being edited. */
    method DeleteTab(i: int)
      modifies this
      ensures State() == ProjectFiles.DeleteTab(old(State()), i)
      ensures lastParsedIndex == old(lastParsedIndex)
    {
      if i > -1 && |files| > 1 {
        if i < |files| {
          files := files[..i] + files[i + 1..];
        }
        if active >= |files| {
          active := |files| - 1;
        } else if active > i {
          active := active - 1;
        }
        editor := files[active].content;
      }
    }

    /** The rename dialog's save button. */
    method RenameTab(i: int, newName: string)
      requires i > -1 ==> i < |files|
      modifies this
      ensures State() == ProjectFiles.RenameTab(old(State()), i, newName)
      ensures lastParsedIndex == old(lastParsedIndex)
    {
      if i > -1 {
        var name := Trim(newName);
        if name != [] {
          files := files[i := files[i].(name := name)];
        }
      }
    }

    /** `addNewTab`. */
    method AddNewTab()
      requires active < |files|
      modifies this
      ensures State() == ProjectFiles.AddNewTab(old(State()))
      ensures lastParsedIndex == old(lastParsedIndex)
    {
      files := files[active := files[active].(content := editor)];
      files := files + [File(UntitledName(|files|), "")];
      active := |files| - 1;
      editor := "";
    }
  }
}
