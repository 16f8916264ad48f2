/** The open-document tracker of crates/aide-lsp/src/ops.rs and what the language server believes.
    Every section that runs under the documents lock is one step, and so is the read from disk that
    `ensure_document_current` does before it takes the lock. */
module DocumentSync {
  import opened Wrappers
  import opened TextEdits

  type Uri = string

  /** A running call of `ensure_document_current`. */
  type CallId = nat

  datatype OpenedDocument = OpenedDocument(version: int, text: string, lastUsed: int)

  datatype Message =
    | DidOpen(uri: Uri, version: int, text: string)
    | DidChange(uri: Uri, version: int, text: string)
    | DidClose(uri: Uri)

  /** What a call has read and not yet used. */
  datatype Loaded = Loaded(uri: Uri, text: string)

  datatype Workspace = Workspace(
    docs: map<Uri, OpenedDocument>,
    disk: map<Uri, string>,
    loaded: map<CallId, Loaded>,
    sent: seq<Message>)

  const MAX_OPEN_DOCS: nat := 128

  // ------------------------------------------------------ a strict server

  datatype ServerDoc = ServerDoc(version: int, text: string)

  /** LSP 3.17, section "Text Document Synchronization": a document is opened only when it is not
      open, changed and closed only when it is, and its version here must rise by exactly one. */
  function Receive(open: map<Uri, ServerDoc>, m: Message): Option<map<Uri, ServerDoc>> {
    match m
    case DidOpen(uri, version, text) =>
      if uri in open || version != 1 then None else Some(open[uri := ServerDoc(version, text)])
    case DidChange(uri, version, text) =>
      if uri !in open || version != open[uri].version + 1 then None
      else Some(open[uri := ServerDoc(version, text)])
    case DidClose(uri) =>
      if uri !in open then None else Some(open - {uri})
  }

  /** The server's documents after a stream of notifications; None if it violates the protocol. */
  function Replay(stream: seq<Message>): Option<map<Uri, ServerDoc>> {
    if stream == [] then Some(map[]) else
      var before := Replay(stream[..|stream| - 1]);
      if before.None? then None else Receive(before.value, stream[|stream| - 1])
  }

  lemma ReplayOne(stream: seq<Message>, m: Message)
    ensures Replay(stream + [m]) ==
            if Replay(stream).None? then None else Receive(Replay(stream).value, m)
  {
    assert (stream + [m])[..|stream|] == stream;
  }

  function View(docs: map<Uri, OpenedDocument>): map<Uri, ServerDoc> {
    map uri | uri in docs :: ServerDoc(docs[uri].version, docs[uri].text)
  }

  // ------------------------------------------------------------ sections

  datatype Section =
    /** `ensure_document_current` before it takes the lock. */
    | Read(call: CallId, uri: Uri)
    /** `ensure_document_current` with the lock; `victim` is the document LRU closes. */
    | Ensure(call: CallId, now: int, victim: Uri)
    /** `apply_and_snapshot`: write the file and push the change. */
    | WriteThrough(uri: Uri, text: string, now: int)
    /** `apply_edits_to_file`: read, edit, write and push, all under the lock. */
    | EditFile(uri: Uri, edits: seq<TextEdit>, now: int)
    /** Another program writes or deletes the file. */
    | ExternalWrite(uri: Uri, text: string)
    | ExternalDelete(uri: Uri)

  predicate IsOldest(docs: map<Uri, OpenedDocument>, victim: Uri) {
    victim in docs && forall uri :: uri in docs ==> docs[victim].lastUsed <= docs[uri].lastUsed
  }

  predicate NeedsEviction(w: Workspace, uri: Uri) {
    uri !in w.docs && |w.docs| >= MAX_OPEN_DOCS
  }

  /** A call that cannot read its file fails there and then. */
  ghost predicate Enabled(w: Workspace, s: Section) {
    match s
    case Read(call, uri) => call !in w.loaded && uri in w.disk
    case Ensure(call, _, victim) =>
      call in w.loaded && (NeedsEviction(w, w.loaded[call].uri) ==> IsOldest(w.docs, victim))
    case _ => true
  }

  /** The version bump and didChange shared by all sections; an unopened document is skipped. */
  function PushChange(w: Workspace, uri: Uri, text: string, now: int): Workspace {
    if uri !in w.docs then w else
      var version := w.docs[uri].version + 1;
      w.(docs := w.docs[uri := OpenedDocument(version, text, now)],
         sent := w.sent + [DidChange(uri, version, text)])
  }

  function Touch(w: Workspace, uri: Uri, now: int): Workspace
    requires uri in w.docs
  {
    w.(docs := w.docs[uri := w.docs[uri].(lastUsed := now)])
  }

  function Close(w: Workspace, uri: Uri): Workspace {
    w.(docs := w.docs - {uri}, sent := w.sent + [DidClose(uri)])
  }

  function Open(w: Workspace, uri: Uri, text: string, now: int): Workspace {
    w.(docs := w.docs[uri := OpenedDocument(1, text, now)],
       sent := w.sent + [DidOpen(uri, 1, text)])
  }

  function EnsureCurrent(w: Workspace, uri: Uri, text: string, now: int, victim: Uri): Workspace {
    if uri in w.docs then
      if w.docs[uri].text == text then Touch(w, uri, now) else PushChange(w, uri, text, now)
    else
      Open(if NeedsEviction(w, uri) then Close(w, victim) else w, uri, text, now)
  }

  /** What `apply_edits_to_file` would write; None if the file is missing or an edit panics. */
  function Edited(w: Workspace, uri: Uri, edits: seq<TextEdit>): Option<string> {
    if uri !in w.disk then None else ApplyTextEdits(w.disk[uri], edits)
  }

  function Apply(w: Workspace, s: Section): Workspace
    requires s.Ensure? ==> s.call in w.loaded
  {
    match s
    case Read(call, uri) =>
      if uri !in w.disk then w else w.(loaded := w.loaded[call := Loaded(uri, w.disk[uri])])
    case Ensure(call, now, victim) =>
      var l := w.loaded[call];
      EnsureCurrent(w.(loaded := w.loaded - {call}), l.uri, l.text, now, victim)
    case WriteThrough(uri, text, now) => PushChange(w.(disk := w.disk[uri := text]), uri, text, now)
    case EditFile(uri, edits, now) =>
      var after := Edited(w, uri, edits);
      if after.None? then w else PushChange(w.(disk := w.disk[uri := after.value]), uri, after.value, now)
    case ExternalWrite(uri, text) => w.(disk := w.disk[uri := text])
    case ExternalDelete(uri) => w.(disk := w.disk - {uri})
  }

  // ------------------------------------------------------- mirror invariant

  ghost predicate Mirrors(w: Workspace) {
    Replay(w.sent) == Some(View(w.docs)) && |w.docs| <= MAX_OPEN_DOCS
  }

  lemma PushMirrors(w: Workspace, uri: Uri, text: string, now: int)
    requires Mirrors(w)
    ensures Mirrors(PushChange(w, uri, text, now))
  {
    if uri in w.docs {
      var w' := PushChange(w, uri, text, now);
      var version := w.docs[uri].version + 1;
      ReplayOne(w.sent, DidChange(uri, version, text));
      assert View(w'.docs) == View(w.docs)[uri := ServerDoc(version, text)];
      assert w'.docs.Keys == w.docs.Keys;
      assert |w'.docs.Keys| == |w'.docs| && |w.docs.Keys| == |w.docs|;
    }
  }

  lemma OpenMirrors(w: Workspace, uri: Uri, text: string, now: int)
    requires Mirrors(w) && uri !in w.docs && |w.docs| < MAX_OPEN_DOCS
    ensures Mirrors(Open(w, uri, text, now))
  {
    ReplayOne(w.sent, DidOpen(uri, 1, text));
    assert View(Open(w, uri, text, now).docs) == View(w.docs)[uri := ServerDoc(1, text)];
  }

  lemma CloseMirrors(w: Workspace, uri: Uri)
    requires Mirrors(w) && uri in w.docs
    ensures Mirrors(Close(w, uri)) && |Close(w, uri).docs| < |w.docs|
  {
    var w' := Close(w, uri);
    ReplayOne(w.sent, DidClose(uri));
    assert View(w'.docs) == View(w.docs) - {uri};
    assert w'.docs.Keys == w.docs.Keys - {uri};
    assert |w'.docs.Keys| == |w'.docs| && |w.docs.Keys| == |w.docs|;
  }

  lemma EnsureMirrors(w: Workspace, uri: Uri, text: string, now: int, victim: Uri)
    requires Mirrors(w) && (NeedsEviction(w, uri) ==> IsOldest(w.docs, victim))
    ensures Mirrors(EnsureCurrent(w, uri, text, now, victim))
  {
    if uri in w.docs {
      if w.docs[uri].text == text {
        var w' := Touch(w, uri, now);
        assert View(w'.docs) == View(w.docs) && w'.docs.Keys == w.docs.Keys;
        assert |w'.docs.Keys| == |w'.docs| && |w.docs.Keys| == |w.docs|;
      } else {
        PushMirrors(w, uri, text, now);
      }
    } else if NeedsEviction(w, uri) {
      CloseMirrors(w, victim);
      OpenMirrors(Close(w, victim), uri, text, now);
    } else {
      OpenMirrors(w, uri, text, now);
    }
  }

  lemma MirrorsStep(w: Workspace, s: Section)
    requires Mirrors(w) && Enabled(w, s)
    ensures Mirrors(Apply(w, s))
  {
    match s {
      case Ensure(call, now, victim) =>
        var l := w.loaded[call];
        EnsureMirrors(w.(loaded := w.loaded - {call}), l.uri, l.text, now, victim);
      case WriteThrough(uri, text, now) => PushMirrors(w.(disk := w.disk[uri := text]), uri, text, now);
      case EditFile(uri, edits, now) =>
        var after := Edited(w, uri, edits);
        if after.Some? {
          PushMirrors(w.(disk := w.disk[uri := after.value]), uri, after.value, now);
        }
      case _ =>
    }
  }

  ghost predicate IsRun(w: Workspace, run: seq<Section>)
    decreases |run|, 0
  {
    run == [] || (IsRun(w, run[..|run| - 1]) && Enabled(Exec(w, run[..|run| - 1]), run[|run| - 1]))
  }

  ghost function Exec(w: Workspace, run: seq<Section>): Workspace
    requires IsRun(w, run)
    decreases |run|, 1
  {
    if run == [] then w else Apply(Exec(w, run[..|run| - 1]), run[|run| - 1])
  }

  function Initial(disk: map<Uri, string>): Workspace {
    Workspace(map[], disk, map[], [])
  }

  /** Whatever sections interleave, from the first on, the stream is legal for a strict server and
      leaves it with exactly the tracker's documents, never more than 128. */
  lemma {:induction false} ServerMirrorsTracker(w: Workspace, run: seq<Section>)
    requires IsRun(w, run) && Mirrors(w)
    ensures Mirrors(Exec(w, run))
    decreases |run|
  {
    if run != [] {
      ServerMirrorsTracker(w, run[..|run| - 1]);
      MirrorsStep(Exec(w, run[..|run| - 1]), run[|run| - 1]);
    }
  }

  lemma InitiallyMirrors(disk: map<Uri, string>)
    ensures Mirrors(Initial(disk))
  {
    assert View(map[]) == map[];
  }

  // ------------------------------------------------- least recently used

  /** When the run last used the document: by a call that found or made it current, or by a write or an
      edit of its file while it was open. */
  ghost function LastUse(w: Workspace, run: seq<Section>, uri: Uri): Option<int>
    requires IsRun(w, run)
    decreases |run|
  {
    if run == [] then None
    else
      var init, last := run[..|run| - 1], run[|run| - 1];
      var before := Exec(w, init);
      match last
      case Ensure(call, now, _) => if before.loaded[call].uri == uri then Some(now) else LastUse(w, init, uri)
      case WriteThrough(u, _, now) => if u == uri && uri in before.docs then Some(now) else LastUse(w, init, uri)
      case EditFile(u, edits, now) =>
        if u == uri && uri in before.docs && Edited(before, u, edits).Some? then Some(now) else LastUse(w, init, uri)
      case _ => LastUse(w, init, uri)
  }

  /** In every state of every run, each open document carries the time of its last use. */
  lemma {:induction false} LastUseIs(disk: map<Uri, string>, run: seq<Section>, uri: Uri)
    requires IsRun(Initial(disk), run) && uri in Exec(Initial(disk), run).docs
    ensures LastUse(Initial(disk), run, uri) == Some(Exec(Initial(disk), run).docs[uri].lastUsed)
    decreases |run|
  {
    var w, init, last := Initial(disk), run[..|run| - 1], run[|run| - 1];
    var before := Exec(w, init);
    if uri in before.docs {
      LastUseIs(disk, init, uri);
    }
    UseOrKeep(before, last, uri);
  }

  /** A section gives an open document a new time exactly if it uses it. */
  lemma {:induction false} UseOrKeep(w: Workspace, s: Section, uri: Uri)
    requires Enabled(w, s) && uri in Apply(w, s).docs
    ensures match s
            case Ensure(call, now, _) =>
              if w.loaded[call].uri == uri then Apply(w, s).docs[uri].lastUsed == now
              else uri in w.docs && Apply(w, s).docs[uri].lastUsed == w.docs[uri].lastUsed
            case WriteThrough(u, _, now) =>
              uri in w.docs && Apply(w, s).docs[uri].lastUsed == if u == uri then now else w.docs[uri].lastUsed
            case EditFile(u, edits, now) =>
              uri in w.docs && Apply(w, s).docs[uri].lastUsed ==
                               if u == uri && Edited(w, u, edits).Some? then now else w.docs[uri].lastUsed
            case _ => uri in w.docs && Apply(w, s).docs[uri].lastUsed == w.docs[uri].lastUsed
  {
  }

  /** A document is closed only to open another one at the cap, and among the documents then open
      its last use, over the whole run, is not later than any other's. */
  lemma ClosedIsLeastRecentlyUsed(disk: map<Uri, string>, run: seq<Section>, s: Section, closed: Uri)
    requires IsRun(Initial(disk), run) && Enabled(Exec(Initial(disk), run), s)
    requires var w := Exec(Initial(disk), run); closed in w.docs && closed !in Apply(w, s).docs
    ensures var w := Exec(Initial(disk), run);
            && s.Ensure? && s.call in w.loaded
            && w.loaded[s.call].uri !in w.docs && w.loaded[s.call].uri in Apply(w, s).docs
            && w.loaded[s.call].uri != closed
            && |w.docs| == MAX_OPEN_DOCS
            && (forall uri :: uri in w.docs ==>
                  && LastUse(Initial(disk), run, closed).Some? && LastUse(Initial(disk), run, uri).Some?
                  && LastUse(Initial(disk), run, closed).value <= LastUse(Initial(disk), run, uri).value)
  {
    InitiallyMirrors(disk);
    ServerMirrorsTracker(Initial(disk), run);
    forall uri | uri in Exec(Initial(disk), run).docs
      ensures LastUse(Initial(disk), run, uri) == Some(Exec(Initial(disk), run).docs[uri].lastUsed)
    {
      LastUseIs(disk, run, uri);
    }
  }

  // ------------------------------------------------------ tracker and disk

  function DiskText(w: Workspace, uri: Uri): Option<string> {
    if uri in w.disk then Some(w.disk[uri]) else None
  }

  /** The open document is what the disk holds. */
  ghost predicate TracksDisk(w: Workspace, uri: Uri) {
    uri in w.docs && DiskText(w, uri) == Some(w.docs[uri].text)
  }

  /** The state of the run after its first `n` sections. */
  ghost function At(w: Workspace, run: seq<Section>, n: nat): Workspace
    requires IsRun(w, run) && n <= |run|
    decreases |run|
  {
    if n == |run| then Exec(w, run) else At(w, run[..|run| - 1], n)
  }

  /** How many sections of the run there are up to the last read of `call`. */
  function ReadAt(run: seq<Section>, call: CallId): (n: nat)
    ensures n <= |run|
    decreases |run|
  {
    if run == [] then 0
    else if run[|run| - 1].Read? && run[|run| - 1].call == call then |run|
    else ReadAt(run[..|run| - 1], call)
  }

  /** A section that settles what the tracker holds for `uri`, if it is open afterwards. */
  predicate Settles(w: Workspace, s: Section, uri: Uri) {
    match s
    case Ensure(call, _, _) => call in w.loaded && w.loaded[call].uri == uri
    case WriteThrough(u, _, _) => u == uri
    case EditFile(u, edits, _) => u == uri && Edited(w, u, edits).Some?
    case _ => false
  }

  /** The moment at which the last such section looked at the disk: its own read, or the write that
      it did itself. */
  ghost function Basis(w: Workspace, run: seq<Section>, uri: Uri): (n: Option<nat>)
    requires IsRun(w, run)
    ensures n.Some? ==> n.value <= |run|
    decreases |run|
  {
    if run == [] then None
    else
      var init, last := run[..|run| - 1], run[|run| - 1];
      if Settles(Exec(w, init), last, uri) then Some(if last.Ensure? then ReadAt(init, last.call) else |run|)
      else Basis(w, init, uri)
  }

  /** What a section leaves on disk for `uri`, if it writes it. */
  function Leaves(w: Workspace, s: Section, uri: Uri): Option<Option<string>> {
    match s
    case WriteThrough(u, text, _) => if u == uri then Some(Some(text)) else None
    case EditFile(u, edits, _) => if u == uri && Edited(w, u, edits).Some? then Some(Edited(w, u, edits)) else None
    case ExternalWrite(u, text) => if u == uri then Some(Some(text)) else None
    case ExternalDelete(u) => if u == uri then Some(None) else None
    case _ => None
  }

  /** What the last write of `uri` after the first `n` sections left, if there was one. */
  ghost function LeftSince(w: Workspace, run: seq<Section>, n: nat, uri: Uri): Option<Option<string>>
    requires IsRun(w, run) && n <= |run|
    decreases |run|
  {
    if n == |run| then None
    else
      var init := run[..|run| - 1];
      var left := Leaves(Exec(w, init), run[|run| - 1], uri);
      if left.Some? then left else LeftSince(w, init, n, uri)
  }

  lemma LeavesIt(w: Workspace, s: Section, uri: Uri)
    requires Enabled(w, s)
    ensures DiskText(Apply(w, s), uri) ==
            if Leaves(w, s, uri).Some? then Leaves(w, s, uri).value else DiskText(w, uri)
  {
  }

  lemma {:induction false} DiskSince(w: Workspace, run: seq<Section>, n: nat, uri: Uri)
    requires IsRun(w, run) && n <= |run|
    ensures DiskText(Exec(w, run), uri) ==
            if LeftSince(w, run, n, uri).Some? then LeftSince(w, run, n, uri).value else DiskText(At(w, run, n), uri)
    decreases |run|
  {
    if n < |run| {
      DiskSince(w, run[..|run| - 1], n, uri);
      LeavesIt(Exec(w, run[..|run| - 1]), run[|run| - 1], uri);
    }
  }

  /** What a running call holds is what the disk held when it read. */
  lemma {:induction false} LoadedWasOnDisk(disk: map<Uri, string>, run: seq<Section>, call: CallId)
    requires IsRun(Initial(disk), run) && call in Exec(Initial(disk), run).loaded
    ensures var w, l := Initial(disk), Exec(Initial(disk), run).loaded[call];
            DiskText(At(w, run, ReadAt(run, call)), l.uri) == Some(l.text)
    decreases |run|
  {
    var init, last := run[..|run| - 1], run[|run| - 1];
    if !(last.Read? && last.call == call) {
      LoadedWasOnDisk(disk, init, call);
    }
  }

  lemma OnlySettledTexts(w: Workspace, s: Section, uri: Uri)
    requires Enabled(w, s) && uri in Apply(w, s).docs
    ensures if s.Ensure? && Settles(w, s, uri) then Apply(w, s).docs[uri].text == w.loaded[s.call].text
            else if Settles(w, s, uri) then DiskText(Apply(w, s), uri) == Some(Apply(w, s).docs[uri].text)
            else uri in w.docs && Apply(w, s).docs[uri].text == w.docs[uri].text
  {
  }

  /** Every open document is what the disk held at its basis. */
  lemma {:induction false} OpenedWasOnDisk(disk: map<Uri, string>, run: seq<Section>, uri: Uri)
    requires IsRun(Initial(disk), run) && uri in Exec(Initial(disk), run).docs
    ensures var w, n := Initial(disk), Basis(Initial(disk), run, uri);
            n.Some? && DiskText(At(w, run, n.value), uri) == Some(Exec(w, run).docs[uri].text)
    decreases |run|
  {
    var w, init, last := Initial(disk), run[..|run| - 1], run[|run| - 1];
    var before := Exec(w, init);
    OnlySettledTexts(before, last, uri);
    if Settles(before, last, uri) {
      if last.Ensure? {
        LoadedWasOnDisk(disk, init, last.call);
      }
    } else {
      OpenedWasOnDisk(disk, init, uri);
    }
  }

  /** Over every run: an open document, and with it the server's, is what is on disk if and only if
      no write after the moment at which its text was read, be it by this client or by another
      program, left anything else. */
  lemma AgreesWithDiskIff(disk: map<Uri, string>, run: seq<Section>, uri: Uri)
    requires IsRun(Initial(disk), run) && uri in Exec(Initial(disk), run).docs
    ensures var w, n := Exec(Initial(disk), run), Basis(Initial(disk), run, uri);
            && n.Some?
            && var left := LeftSince(Initial(disk), run, n.value, uri);
               TracksDisk(w, uri) <==> left == None || left == Some(Some(w.docs[uri].text))
  {
    OpenedWasOnDisk(disk, run, uri);
    DiskSince(Initial(disk), run, Basis(Initial(disk), run, uri).value, uri);
  }

  /** No other program touches the files, and every call runs without anything between its read and
      its section. */
  predicate Undisturbed(run: seq<Section>)
    decreases |run|
  {
    run == [] ||
    (var init, last := run[..|run| - 1], run[|run| - 1];
     && Undisturbed(init) && !last.ExternalWrite? && !last.ExternalDelete?
     && (last.Ensure? ==> init != [] && init[|init| - 1].Read? && init[|init| - 1].call == last.call))
  }

  /** Then every open document is what is on disk, in every state. */
  lemma {:induction false} UndisturbedTracksDisk(disk: map<Uri, string>, run: seq<Section>, uri: Uri)
    requires IsRun(Initial(disk), run) && Undisturbed(run) && uri in Exec(Initial(disk), run).docs
    ensures TracksDisk(Exec(Initial(disk), run), uri)
    decreases |run|
  {
    var w, init, last := Initial(disk), run[..|run| - 1], run[|run| - 1];
    var before := Exec(w, init);
    OnlySettledTexts(before, last, uri);
    if Settles(before, last, uri) {
      if last.Ensure? {
        assert before == Apply(Exec(w, init[..|init| - 1]), init[|init| - 1]);
      }
    } else {
      UndisturbedTracksDisk(disk, init, uri);
      LeavesIt(before, last, uri);
    }
  }

  lemma ThenSection(w: Workspace, run: seq<Section>, s: Section)
    requires IsRun(w, run) && Enabled(Exec(w, run), s)
    ensures IsRun(w, run + [s]) && Exec(w, run + [s]) == Apply(Exec(w, run), s)
  {
    assert (run + [s])[..|run|] == run;
  }

  /** Two calls have read the old text; the first has opened the document, and then another task has
      written the new text. */
  function OldTextRead(uri: Uri, after: string): seq<Section> {
    [Read(0, uri)] + [Ensure(0, 1, "")] + [Read(1, uri)] + [WriteThrough(uri, after, 2)]
  }

  lemma OldTextIsHeld(uri: Uri, before: string, after: string)
    ensures var w0, run := Initial(map[uri := before]), OldTextRead(uri, after);
            && IsRun(w0, run)
            && Exec(w0, run).docs == map[uri := OpenedDocument(2, after, 2)]
            && Exec(w0, run).disk == map[uri := after]
            && Exec(w0, run).loaded == map[1 := Loaded(uri, before)]
  {
    var w0 := Initial(map[uri := before]);
    var r1 := [Read(0, uri)];
    var r2 := r1 + [Ensure(0, 1, "")];
    var r3 := r2 + [Read(1, uri)];
    assert r1 == [] + r1;
    ThenSection(w0, [], Read(0, uri));
    ThenSection(w0, r1, Ensure(0, 1, ""));
    assert Exec(w0, r2).docs == map[uri := OpenedDocument(1, before, 1)];
    ThenSection(w0, r2, Read(1, uri));
    ThenSection(w0, r3, WriteThrough(uri, after, 2));
  }

  /** Reading before locking loses: a call that has read the old text and runs its section after
      another task has written the new one makes tracker and server go back to the old text. */
  lemma StaleReadWins(uri: Uri, before: string, after: string)
    requires before != after
    ensures var w0, run := Initial(map[uri := before]), OldTextRead(uri, after) + [Ensure(1, 3, "")];
            && IsRun(w0, run)
            && Exec(w0, run).disk == map[uri := after]
            && Exec(w0, run).docs == map[uri := OpenedDocument(3, before, 3)]
            && Replay(Exec(w0, run).sent) == Some(map[uri := ServerDoc(3, before)])
  {
    var w0, run := Initial(map[uri := before]), OldTextRead(uri, after);
    OldTextIsHeld(uri, before, after);
    ThenSection(w0, run, Ensure(1, 3, ""));
    var last := Exec(w0, run + [Ensure(1, 3, "")]);
    assert last.docs == map[uri := OpenedDocument(3, before, 3)];
    InitiallyMirrors(map[uri := before]);
    ServerMirrorsTracker(w0, run + [Ensure(1, 3, "")]);
    assert View(last.docs) == map[uri := ServerDoc(3, before)];
  }

  // -------------------------------------------------------- the client object

  /** The tracker with its lock held; `sent` is the writer's end of the server's input. */
  class Client {
    var docs: map<Uri, OpenedDocument>
    var disk: map<Uri, string>
    /** The local variables of the calls that have read their file and wait for the lock. */
    var loaded: map<CallId, Loaded>
    var sent: seq<Message>

    ghost function State(): Workspace
      reads this
    {
      Workspace(docs, disk, loaded, sent)
    }

    constructor (disk: map<Uri, string>)
      ensures State() == Initial(disk)
    {
      docs, this.disk, loaded, sent := map[], disk, map[], [];
    }

    /** `iter().min_by_key(last_used)`: any of the oldest documents. */
    method Oldest() returns (victim: Uri)
      requires |docs| > 0
      ensures IsOldest(docs, victim)
    {
      var left := docs.Keys;
      assert |docs.Keys| == |docs|;
      victim :| victim in left;
      left := left - {victim};
      while left != {}
        invariant victim in docs && left <= docs.Keys
        invariant forall uri :: uri in docs.Keys - left ==> docs[victim].lastUsed <= docs[uri].lastUsed
        decreases |left|
      {
        var uri :| uri in left;
        left := left - {uri};
        if docs[uri].lastUsed < docs[victim].lastUsed {
          victim := uri;
        }
      }
    }

    method ReadFile(call: CallId, uri: Uri) returns (ok: bool)
      requires call !in loaded
      modifies this`loaded
      ensures ok <==> Enabled(old(State()), Read(call, uri))
      ensures State() == if ok then Apply(old(State()), Read(call, uri)) else old(State())
    {
      ok := uri in disk;
      if ok {
        loaded := loaded[call := Loaded(uri, disk[uri])];
      }
    }

    method EnsureSection(call: CallId, now: int) returns (ghost victim: Uri)
      requires call in loaded
      modifies this
      ensures Enabled(old(State()), Ensure(call, now, victim))
      ensures State() == Apply(old(State()), Ensure(call, now, victim))
      ensures disk == old(disk) && loaded == old(loaded) - {call}
      ensures var uri, text := old(loaded)[call].uri, old(loaded)[call].text;
              if uri in old(docs) then
                if old(docs)[uri].text == text then
                  sent == old(sent) && docs == old(docs)[uri := OpenedDocument(old(docs)[uri].version, text, now)]
                else
                  && docs == old(docs)[uri := OpenedDocument(old(docs)[uri].version + 1, text, now)]
                  && sent == old(sent) + [DidChange(uri, old(docs)[uri].version + 1, text)]
              else if |old(docs)| < 128 then
                && docs == old(docs)[uri := OpenedDocument(1, text, now)]
                && sent == old(sent) + [DidOpen(uri, 1, text)]
              else
                && docs == (old(docs) - {victim})[uri := OpenedDocument(1, text, now)]
                && sent == old(sent) + [DidClose(victim)] + [DidOpen(uri, 1, text)]
    {
      var uri, text := loaded[call].uri, loaded[call].text;
      loaded := loaded - {call};
      victim := "";
      if uri in docs {
        var entry := docs[uri];
        if entry.text == text {
          docs := docs[uri := entry.(lastUsed := now)];
        } else {
          Push(uri, text, now);
        }
      } else {
        if |docs| >= MAX_OPEN_DOCS {
          var evict := Oldest();
          victim := evict;
          docs := docs - {evict};
          sent := sent + [DidClose(evict)];
        }
        docs := docs[uri := OpenedDocument(1, text, now)];
        sent := sent + [DidOpen(uri, 1, text)];
      }
    }

    /** The whole call with nothing interleaved: afterwards the document is open and current. */
    method EnsureDocumentCurrent(call: CallId, uri: Uri, now: int) returns (ok: bool, ghost victim: Uri)
      requires call !in loaded
      modifies this
      ensures ok <==> uri in old(disk)
      ensures !ok ==> State() == old(State())
      ensures ok ==> Enabled(old(State()), Read(call, uri))
      ensures ok ==> Enabled(Apply(old(State()), Read(call, uri)), Ensure(call, now, victim))
      ensures ok ==> State() == Apply(Apply(old(State()), Read(call, uri)), Ensure(call, now, victim))
      ensures ok ==> TracksDisk(State(), uri) && docs[uri].lastUsed == now
    {
      victim := "";
      ok := ReadFile(call, uri);
      if ok {
        victim := EnsureSection(call, now);
      }
    }

    /** An open document has the next version, the text and the time, and the server is told; one that is not
        open is left alone. */
    ghost predicate Pushed(before: map<Uri, OpenedDocument>, stream: seq<Message>, uri: Uri, text: string, now: int)
      reads this
    {
      if uri in before then
        && docs == before[uri := OpenedDocument(before[uri].version + 1, text, now)]
        && sent == stream + [DidChange(uri, before[uri].version + 1, text)]
      else docs == before && sent == stream
    }

    method Push(uri: Uri, text: string, now: int)
      modifies this`docs, this`sent
      ensures State() == PushChange(old(State()), uri, text, now)
      ensures Pushed(old(docs), old(sent), uri, text, now)
    {
      if uri in docs {
        var doc := docs[uri];
        doc := doc.(version := doc.version + 1);
        doc := doc.(text := text, lastUsed := now);
        docs := docs[uri := doc];
        sent := sent + [DidChange(uri, doc.version, text)];
      }
    }

    method WriteAndPush(uri: Uri, text: string, now: int)
      modifies this
      ensures State() == Apply(old(State()), WriteThrough(uri, text, now))
      ensures disk == old(disk)[uri := text] && loaded == old(loaded)
      ensures Pushed(old(docs), old(sent), uri, text, now)
    {
      disk := disk[uri := text];
      Push(uri, text, now);
    }

    method ApplyEditsToFile(uri: Uri, edits: seq<TextEdit>, now: int) returns (ok: bool)
      modifies this
      ensures State() == Apply(old(State()), EditFile(uri, edits, now))
      ensures ok <==> uri in old(disk) && ApplyTextEdits(old(disk)[uri], edits).Some?
      ensures !ok ==> State() == old(State())
      ensures ok ==> var after := ApplyTextEdits(old(disk)[uri], edits).value;
                     && disk == old(disk)[uri := after] && loaded == old(loaded)
                     && Pushed(old(docs), old(sent), uri, after, now)
    {
      if uri !in disk {
        return false;
      }
      var after := ApplyEdits(disk[uri], edits);
      if after.None? {
        return false;
      }
      disk := disk[uri := after.value];
      Push(uri, after.value, now);
      return true;
    }
  }
}
