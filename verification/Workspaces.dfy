/** The saved workspace as a value: bounds, reading back, restore cap and merge of
  `WorkspacePersistence`. */
module Workspaces {
  import opened Basics

  const SCHEMA_VERSION: nat := 1
  const MAX_WINDOWS: nat := 64
  const MAX_TABS_PER_WINDOW: nat := 512
  const MAX_UUID_LENGTH: nat := 64
  const MAX_TAB_LABEL_LENGTH: nat := 256
  const MAX_GEOMETRY_BYTES: nat := 64 * 1024
  const MAX_DOCK_STATE_BYTES: nat := 128 * 1024

  const MAX_WORKSPACE_FILE_BYTES: nat := 32 * 1024 * 1024

  type Blob = seq<bv8>

  /** A `QString` is a sequence of UTF-16 code units, which is what the bounds count. */
  type CodeUnit = c: int | 0 <= c < 0x1_0000
  type QString = seq<CodeUnit>

  datatype Tab = Tab(sessionUuid: QString, autoLabel: QString, customLabel: QString, sourceMode: nat, skip: bool)
  datatype Window = Window(windowUuid: QString, geometry: Blob, dockState: Blob, tabs: seq<Tab>, activeTab: int)
  datatype Workspace = Workspace(schemaVersion: nat, generation: nat, windows: seq<Window>, mruOrder: seq<QString>)
  datatype RestorePlan = RestorePlan(toRestore: Workspace, deferred: Workspace)

  const EMPTY: Workspace := Workspace(0, 0, [], [])

  // ----- Bounds -----

  function Left<T>(s: seq<T>, n: nat): seq<T> { if |s| <= n then s else s[..n] }

  function ClampBytes(b: Blob, n: nat): Blob { if |b| <= n then b else [] }

  function SanitizedTab(t: Tab): Tab {
    Tab(Left(t.sessionUuid, MAX_UUID_LENGTH), Left(t.autoLabel, MAX_TAB_LABEL_LENGTH),
        Left(t.customLabel, MAX_TAB_LABEL_LENGTH), t.sourceMode, t.skip)
  }

  function ActiveTab(index: int, count: nat): int { if 0 <= index < count then index else 0 }

  function SanitizedWindow(w: Window): Window {
    var n := Min(|w.tabs|, MAX_TABS_PER_WINDOW);
    Window(Left(w.windowUuid, MAX_UUID_LENGTH), ClampBytes(w.geometry, MAX_GEOMETRY_BYTES),
           ClampBytes(w.dockState, MAX_DOCK_STATE_BYTES),
           seq(n, i requires 0 <= i < n => SanitizedTab(w.tabs[i])), ActiveTab(w.activeTab, n))
  }

  function SanitizedMru(mru: seq<QString>): (r: seq<QString>)
    ensures |r| <= MAX_WINDOWS
    ensures forall i :: 0 <= i < |r| ==> 0 < |r[i]| <= MAX_UUID_LENGTH
  {
    if mru == [] then [] else
      var init, last := SanitizedMru(mru[..|mru| - 1]), Left(mru[|mru| - 1], MAX_UUID_LENGTH);
      if last != [] && |init| < MAX_WINDOWS then init + [last] else init
  }

  function Sanitized(ws: Workspace): Workspace {
    var n := Min(|ws.windows|, MAX_WINDOWS);
    Workspace(SCHEMA_VERSION, ws.generation,
              seq(n, i requires 0 <= i < n => SanitizedWindow(ws.windows[i])), SanitizedMru(ws.mruOrder))
  }

  method SanitizeWindow(w: Window) returns (r: Window)
    ensures r == SanitizedWindow(w)
  {
    r := w.(windowUuid := Left(w.windowUuid, MAX_UUID_LENGTH),
            geometry := ClampBytes(w.geometry, MAX_GEOMETRY_BYTES),
            dockState := ClampBytes(w.dockState, MAX_DOCK_STATE_BYTES));
    if |r.tabs| > MAX_TABS_PER_WINDOW {
      r := r.(tabs := r.tabs[..MAX_TABS_PER_WINDOW]);
    }
    var tabs := r.tabs;
    for i := 0 to |tabs|
      invariant |tabs| == |r.tabs|
      invariant forall j :: 0 <= j < |tabs| ==> tabs[j] == if j < i then SanitizedTab(r.tabs[j]) else r.tabs[j]
    {
      tabs := tabs[i := SanitizedTab(tabs[i])];
    }
    r := r.(tabs := tabs);
    if r.activeTab < 0 || r.activeTab >= |r.tabs| {
      r := r.(activeTab := 0);
    }
    assert r.tabs == SanitizedWindow(w).tabs;
  }

  method Sanitize(ws: Workspace) returns (r: Workspace)
    ensures r == Sanitized(ws)
  {
    r := ws.(schemaVersion := SCHEMA_VERSION);
    if |r.windows| > MAX_WINDOWS {
      r := r.(windows := r.windows[..MAX_WINDOWS]);
    }
    var windows := r.windows;
    for i := 0 to |windows|
      invariant |windows| == |r.windows|
      invariant forall j :: 0 <= j < |windows| ==>
                  windows[j] == if j < i then SanitizedWindow(r.windows[j]) else r.windows[j]
    {
      var window := SanitizeWindow(windows[i]);
      windows := windows[i := window];
    }
    var clampedMru := [];
    for i := 0 to |r.mruOrder|
      invariant clampedMru == SanitizedMru(r.mruOrder[..i])
    {
      assert r.mruOrder[..i + 1][..i] == r.mruOrder[..i];
      var clamped := Left(r.mruOrder[i], MAX_UUID_LENGTH);
      if clamped != [] && |clampedMru| < MAX_WINDOWS {
        clampedMru := clampedMru + [clamped];
      }
    }
    assert r.mruOrder[..|r.mruOrder|] == r.mruOrder;
    r := r.(windows := windows, mruOrder := clampedMru);
    assert r.windows == Sanitized(ws).windows;
  }

  /** Within all write-side bounds. */
  predicate WindowBounded(w: Window) {
    && |w.windowUuid| <= MAX_UUID_LENGTH
    && |w.geometry| <= MAX_GEOMETRY_BYTES && |w.dockState| <= MAX_DOCK_STATE_BYTES
    && |w.tabs| <= MAX_TABS_PER_WINDOW
    && (forall i :: 0 <= i < |w.tabs| ==>
          && |w.tabs[i].sessionUuid| <= MAX_UUID_LENGTH && |w.tabs[i].autoLabel| <= MAX_TAB_LABEL_LENGTH
          && |w.tabs[i].customLabel| <= MAX_TAB_LABEL_LENGTH)
    && (0 <= w.activeTab < |w.tabs| || w.activeTab == 0)
  }

  predicate Bounded(ws: Workspace) {
    && ws.schemaVersion == SCHEMA_VERSION
    && |ws.windows| <= MAX_WINDOWS && (forall i :: 0 <= i < |ws.windows| ==> WindowBounded(ws.windows[i]))
    && |ws.mruOrder| <= MAX_WINDOWS
    && (forall i :: 0 <= i < |ws.mruOrder| ==> 0 < |ws.mruOrder[i]| <= MAX_UUID_LENGTH)
  }

  lemma WindowFixpoint(w: Window)
    ensures WindowBounded(SanitizedWindow(w))
    ensures WindowBounded(w) ==> SanitizedWindow(w) == w
  {
    if WindowBounded(w) {
      assert SanitizedWindow(w).tabs == w.tabs;
    }
  }

  lemma {:induction false} MruFixpoint(mru: seq<QString>)
    requires |mru| <= MAX_WINDOWS && forall i :: 0 <= i < |mru| ==> 0 < |mru[i]| <= MAX_UUID_LENGTH
    ensures SanitizedMru(mru) == mru
  {
    if mru != [] {
      MruFixpoint(mru[..|mru| - 1]);
    }
  }

  /** The workspaces that come out of `Sanitize` are those within the bounds, and these it
      leaves alone. */
  lemma SanitizeFixpointIffBounded(ws: Workspace)
    ensures Bounded(Sanitized(ws))
    ensures Sanitized(ws) == ws <==> Bounded(ws)
  {
    forall i | 0 <= i < |ws.windows| ensures WindowBounded(SanitizedWindow(ws.windows[i])) &&
        (WindowBounded(ws.windows[i]) ==> SanitizedWindow(ws.windows[i]) == ws.windows[i]) {
      WindowFixpoint(ws.windows[i]);
    }
    if Bounded(ws) {
      MruFixpoint(ws.mruOrder);
      assert Sanitized(ws).windows == ws.windows;
    }
  }

  /** Texts are cut, blobs are dropped, counts are cut from behind, and nothing else changes. */
  lemma SanitizedWindowIs(w: Window, t: nat)
    ensures var r := SanitizedWindow(w);
            && r.windowUuid <= w.windowUuid && |r.windowUuid| == Min(|w.windowUuid|, 64)
            && r.geometry == (if |w.geometry| <= 65536 then w.geometry else [])
            && r.dockState == (if |w.dockState| <= 131072 then w.dockState else [])
            && |r.tabs| == Min(|w.tabs|, 512)
            && r.activeTab == (if 0 <= w.activeTab < |r.tabs| then w.activeTab else 0)
            && (t < |r.tabs| ==>
                  && r.tabs[t].sessionUuid <= w.tabs[t].sessionUuid
                  && |r.tabs[t].sessionUuid| == Min(|w.tabs[t].sessionUuid|, 64)
                  && r.tabs[t].autoLabel <= w.tabs[t].autoLabel
                  && |r.tabs[t].autoLabel| == Min(|w.tabs[t].autoLabel|, 256)
                  && r.tabs[t].customLabel <= w.tabs[t].customLabel
                  && |r.tabs[t].customLabel| == Min(|w.tabs[t].customLabel|, 256)
                  && r.tabs[t].sourceMode == w.tabs[t].sourceMode && r.tabs[t].skip == w.tabs[t].skip)
  {
  }

  /** The first 64 windows are kept, each bounded by itself, and of the focus order the first 64
      entries that are not empty. */
  lemma SanitizedIs(ws: Workspace)
    ensures var r := Sanitized(ws);
            && r.schemaVersion == 1 && r.generation == ws.generation
            && |r.windows| == Min(|ws.windows|, 64)
            && (forall i :: 0 <= i < |r.windows| ==> r.windows[i] == SanitizedWindow(ws.windows[i]))
            && r.mruOrder == Left(ReadMru(ws.mruOrder), 64)
  {
    MruIsFirst(ws.mruOrder);
  }

  lemma {:induction false} ReadMruSnoc(mru: seq<QString>, last: QString)
    ensures ReadMru(mru + [last]) ==
            ReadMru(mru) + if last == [] then [] else [Left(last, MAX_UUID_LENGTH)]
  {
    var all := mru + [last];
    if mru == [] {
      assert all[1..] == [];
    } else {
      assert all[1..] == mru[1..] + [last];
      ReadMruSnoc(mru[1..], last);
    }
  }

  lemma {:induction false} MruIsFirst(mru: seq<QString>)
    ensures SanitizedMru(mru) == Left(ReadMru(mru), MAX_WINDOWS)
  {
    if mru != [] {
      var n := |mru| - 1;
      assert mru == mru[..n] + [mru[n]];
      MruIsFirst(mru[..n]);
      ReadMruSnoc(mru[..n], mru[n]);
    }
  }

  // ----- Reading back -----

  /** Characters of the base64 form of `n` bytes, padding included. */
  function EncodedLength(n: nat): nat { (n + 2) / 3 * 4 }

  /** The longest encoded text that is decoded. */
  function EncodedBound(bytes: nat): nat { (bytes * 4 + 2) / 3 + 4 }

  predicate Rejected(w: Window) {
    || EncodedLength(|w.geometry|) > EncodedBound(MAX_GEOMETRY_BYTES)
    || EncodedLength(|w.dockState|) > EncodedBound(MAX_DOCK_STATE_BYTES)
    || |w.tabs| > MAX_TABS_PER_WINDOW
  }

  function ReadMru(mru: seq<QString>): seq<QString> {
    if mru == [] then [] else
      var head, rest := Left(mru[0], MAX_UUID_LENGTH), ReadMru(mru[1..]);
      if head == [] then rest else [head] + rest
  }

  /** What `Read` makes of the document of `size` bytes that was written from `ws`: too large
      a file, one window, tab or focus entry too many, or one blob too long, and the whole
      workspace counts as absent. */
  function ReadBack(ws: Workspace, size: nat): Workspace {
    if size > MAX_WORKSPACE_FILE_BYTES || ws.schemaVersion != SCHEMA_VERSION
       || |ws.windows| > MAX_WINDOWS || |ws.mruOrder| > MAX_WINDOWS
       || exists i :: 0 <= i < |ws.windows| && Rejected(ws.windows[i])
    then EMPTY
    else
      Workspace(ws.schemaVersion, ws.generation,
                seq(|ws.windows|, i requires 0 <= i < |ws.windows| => SanitizedWindow(ws.windows[i])),
                ReadMru(ws.mruOrder))
  }

  lemma {:induction false} ReadMruKeeps(mru: seq<QString>)
    requires forall i :: 0 <= i < |mru| ==> 0 < |mru[i]| <= MAX_UUID_LENGTH
    ensures ReadMru(mru) == mru
  {
    if mru != [] {
      ReadMruKeeps(mru[1..]);
    }
  }

  lemma EncodedFits(n: nat, bytes: nat)
    requires n <= bytes
    ensures EncodedLength(n) <= EncodedBound(bytes)
  {
  }

  lemma BoundedIsAccepted(s: Workspace)
    requires Bounded(s)
    ensures ReadBack(s, 0) == s
  {
    forall i | 0 <= i < |s.windows| ensures !Rejected(s.windows[i]) && SanitizedWindow(s.windows[i]) == s.windows[i] {
      EncodedFits(|s.windows[i].geometry|, MAX_GEOMETRY_BYTES);
      EncodedFits(|s.windows[i].dockState|, MAX_DOCK_STATE_BYTES);
      WindowFixpoint(s.windows[i]);
    }
    ReadMruKeeps(s.mruOrder);
    assert ReadBack(s, 0).windows == s.windows;
  }

  /** What `Write` writes is read back unchanged exactly when the document is within the size
      that `Read` accepts; a larger one reads as no workspace at all. */
  lemma WrittenIsReadBack(ws: Workspace, size: nat)
    ensures ReadBack(Sanitized(ws), size) == Sanitized(ws) <==> size <= MAX_WORKSPACE_FILE_BYTES
    ensures ReadBack(Sanitized(ws), size) == if size <= MAX_WORKSPACE_FILE_BYTES then Sanitized(ws) else EMPTY
  {
    SanitizeFixpointIffBounded(ws);
    BoundedIsAccepted(Sanitized(ws));
  }

  /** Any document: it is accepted exactly within the file size, at version 1, with at most 64
      windows of at most 512 tabs, at most 64 focus entries, and blobs whose text is within
      the bounds; then it is read bounded, and otherwise as no workspace at all. */
  lemma ReadAcceptsIff(ws: Workspace, size: nat)
    ensures ReadBack(ws, size) != EMPTY <==>
            && size <= 33554432 && ws.schemaVersion == 1 && |ws.windows| <= 64 && |ws.mruOrder| <= 64
            && forall i :: 0 <= i < |ws.windows| ==>
                 |ws.windows[i].tabs| <= 512
                 && EncodedLength(|ws.windows[i].geometry|) <= 87386
                 && EncodedLength(|ws.windows[i].dockState|) <= 174767
    ensures ReadBack(ws, size) != EMPTY ==> ReadBack(ws, size) == Sanitized(ws)
  {
    assert EncodedBound(MAX_GEOMETRY_BYTES) == 87386 && EncodedBound(MAX_DOCK_STATE_BYTES) == 174767;
    if ReadBack(ws, size) != EMPTY {
      ReadMruShort(ws.mruOrder);
      MruIsFirst(ws.mruOrder);
      assert ReadBack(ws, size).windows == Sanitized(ws).windows;
    } else if size <= MAX_WORKSPACE_FILE_BYTES && ws.schemaVersion == 1 && |ws.windows| <= 64 && |ws.mruOrder| <= 64 {
      var i :| 0 <= i < |ws.windows| && Rejected(ws.windows[i]);
    }
  }

  lemma {:induction false} ReadMruShort(mru: seq<QString>)
    ensures |ReadMru(mru)| <= |mru|
  {
    if mru != [] {
      ReadMruShort(mru[1..]);
    }
  }

  // ----- The size of the document -----

  /** Bytes that the tab takes at least: one for each code unit. */
  function TabSize(t: Tab): nat { |t.sessionUuid| + |t.autoLabel| + |t.customLabel| }

  function TabsSize(tabs: seq<Tab>): nat {
    if tabs == [] then 0 else TabSize(tabs[0]) + TabsSize(tabs[1..])
  }

  function WindowSize(w: Window): nat {
    |w.windowUuid| + EncodedLength(|w.geometry|) + EncodedLength(|w.dockState|) + TabsSize(w.tabs)
  }

  /** Bytes that the document takes at least, whatever its layout. */
  function MinSize(windows: seq<Window>): nat {
    if windows == [] then 0 else WindowSize(windows[0]) + MinSize(windows[1..])
  }

  lemma {:induction false} TabsSizeAtLeast(tabs: seq<Tab>, n: nat)
    requires forall i :: 0 <= i < |tabs| ==> TabSize(tabs[i]) >= n
    ensures TabsSize(tabs) >= |tabs| * n
  {
    if tabs != [] {
      TabsSizeAtLeast(tabs[1..], n);
      assert |tabs| * n == n + |tabs[1..]| * n;
    }
  }

  lemma {:induction false} MinSizeAtLeast(windows: seq<Window>, n: nat)
    requires forall i :: 0 <= i < |windows| ==> WindowSize(windows[i]) >= n
    ensures MinSize(windows) >= |windows| * n
  {
    if windows != [] {
      MinSizeAtLeast(windows[1..], n);
      assert |windows| * n == n + |windows[1..]| * n;
    }
  }

  function Units(n: nat): (r: QString)
    ensures |r| == n
  {
    seq(n, _ => 0x30)
  }

  /** A workspace at its bounds: 64 windows of 512 tabs, every text and blob as long as
      allowed, each window with a UUID of its own. */
  function FullTab(): Tab {
    Tab(Units(MAX_UUID_LENGTH), Units(MAX_TAB_LABEL_LENGTH), Units(MAX_TAB_LABEL_LENGTH), 0, false)
  }

  function FullWindow(i: nat): Window {
    Window(Units(i + 1), seq(MAX_GEOMETRY_BYTES, _ => 0), seq(MAX_DOCK_STATE_BYTES, _ => 0),
           seq(MAX_TABS_PER_WINDOW, _ => FullTab()), 0)
  }

  function FullWorkspace(): Workspace {
    Workspace(SCHEMA_VERSION, 1, seq(MAX_WINDOWS, i requires 0 <= i < MAX_WINDOWS => FullWindow(i)), [])
  }

  lemma FullWindowSize(i: nat)
    requires i < MAX_WINDOWS
    ensures WindowBounded(FullWindow(i)) && WindowSize(FullWindow(i)) >= 557060
  {
    TabsSizeAtLeast(FullWindow(i).tabs, 576);
  }

  lemma FullWorkspaceBounds()
    ensures Bounded(FullWorkspace()) && MinSize(FullWorkspace().windows) > MAX_WORKSPACE_FILE_BYTES
  {
    hide FullWindow, WindowBounded, WindowSize, MinSize;
    var windows := FullWorkspace().windows;
    forall i | 0 <= i < |windows| ensures WindowBounded(windows[i]) && WindowSize(windows[i]) >= 557060 {
      assert windows[i] == FullWindow(i);
      FullWindowSize(i);
    }
    MinSizeAtLeast(windows, 557060);
  }

  /** Within all its bounds a workspace can be written that is too large to be read: however
      the document is laid out, the whole workspace is absent on the next launch. */
  lemma FullWorkspaceIsLost(size: nat)
    requires size >= MinSize(FullWorkspace().windows)
    ensures var ws := FullWorkspace();
            Sanitized(ws) == ws && |ws.windows| == MAX_WINDOWS && ReadBack(Sanitized(ws), size) == EMPTY
  {
    hide FullWindow, Bounded, Sanitized, MinSize;
    FullWorkspaceBounds();
    SanitizeFixpointIffBounded(FullWorkspace());
  }

  // ----- Restore cap and merge -----

  function PlanRestore(ws: Workspace, cap: nat): RestorePlan {
    if cap == 0 || |ws.windows| <= cap then RestorePlan(ws, ws.(windows := []))
    else RestorePlan(ws.(windows := ws.windows[..cap]), ws.(windows := ws.windows[cap..]))
  }

  predicate HasWindow(ws: seq<Window>, uuid: QString) {
    exists i :: 0 <= i < |ws| && ws[i].windowUuid == uuid
  }

  /** A deferred window joins the merged ones unless it is anonymous or already there. */
  predicate Joins(merged: seq<Window>, w: Window) { w.windowUuid != [] && !HasWindow(merged, w.windowUuid) }

  function MergedWindows(captured: seq<Window>, deferred: seq<Window>): seq<Window> {
    if deferred == [] then captured else
      var init, last := MergedWindows(captured, deferred[..|deferred| - 1]), deferred[|deferred| - 1];
      if Joins(init, last) then init + [last] else init
  }

  function MergedMru(order: seq<QString>): seq<QString> {
    if order == [] then [] else
      var init, last := MergedMru(order[..|order| - 1]), order[|order| - 1];
      if last != [] && last !in init then init + [last] else init
  }

  function Merged(captured: Workspace, deferred: Workspace): Workspace {
    Workspace(
      if captured.schemaVersion == 0 then deferred.schemaVersion else captured.schemaVersion,
      if captured.generation == 0 then deferred.generation else captured.generation,
      MergedWindows(captured.windows, deferred.windows),
      MergedMru(captured.mruOrder + deferred.mruOrder))
  }

  /** The merge of the program, with its sets of what was seen. */
  method MergeCapturedWithDeferred(captured: Workspace, deferred: Workspace) returns (r: Workspace)
    ensures r == Merged(captured, deferred)
  {
    var seenWindows: set<QString> := {};
    for i := 0 to |captured.windows|
      invariant forall u :: u in seenWindows <==> u != [] && HasWindow(captured.windows[..i], u)
    {
      HasWindowStep(captured.windows, i);
      if captured.windows[i].windowUuid != [] {
        seenWindows := seenWindows + {captured.windows[i].windowUuid};
      }
    }
    assert captured.windows[..|captured.windows|] == captured.windows;
    var windows := captured.windows;
    for i := 0 to |deferred.windows|
      invariant windows == MergedWindows(captured.windows, deferred.windows[..i])
      invariant forall u :: u in seenWindows <==> u != [] && HasWindow(windows, u)
    {
      var window := deferred.windows[i];
      assert deferred.windows[..i + 1][..i] == deferred.windows[..i];
      if window.windowUuid == [] || window.windowUuid in seenWindows {
        continue;
      }
      seenWindows := seenWindows + {window.windowUuid};
      assert (windows + [window])[..|windows|] == windows;
      HasWindowStep(windows + [window], |windows|);
      assert (windows + [window])[..|windows| + 1] == windows + [window];
      windows := windows + [window];
    }
    assert deferred.windows[..|deferred.windows|] == deferred.windows;
    var mergedMru := AppendMru([], [], captured.mruOrder);
    assert [] + captured.mruOrder == captured.mruOrder;
    mergedMru := AppendMru(captured.mruOrder, mergedMru, deferred.mruOrder);
    r := Workspace(captured.schemaVersion, captured.generation, windows, mergedMru);
    if captured.schemaVersion == 0 && deferred.schemaVersion != 0 {
      r := r.(schemaVersion := deferred.schemaVersion);
    }
    if captured.generation == 0 && deferred.generation != 0 {
      r := r.(generation := deferred.generation);
    }
  }

  lemma HasWindowStep(ws: seq<Window>, i: nat)
    requires i < |ws|
    ensures forall u :: HasWindow(ws[..i + 1], u) <==> HasWindow(ws[..i], u) || ws[i].windowUuid == u
  {
    forall u ensures HasWindow(ws[..i + 1], u) <==> HasWindow(ws[..i], u) || ws[i].windowUuid == u {
      if HasWindow(ws[..i], u) {
        var j :| 0 <= j < i && ws[..i][j].windowUuid == u;
        assert ws[..i + 1][j].windowUuid == u;
      }
      if ws[i].windowUuid == u {
        assert ws[..i + 1][i].windowUuid == u;
      }
      if HasWindow(ws[..i + 1], u) {
        var j :| 0 <= j < i + 1 && ws[..i + 1][j].windowUuid == u;
        assert j < i ==> ws[..i][j].windowUuid == u;
      }
    }
  }

  method AppendMru(ghost before: seq<QString>, merged: seq<QString>, order: seq<QString>) returns (r: seq<QString>)
    requires merged == MergedMru(before)
    ensures r == MergedMru(before + order)
  {
    r := merged;
    assert before + order[..0] == before;
    for i := 0 to |order|
      invariant r == MergedMru(before + order[..i])
    {
      assert (before + order[..i + 1])[..|before| + i] == before + order[..i];
      if order[i] == [] || order[i] in r {
        continue;
      }
      r := r + [order[i]];
    }
    assert order[..|order|] == order;
  }

  /** The deferred windows can all be told apart from each other and from the captured. */
  predicate Tellable(captured: seq<Window>, deferred: seq<Window>) {
    && (forall i :: 0 <= i < |deferred| ==>
          deferred[i].windowUuid != [] && !HasWindow(captured, deferred[i].windowUuid))
    && forall i, j :: 0 <= i < j < |deferred| ==> deferred[i].windowUuid != deferred[j].windowUuid
  }

  /** The merge keeps what was captured in front, adds no known or anonymous window, keeps
      each window that it adds as it was, and misses no deferred UUID. */
  lemma {:induction false} MergeKeepsAndMissesNothing(captured: seq<Window>, deferred: seq<Window>)
    ensures var r := MergedWindows(captured, deferred);
            && captured <= r && |r| <= |captured| + |deferred|
            && (forall i :: |captured| <= i < |r| ==>
                  r[i] in deferred && r[i].windowUuid != [] && !HasWindow(captured, r[i].windowUuid))
            && (forall i, j :: |captured| <= i < j < |r| ==> r[i].windowUuid != r[j].windowUuid)
            && (forall i :: 0 <= i < |deferred| && deferred[i].windowUuid != [] ==>
                  HasWindow(r, deferred[i].windowUuid))
  {
    if deferred != [] {
      var init, last := deferred[..|deferred| - 1], deferred[|deferred| - 1];
      MergeKeepsAndMissesNothing(captured, init);
      var r0, r := MergedWindows(captured, init), MergedWindows(captured, deferred);
      if Joins(r0, last) {
        assert r[|r0|].windowUuid == last.windowUuid;
        forall i | 0 <= i < |r0| ensures r[i].windowUuid != last.windowUuid {
          assert !HasWindow(r0, last.windowUuid);
        }
        forall i | 0 <= i < |captured| ensures captured[i].windowUuid != last.windowUuid {
          assert r0[i] == captured[i];
        }
      }
      forall i | 0 <= i < |deferred| && deferred[i].windowUuid != [] ensures HasWindow(r, deferred[i].windowUuid) {
        if i < |init| {
          assert init[i] == deferred[i];
          var j :| 0 <= j < |r0| && r0[j].windowUuid == init[i].windowUuid;
          assert r[j] == r0[j];
        }
      }
    }
  }

  lemma {:induction false} MergeAllIffTellable(captured: seq<Window>, deferred: seq<Window>)
    ensures MergedWindows(captured, deferred) == captured + deferred <==> Tellable(captured, deferred)
  {
    if deferred != [] {
      var init, last := deferred[..|deferred| - 1], deferred[|deferred| - 1];
      MergeAllIffTellable(captured, init);
      MergeKeepsAndMissesNothing(captured, init);
      var r0 := MergedWindows(captured, init);
      assert captured + deferred == (captured + init) + [last];
      if Tellable(captured, init) {
        TellableLast(captured, init, last);
        assert init + [last] == deferred;
      } else if Tellable(captured, deferred) {
        TellableInit(captured, deferred);
      } else {
        SameTail(r0, captured + init, last);
      }
    }
  }

  lemma SameTail<T>(a: seq<T>, b: seq<T>, x: T)
    ensures a + [x] == b + [x] <==> a == b
  {
    assert (a + [x])[..|a|] == a && (b + [x])[..|b|] == b;
  }

  lemma TellableInit(captured: seq<Window>, deferred: seq<Window>)
    requires deferred != [] && Tellable(captured, deferred)
    ensures Tellable(captured, deferred[..|deferred| - 1])
  {
    var init := deferred[..|deferred| - 1];
    assert forall i :: 0 <= i < |init| ==> init[i] == deferred[i];
  }

  lemma TellableLast(captured: seq<Window>, init: seq<Window>, last: Window)
    requires Tellable(captured, init)
    ensures Tellable(captured, init + [last]) <==> Joins(captured + init, last)
  {
    var all, u := captured + init, last.windowUuid;
    var deferred := init + [last];
    assert HasWindow(all, u) <==> HasWindow(captured, u) || HasWindow(init, u) by {
      if HasWindow(captured, u) {
        var i :| 0 <= i < |captured| && captured[i].windowUuid == u;
        assert all[i].windowUuid == u;
      }
      if HasWindow(init, u) {
        var i :| 0 <= i < |init| && init[i].windowUuid == u;
        assert all[|captured| + i].windowUuid == u;
      }
    }
    if Tellable(captured, deferred) {
      assert deferred[|init|] == last;
      assert forall i :: 0 <= i < |init| ==> deferred[i] == init[i];
    }
  }

  /** Quitting without touching a window gives back all windows in their order exactly when
      the deferred ones have UUIDs of their own; the cap itself never loses one. */
  lemma RestoreCapRoundTrip(ws: Workspace, cap: nat)
    ensures var plan := PlanRestore(ws, cap);
            && plan.toRestore.windows + plan.deferred.windows == ws.windows
            && |plan.toRestore.windows| == (if cap == 0 then |ws.windows| else Min(|ws.windows|, cap))
            && plan.toRestore == ws.(windows := plan.toRestore.windows)
            && plan.deferred == ws.(windows := plan.deferred.windows)
            && (Merged(plan.toRestore, plan.deferred).windows == ws.windows <==>
                Tellable(plan.toRestore.windows, plan.deferred.windows))
  {
    var plan := PlanRestore(ws, cap);
    MergeAllIffTellable(plan.toRestore.windows, plan.deferred.windows);
  }

  predicate DistinctWindows(ws: seq<Window>) {
    && (forall i :: 0 <= i < |ws| ==> ws[i].windowUuid != [])
    && forall i, j :: 0 <= i < j < |ws| ==> ws[i].windowUuid != ws[j].windowUuid
  }

  lemma DistinctTellable(ws: seq<Window>, cap: nat)
    requires DistinctWindows(ws) && cap <= |ws|
    ensures Tellable(ws[..cap], ws[cap..])
  {
    forall i | 0 <= i < |ws| - cap ensures !HasWindow(ws[..cap], ws[cap..][i].windowUuid) {
    }
  }

  /** The first deferred window of a UUID that was not captured is taken. */
  lemma {:induction false} MergeTakes(captured: seq<Window>, deferred: seq<Window>, i: nat)
    requires i < |deferred| && Joins(captured + deferred[..i], deferred[i])
    ensures deferred[i] in MergedWindows(captured, deferred)
  {
    var init, last := deferred[..|deferred| - 1], deferred[|deferred| - 1];
    if i < |init| {
      assert init[..i] == deferred[..i];
      MergeTakes(captured, init, i);
    } else {
      var r0 := MergedWindows(captured, init);
      MergeKeepsAndMissesNothing(captured, init);
      forall j | 0 <= j < |r0| ensures r0[j].windowUuid != last.windowUuid {
        if j < |captured| {
          assert (captured + init)[j] == r0[j];
        } else {
          var k :| 0 <= k < |init| && init[k] == r0[j];
          assert (captured + init)[|captured| + k] == r0[j];
        }
      }
    }
  }

  /** The focus order has no empty and no repeated entry, and every other entry of both. */
  lemma {:induction false} MergedMruIsDeduplicated(order: seq<QString>)
    ensures var r := MergedMru(order);
            && (forall u :: u in r <==> u != [] && u in order)
            && forall i, j :: 0 <= i < j < |r| ==> r[i] != r[j]
  {
    if order != [] {
      var init, last := order[..|order| - 1], order[|order| - 1];
      MergedMruIsDeduplicated(init);
      assert order == init + [last];
      assert forall u :: u in order <==> u in init || u == last;
    }
  }

  /** Does the entry occur before the other one in the list? */
  predicate FirstBefore(order: seq<QString>, u: QString, v: QString) {
    exists i :: 0 <= i < |order| && order[i] == u && v !in order[..i + 1]
  }

  /** The merged focus order keeps the order in which entries first occur, those of the captured
      workspace before the others. */
  lemma {:induction false} MergedMruKeepsOrder(order: seq<QString>, i: nat, j: nat)
    requires i < j < |MergedMru(order)|
    ensures FirstBefore(order, MergedMru(order)[i], MergedMru(order)[j])
  {
    var init, last := order[..|order| - 1], order[|order| - 1];
    var r, u, v := MergedMru(init), MergedMru(order)[i], MergedMru(order)[j];
    assert order == init + [last];
    MergedMruIsDeduplicated(init);
    if j < |r| {
      MergedMruKeepsOrder(init, i, j);
      var k :| 0 <= k < |init| && init[k] == u && v !in init[..k + 1];
      assert order[..k + 1] == init[..k + 1] && order[k] == u;
    } else {
      assert v == last && v !in r && v !in init && u in init;
      var k :| 0 <= k < |init| && init[k] == u;
      assert order[..k + 1] == init[..k + 1] && order[k] == u;
      forall x | x in init[..k + 1] ensures x in init {
      }
    }
  }

  /** Version and generation are the captured ones unless these are absent. */
  lemma MergedIs(captured: Workspace, deferred: Workspace)
    ensures var r := Merged(captured, deferred);
            && (captured.generation != 0 ==> r.generation == captured.generation)
            && (captured.generation == 0 ==> r.generation == deferred.generation)
            && (captured.schemaVersion != 0 ==> r.schemaVersion == captured.schemaVersion)
            && (captured.schemaVersion == 0 ==> r.schemaVersion == deferred.schemaVersion)
            && r.windows == MergedWindows(captured.windows, deferred.windows)
            && forall u :: u in r.mruOrder <==> u != [] && (u in captured.mruOrder || u in deferred.mruOrder)
  {
    var order := captured.mruOrder + deferred.mruOrder;
    MergedMruIsDeduplicated(order);
    forall u ensures u in order <==> u in captured.mruOrder || u in deferred.mruOrder {
    }
  }
}
