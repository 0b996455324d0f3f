/** Launches and quits: the workspace is read, split by the restore cap, merged with what the
  windows look like at the quit, and published.

  `size` gives the bytes of the document that a workspace is written as. */
module Launches {
  import opened Basics
  import opened Workspaces
  import opened Snapshots
  import opened Publishing

  type SizeOf = Workspace -> nat

  /** One launch and the quit that follows: whether the manifest could be opened, the cap, the
      session files at the quit, whether the publishing succeeded and what befell it. */
  datatype Cycle = Cycle(readable: bool, cap: nat, recents: Directory, committed: bool, o: Outcomes)

  predicate ReadOk(d: Disk, size: SizeOf, c: Cycle) { c.readable && size(d.manifest) <= MAX_WORKSPACE_FILE_BYTES }

  /** What the launch reads. */
  function Launched(d: Disk, size: SizeOf, c: Cycle): Workspace {
    if c.readable then ReadBack(d.manifest, size(d.manifest)) else EMPTY
  }

  function AtQuit(d: Disk, c: Cycle): Disk { d.(recents := c.recents) }

  /** What the quit publishes. */
  function Quitting(d: Disk, size: SizeOf, c: Cycle, captured: Workspace): Workspace {
    Merged(captured, PlanRestore(Launched(d, size, c), c.cap).deferred)
  }

  /** The quit, as `Publish` promises it. */
  ghost predicate Quits(d: Disk, ws: Workspace, committed: bool, o: Outcomes, out: Workspace, next: Disk) {
    if !committed then
      && next.manifest == d.manifest
      && (Harmless(d, ws, o) && Restorable(d) ==> Restorable(next))
    else
      && NextGeneration(d, o.read) != 0 && Snapshotted(d, ws, o, out) && next.manifest == Sanitized(out)
      && NextGeneration(d, o.read) in next.generations
      && next.generations[NextGeneration(d, o.read)] == Copied(d, ws, o).dir
  }

  ghost predicate Cycled(d: Disk, size: SizeOf, c: Cycle, captured: Workspace, next: Disk) {
    exists out :: Quits(AtQuit(d, c), Quitting(d, size, c, captured), c.committed, c.o, out, next)
  }

  /** The user changes nothing: what was restored is captured. */
  ghost predicate IdleCycle(d: Disk, size: SizeOf, c: Cycle, next: Disk) {
    Cycled(d, size, c, PlanRestore(Launched(d, size, c), c.cap).toRestore, next)
  }

  // ----- The same windows but for claims -----

  predicate SameTab(a: Tab, b: Tab) { a == b || a == b.(sessionUuid := []) }

  /** The window with its tabs, none of which has another session than before. */
  predicate SameWindow(a: Window, b: Window) {
    && a == b.(tabs := a.tabs) && |a.tabs| == |b.tabs|
    && forall t :: 0 <= t < |a.tabs| ==> SameTab(a.tabs[t], b.tabs[t])
  }

  predicate SameButClaims(a: seq<Window>, b: seq<Window>) {
    |a| == |b| && forall w :: 0 <= w < |a| ==> SameWindow(a[w], b[w])
  }

  lemma SameButClaimsTransitive(a: seq<Window>, b: seq<Window>, c: seq<Window>)
    requires SameButClaims(a, b) && SameButClaims(b, c)
    ensures SameButClaims(a, c)
  {
    forall w | 0 <= w < |a| ensures SameWindow(a[w], c[w]) {
      assert SameWindow(a[w], b[w]) && SameWindow(b[w], c[w]);
      forall t | 0 <= t < |a[w].tabs| ensures SameTab(a[w].tabs[t], c[w].tabs[t]) {
        assert SameTab(a[w].tabs[t], b[w].tabs[t]) && SameTab(b[w].tabs[t], c[w].tabs[t]);
      }
    }
  }

  lemma SameWindowBounded(a: Window, b: Window)
    requires SameWindow(a, b) && WindowBounded(b)
    ensures WindowBounded(a) && SanitizedWindow(a) == a
  {
    forall t | 0 <= t < |a.tabs|
      ensures |a.tabs[t].sessionUuid| <= |b.tabs[t].sessionUuid| && a.tabs[t].autoLabel == b.tabs[t].autoLabel
              && a.tabs[t].customLabel == b.tabs[t].customLabel
    {
      assert SameTab(a.tabs[t], b.tabs[t]);
    }
    WindowFixpoint(a);
  }

  /** The copying clears claims and changes nothing else. */
  lemma SnapshottedSame(d: Disk, ws: Workspace, o: Outcomes, out: Workspace)
    requires Snapshotted(d, ws, o, out)
    ensures SameButClaims(out.windows, ws.windows)
  {
    hide CopyTabs, LooksLikeUuid, AllTabs, Sourced;
    SameFlags(out.windows, ws.windows);
    forall w | 0 <= w < |out.windows| ensures SameWindow(out.windows[w], ws.windows[w]) {
      forall t | 0 <= t < |out.windows[w].tabs| ensures SameTab(out.windows[w].tabs[t], ws.windows[w].tabs[t]) {
        SnapshottedTab(d, ws, o, out, w, t);
      }
    }
  }

  lemma {:induction false} SameIndex(a: seq<Window>, b: seq<Window>, w: nat, t: nat) returns (i: nat)
    requires SameWindows(a, b) && w < |a| && t < |a[w].tabs|
    ensures i < |AllTabs(a)| == |AllTabs(b)|
    ensures AllTabs(a)[i] == a[w].tabs[t] && AllTabs(b)[i] == b[w].tabs[t]
  {
    hide KeptFlags;
    var n := |a| - 1;
    SameFlags(a, b);
    SameFlags(a[..n], b[..n]);
    if w < n {
      assert a[..n][w] == a[w] && b[..n][w] == b[w];
      i := SameIndex(a[..n], b[..n], w, t);
    } else {
      i := |AllTabs(a[..n])| + t;
    }
  }

  lemma SnapshottedTab(d: Disk, ws: Workspace, o: Outcomes, out: Workspace, w: nat, t: nat)
    requires Snapshotted(d, ws, o, out) && w < |out.windows| && t < |out.windows[w].tabs|
    ensures SameTab(out.windows[w].tabs[t], ws.windows[w].tabs[t])
  {
    hide CopyTabs, LooksLikeUuid, AllTabs, Sourced;
    var i := SameIndex(out.windows, ws.windows, w, t);
    KeptIsSourced(DirectoryOf(d, NextGeneration(d, o.read)), CallSources(d, o), AllTabs(ws.windows), o.faults, i);
  }

  // ----- Cycles in which nothing is touched -----

  /** What a bounded manifest is read as. */
  lemma LaunchedIs(d: Disk, size: SizeOf, c: Cycle)
    requires Bounded(d.manifest)
    ensures Launched(d, size, c) == if ReadOk(d, size, c) then d.manifest else EMPTY
  {
    SanitizeFixpointIffBounded(d.manifest);
    WrittenIsReadBack(d.manifest, size(d.manifest));
  }

  lemma IdleQuitting(d: Disk, size: SizeOf, c: Cycle)
    requires Bounded(d.manifest) && DistinctWindows(d.manifest.windows)
    ensures var launched := Launched(d, size, c);
            Quitting(d, size, c, PlanRestore(launched, c.cap).toRestore).windows == launched.windows
  {
    LaunchedIs(d, size, c);
    var launched := Launched(d, size, c);
    var plan := PlanRestore(launched, c.cap);
    RestoreCapRoundTrip(launched, c.cap);
    DistinctTellable(launched.windows, |plan.toRestore.windows|);
  }

  lemma CommittedSame(d: Disk, ws: Workspace, o: Outcomes, out: Workspace, next: Disk)
    requires Quits(d, ws, true, o, out, next)
    requires |ws.windows| <= MAX_WINDOWS && forall w :: 0 <= w < |ws.windows| ==> WindowBounded(ws.windows[w])
    ensures Bounded(next.manifest) && next.manifest.windows == out.windows
    ensures SameButClaims(next.manifest.windows, ws.windows)
  {
    hide CopyTabs, AllTabs, WindowBounded, SanitizedWindow, SameWindow;
    SnapshottedSame(d, ws, o, out);
    SanitizeFixpointIffBounded(out);
    forall w | 0 <= w < |out.windows| ensures SanitizedWindow(out.windows[w]) == out.windows[w] {
      SameWindowBounded(out.windows[w], ws.windows[w]);
    }
    assert Sanitized(out).windows == out.windows;
  }

  lemma IdleCommitted(d: Disk, size: SizeOf, c: Cycle, next: Disk)
    requires Bounded(d.manifest) && DistinctWindows(d.manifest.windows) && IdleCycle(d, size, c, next) && c.committed
    ensures Bounded(next.manifest) && SameButClaims(next.manifest.windows, Launched(d, size, c).windows)
  {
    hide WindowBounded, Quits, SanitizedWindow, SameWindow;
    LaunchedIs(d, size, c);
    IdleQuitting(d, size, c);
    var ws := Quitting(d, size, c, PlanRestore(Launched(d, size, c), c.cap).toRestore);
    var out :| Quits(AtQuit(d, c), ws, true, c.o, out, next);
    CommittedSame(AtQuit(d, c), ws, c.o, out, next);
  }

  /** One untouched cycle: whatever fails at the quit, no window is lost and nothing of a window
      but claims, exactly when the launch could read the manifest, or the publishing failed,
      or there were no windows. */
  lemma IdleCycleKeepsIff(d: Disk, size: SizeOf, c: Cycle, next: Disk)
    requires Bounded(d.manifest) && DistinctWindows(d.manifest.windows) && IdleCycle(d, size, c, next)
    ensures Bounded(next.manifest)
    ensures SameButClaims(next.manifest.windows, d.manifest.windows) <==>
            ReadOk(d, size, c) || !c.committed || d.manifest.windows == []
  {
    hide WindowBounded, SanitizedWindow;
    LaunchedIs(d, size, c);
    if c.committed {
      IdleCommitted(d, size, c, next);
    }
  }

  lemma SameButClaimsDistinct(a: seq<Window>, b: seq<Window>)
    requires SameButClaims(a, b) && DistinctWindows(b)
    ensures DistinctWindows(a)
  {
    forall w | 0 <= w < |a| ensures a[w].windowUuid == b[w].windowUuid {
      assert SameWindow(a[w], b[w]);
    }
  }

  /** Disks joined by untouched cycles in which every launch could read the manifest. */
  ghost predicate IdleRun(disks: seq<Disk>, size: SizeOf, cycles: seq<Cycle>) {
    && |disks| == |cycles| + 1
    && forall i :: 0 <= i < |cycles| ==>
         ReadOk(disks[i], size, cycles[i]) && IdleCycle(disks[i], size, cycles[i], disks[i + 1])
  }

  lemma IdleRunTail(disks: seq<Disk>, size: SizeOf, cycles: seq<Cycle>)
    requires IdleRun(disks, size, cycles) && cycles != []
    ensures IdleRun(disks[1..], size, cycles[1..])
  {
    hide ReadOk, IdleCycle;
    forall i | 0 <= i < |cycles| - 1
      ensures ReadOk(disks[1..][i], size, cycles[1..][i])
              && IdleCycle(disks[1..][i], size, cycles[1..][i], disks[1..][i + 1])
    {
      assert ReadOk(disks[i + 1], size, cycles[i + 1]);
    }
  }

  /** Over any number of launches and quits that change nothing, with any caps and whatever
      fails at the quits, no window is lost and nothing of a window but claims. */
  lemma {:induction false} CyclesKeepWindows(disks: seq<Disk>, size: SizeOf, cycles: seq<Cycle>)
    requires IdleRun(disks, size, cycles)
    requires Bounded(disks[0].manifest) && DistinctWindows(disks[0].manifest.windows)
    ensures var last := disks[|cycles|].manifest;
            Bounded(last) && SameButClaims(last.windows, disks[0].manifest.windows)
    decreases |cycles|
  {
    if cycles != [] {
      hide Bounded, DistinctWindows, IdleCycle, SameButClaims, ReadOk;
      assert ReadOk(disks[0], size, cycles[0]);
      IdleCycleKeepsIff(disks[0], size, cycles[0], disks[1]);
      SameButClaimsDistinct(disks[1].manifest.windows, disks[0].manifest.windows);
      IdleRunTail(disks, size, cycles);
      CyclesKeepWindows(disks[1..], size, cycles[1..]);
      assert disks[1..][|cycles| - 1] == disks[|cycles|];
      SameButClaimsTransitive(
        disks[|cycles|].manifest.windows, disks[1].manifest.windows, disks[0].manifest.windows);
    }
  }

  // ----- When claims are kept too -----

  /** Every claim of the windows can be copied. */
  predicate AllSourced(windows: seq<Window>, from: Sources) {
    forall i :: 0 <= i < |AllTabs(windows)| && AllTabs(windows)[i].sessionUuid != [] ==>
      Sourced(AllTabs(windows)[i].sessionUuid, from)
  }

  ghost predicate FaultlessCycle(c: Cycle) { c.o.read && c.o.readAgain && Faultless(c.o.faults) }

  lemma {:induction false} AllTabsDetermine(a: seq<Window>, b: seq<Window>)
    requires SameWindows(a, b) && AllTabs(a) == AllTabs(b)
    ensures a == b
  {
    if a != [] {
      var n := |a| - 1;
      SameFlags(a[..n], b[..n]);
      assert AllTabs(a)[..|AllTabs(a[..n])|] == AllTabs(a[..n]);
      assert AllTabs(b)[..|AllTabs(b[..n])|] == AllTabs(b[..n]);
      AllTabsDetermine(a[..n], b[..n]);
      assert AllTabs(a)[|AllTabs(a[..n])|..] == a[n].tabs && AllTabs(b)[|AllTabs(b[..n])|..] == b[n].tabs;
      assert a[n] == b[n];
      assert a == a[..n] + [a[n]] && b == b[..n] + [b[n]];
    }
  }

  /** Without failures the copying keeps all windows as they are exactly when every claim can be
      copied. */
  lemma FaultlessSnapshotIff(d: Disk, ws: Workspace, o: Outcomes, out: Workspace)
    requires Snapshotted(d, ws, o, out) && Faultless(o.faults)
    ensures out.windows == ws.windows <==> AllSourced(ws.windows, CallSources(d, o))
  {
    hide CopyTabs, AllTabs, Sourced, Faultless;
    var tabs, from := AllTabs(ws.windows), CallSources(d, o);
    var s := Copied(d, ws, o);
    FaultlessKeepsSourced(DirectoryOf(d, NextGeneration(d, o.read)), from, tabs, o.faults);
    if AllSourced(ws.windows, from) {
      forall i | 0 <= i < |tabs| ensures s.tabs[i] == tabs[i] {
        assert tabs[i].sessionUuid != [] ==> Sourced(tabs[i].sessionUuid, from);
      }
      assert s.tabs == tabs;
      AllTabsDetermine(out.windows, ws.windows);
    } else {
      var i :| 0 <= i < |tabs| && tabs[i].sessionUuid != [] && !Sourced(tabs[i].sessionUuid, from);
      assert s.tabs[i] != tabs[i];
    }
  }

  /** A faultless untouched cycle leaves all windows as they are, claims included, exactly when
      every claim can be copied from the recents or the published generation. */
  lemma FaultlessCycleKeepsAllIff(d: Disk, size: SizeOf, c: Cycle, next: Disk)
    requires Bounded(d.manifest) && DistinctWindows(d.manifest.windows) && IdleCycle(d, size, c, next)
    requires ReadOk(d, size, c) && c.committed && FaultlessCycle(c)
    ensures next.manifest.windows == d.manifest.windows <==>
            AllSourced(d.manifest.windows, CallSources(AtQuit(d, c), c.o))
  {
    hide WindowBounded, SanitizedWindow, Snapshotted, AllTabs, CopyTabs, Sourced;
    LaunchedIs(d, size, c);
    IdleQuitting(d, size, c);
    var ws := Quitting(d, size, c, PlanRestore(Launched(d, size, c), c.cap).toRestore);
    var out :| Quits(AtQuit(d, c), ws, true, c.o, out, next);
    CommittedSame(AtQuit(d, c), ws, c.o, out, next);
    FaultlessSnapshotIff(AtQuit(d, c), ws, c.o, out);
  }

  /** Every claim of the manifest is a UUID. */
  predicate ClaimsAreUuids(windows: seq<Window>) {
    forall i :: 0 <= i < |AllTabs(windows)| && AllTabs(windows)[i].sessionUuid != [] ==>
      LooksLikeUuid(AllTabs(windows)[i].sessionUuid)
  }

  /** On a restorable disk the published generation is a source for every claim, whatever has
      become of the session files. */
  lemma RestorableIsSourced(d: Disk, c: Cycle)
    requires Restorable(d) && ClaimsAreUuids(d.manifest.windows) && FaultlessCycle(c)
    requires NextGeneration(AtQuit(d, c), true) != 0
    ensures AllSourced(d.manifest.windows, CallSources(AtQuit(d, c), c.o))
  {
    hide LooksLikeUuid, AllTabs;
    SameGenerationIff(AtQuit(d, c), true);
  }

  /** After a faultless commit the disk is restorable, repeated sessions or not. */
  lemma FaultlessCommitRestorable(d: Disk, ws: Workspace, o: Outcomes, out: Workspace, next: Disk)
    requires Quits(d, ws, true, o, out, next) && Faultless(o.faults) && Bounded(next.manifest)
    requires next.manifest.windows == out.windows
    ensures Restorable(next)
  {
    hide CopyTabs, AllTabs, Sourced, Faultless;
    FaultlessKeepsSourced(DirectoryOf(d, NextGeneration(d, o.read)), CallSources(d, o), AllTabs(ws.windows), o.faults);
    assert next.manifest.generation == out.generation == NextGeneration(d, o.read);
  }

  lemma FaultlessStep(d: Disk, size: SizeOf, c: Cycle, next: Disk)
    requires Bounded(d.manifest) && DistinctWindows(d.manifest.windows) && IdleCycle(d, size, c, next)
    requires Restorable(d) && ClaimsAreUuids(d.manifest.windows) && ReadOk(d, size, c) && FaultlessCycle(c)
    ensures Bounded(next.manifest) && next.manifest.windows == d.manifest.windows && Restorable(next)
  {
    hide WindowBounded, SanitizedWindow, Snapshotted, AllTabs, CopyTabs, Sourced, LooksLikeUuid, Covered;
    LaunchedIs(d, size, c);
    IdleQuitting(d, size, c);
    var q, ws := AtQuit(d, c), Quitting(d, size, c, PlanRestore(Launched(d, size, c), c.cap).toRestore);
    var out :| Quits(q, ws, c.committed, c.o, out, next);
    if c.committed {
      CommittedSame(q, ws, c.o, out, next);
      RestorableIsSourced(d, c);
      FaultlessCycleKeepsAllIff(d, size, c, next);
      FaultlessCommitRestorable(q, ws, c.o, out, next);
    } else {
      ReadIsHarmless(q, ws, c.o);
      assert Restorable(q);
    }
  }

  lemma ReadIsHarmless(d: Disk, ws: Workspace, o: Outcomes)
    requires o.read
    ensures Harmless(d, ws, o)
  {
    hide Sourced, AllTabs, Claimed;
    if NextGeneration(d, true) != 0 {
      SameGenerationIff(d, true);
    }
  }

  /** Over any number of untouched cycles without failures of reads and copies, from a restorable
      disk whose claims are UUIDs, windows and claims stay as they are and restorable, even
      when commits fail and session files come and go. */
  lemma {:induction false} FaultlessCyclesKeepAll(disks: seq<Disk>, size: SizeOf, cycles: seq<Cycle>)
    requires IdleRun(disks, size, cycles) && forall i :: 0 <= i < |cycles| ==> FaultlessCycle(cycles[i])
    requires Bounded(disks[0].manifest) && DistinctWindows(disks[0].manifest.windows)
    requires Restorable(disks[0]) && ClaimsAreUuids(disks[0].manifest.windows)
    ensures disks[|cycles|].manifest.windows == disks[0].manifest.windows && Restorable(disks[|cycles|])
    decreases |cycles|
  {
    if cycles != [] {
      hide Bounded, DistinctWindows, IdleCycle, ReadOk, Restorable, ClaimsAreUuids, FaultlessCycle;
      assert ReadOk(disks[0], size, cycles[0]) && FaultlessCycle(cycles[0]);
      FaultlessStep(disks[0], size, cycles[0], disks[1]);
      IdleRunTail(disks, size, cycles);
      forall i | 0 <= i < |cycles| - 1 ensures FaultlessCycle(cycles[1..][i]) {
        assert FaultlessCycle(cycles[i + 1]);
      }
      FaultlessCyclesKeepAll(disks[1..], size, cycles[1..]);
      assert disks[1..][|cycles| - 1] == disks[|cycles|];
    }
  }

  // ----- Quits after changes -----

  predicate SavedAs(saved: seq<Window>, w: Window) {
    exists k :: 0 <= k < |saved| && SameWindow(saved[k], w)
  }

  /** Whatever the user did to the restored windows, a quit that is published after a readable
      launch saves every deferred window with a UUID of its own, unchanged but for claims,
      as long as there are at most 64 in all; with more, windows are lost. */
  lemma QuitSavesDeferred(d: Disk, size: SizeOf, c: Cycle, captured: Workspace, next: Disk)
    requires Bounded(d.manifest) && ReadOk(d, size, c) && c.committed && Cycled(d, size, c, captured, next)
    ensures var deferred := PlanRestore(d.manifest, c.cap).deferred.windows;
            var merged := MergedWindows(captured.windows, deferred);
            var saved := next.manifest.windows;
            && |saved| == Min(|merged|, MAX_WINDOWS)
            && (|merged| <= MAX_WINDOWS ==>
                  forall i :: 0 <= i < |deferred| && Joins(captured.windows + deferred[..i], deferred[i]) ==>
                    SavedAs(saved, deferred[i]))
  {
    hide WindowBounded, SanitizedWindow, CopyTabs, AllTabs, SameWindow;
    LaunchedIs(d, size, c);
    var deferred := PlanRestore(d.manifest, c.cap).deferred.windows;
    var ws := Quitting(d, size, c, captured);
    var out :| Quits(AtQuit(d, c), ws, true, c.o, out, next);
    SnapshottedSame(AtQuit(d, c), ws, c.o, out);
    if |ws.windows| <= MAX_WINDOWS {
      forall i | 0 <= i < |deferred| && Joins(captured.windows + deferred[..i], deferred[i])
        ensures SavedAs(next.manifest.windows, deferred[i])
      {
        MergeTakes(captured.windows, deferred, i);
        var k :| 0 <= k < |ws.windows| && ws.windows[k] == deferred[i];
        SameWindowBounded(out.windows[k], deferred[i]);
        assert next.manifest.windows[k] == out.windows[k];
      }
    }
  }

  /** A launch that could not read the manifest, because it is too large or cannot be opened,
      loses every window at the next published quit: only captured ones are saved. */
  lemma UnreadLaunchLosesWindows(d: Disk, size: SizeOf, c: Cycle, captured: Workspace, next: Disk)
    requires Bounded(d.manifest) && !ReadOk(d, size, c) && c.committed && Cycled(d, size, c, captured, next)
    ensures |next.manifest.windows| == Min(|captured.windows|, MAX_WINDOWS)
    ensures forall w :: 0 <= w < |next.manifest.windows| ==>
              next.manifest.windows[w].windowUuid == Left(captured.windows[w].windowUuid, MAX_UUID_LENGTH)
  {
    hide WindowBounded, CopyTabs, AllTabs;
    LaunchedIs(d, size, c);
    var ws := Quitting(d, size, c, captured);
    var out :| Quits(AtQuit(d, c), ws, true, c.o, out, next);
    SnapshottedSame(AtQuit(d, c), ws, c.o, out);
    assert forall w :: 0 <= w < |out.windows| ==> SameWindow(out.windows[w], ws.windows[w]);
  }

  // ----- The program -----

  /** `LoadForLaunch` on the store's disk. */
  method LoadForLaunch(store: WorkspaceStore, readable: bool, size: nat, cap: nat) returns (plan: RestorePlan)
    ensures plan == PlanRestore(if readable then ReadBack(store.disk.manifest, size) else EMPTY, cap)
    ensures plan.deferred.windows == [] <==>
              cap == 0 || |plan.toRestore.windows| + |plan.deferred.windows| <= cap
  {
    var workspace := if readable then ReadBack(store.disk.manifest, size) else EMPTY;
    plan := PlanRestore(workspace, cap);
  }

  /** The quit handler: merge with the deferred windows, then publish.  Enabled, with a
      directory and a commit that work, it publishes. */
  method Quit(store: WorkspaceStore, captured: Workspace, deferred: Workspace,
              enabled: bool, mkdir: bool, commit: bool, o: Outcomes, removed: nat -> bool)
    returns (ok: bool, ghost out: Workspace)
    modifies store
    ensures Quits(old(store.disk), Merged(captured, deferred), ok, o, out, store.disk)
    ensures ok <==>
              var g := NextGeneration(old(store.disk), o.read);
              enabled && g != 0 && (g in old(store.disk).generations || mkdir) && commit
  {
    hide Harmless, DistinctSessions, Restorable, Snapshotted;
    ghost var before := store.disk;
    var workspace := MergeCapturedWithDeferred(captured, deferred);
    ok, out := store.Publish(workspace, enabled, mkdir, commit, o, removed);
    if !ok && Harmless(before, workspace, o) && Restorable(before) {
      HarmlessCopying(before, workspace, o);
    }
  }
}
