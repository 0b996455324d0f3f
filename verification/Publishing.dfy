/** Publishing a workspace: `WorkspacePersistence::Publish` on a disk whose every operation
  can fail, reads included, and after whose every operation the program can stop.

  `manifest` is the workspace that was written last, `recents` are the session files, and
  `generations` the snapshot directories. */
module Publishing {
  import opened Workspaces
  import opened Snapshots

  const GENERATIONS: nat := 0x1_0000_0000_0000_0000

  datatype Disk = Disk(manifest: Workspace, recents: Directory, generations: map<nat, Directory>)

  /** What befalls one call: whether the two reads of the manifest succeed, the one that chooses
      the generation and the one that looks for the previous snapshots, and the copies. */
  datatype Outcomes = Outcomes(read: bool, readAgain: bool, faults: Faults)

  // ----- The tabs of a workspace, in order -----

  function AllTabs(windows: seq<Window>): seq<Tab> {
    if windows == [] then [] else AllTabs(windows[..|windows| - 1]) + windows[|windows| - 1].tabs
  }

  /** Which of these tabs `Sanitize` keeps. */
  function KeptFlags(windows: seq<Window>): (r: seq<bool>)
    ensures |r| == |AllTabs(windows)|
  {
    if windows == [] then []
    else
      var n := |windows| - 1;
      KeptFlags(windows[..n]) + seq(|windows[n].tabs|, t => n < MAX_WINDOWS && t < MAX_TABS_PER_WINDOW)
  }

  lemma {:induction false} IndexOf(windows: seq<Window>, w: nat, t: nat) returns (i: nat)
    requires w < |windows| && t < |windows[w].tabs|
    ensures i < |AllTabs(windows)| && AllTabs(windows)[i] == windows[w].tabs[t]
    ensures KeptFlags(windows)[i] <==> w < MAX_WINDOWS && t < MAX_TABS_PER_WINDOW
  {
    var n := |windows| - 1;
    if w < n {
      i := IndexOf(windows[..n], w, t);
    } else {
      i := |AllTabs(windows[..n])| + t;
    }
  }

  lemma {:induction false} PlaceOf(windows: seq<Window>, i: nat) returns (w: nat, t: nat)
    requires i < |AllTabs(windows)|
    ensures w < |windows| && t < |windows[w].tabs| && AllTabs(windows)[i] == windows[w].tabs[t]
    ensures KeptFlags(windows)[i] <==> w < MAX_WINDOWS && t < MAX_TABS_PER_WINDOW
  {
    var n := |windows| - 1;
    if i < |AllTabs(windows[..n])| {
      w, t := PlaceOf(windows[..n], i);
    } else {
      w, t := n, i - |AllTabs(windows[..n])|;
    }
  }

  /** The same windows with as many other tabs. */
  predicate SameWindows(a: seq<Window>, b: seq<Window>) {
    |a| == |b| && forall i :: 0 <= i < |a| ==> a[i] == b[i].(tabs := a[i].tabs) && |a[i].tabs| == |b[i].tabs|
  }

  lemma {:induction false} SameFlags(a: seq<Window>, b: seq<Window>)
    requires SameWindows(a, b)
    ensures KeptFlags(a) == KeptFlags(b) && |AllTabs(a)| == |AllTabs(b)|
  {
    if a != [] {
      var n := |a| - 1;
      SameFlags(a[..n], b[..n]);
    }
  }

  lemma {:induction false} Regroup(windows: seq<Window>, tabs: seq<Tab>) returns (out: seq<Window>)
    requires |tabs| == |AllTabs(windows)|
    ensures SameWindows(out, windows) && AllTabs(out) == tabs
  {
    if windows == [] {
      out := [];
    } else {
      var last := windows[|windows| - 1];
      var n := |tabs| - |last.tabs|;
      var init := Regroup(windows[..|windows| - 1], tabs[..n]);
      out := init + [last.(tabs := tabs[n..])];
      assert out[..|init|] == init;
    }
  }

  // ----- Claims of the manifest -----

  /** The manifest names an existing generation that holds a snapshot for each of its claims. */
  predicate Restorable(d: Disk) {
    var g := d.manifest.generation;
    if g == 0 then Covered(AllTabs(d.manifest.windows), map[])
    else g in d.generations && Covered(AllTabs(d.manifest.windows), d.generations[g])
  }

  predicate Claimed(d: Disk, u: QString) {
    u != [] && exists i :: 0 <= i < |AllTabs(d.manifest.windows)| && AllTabs(d.manifest.windows)[i].sessionUuid == u
  }

  function DirectoryOf(d: Disk, g: nat): Directory { if g in d.generations then d.generations[g] else map[] }

  /** The disk with another directory of generation `g`. */
  function WithDirectory(d: Disk, g: nat, dir: Directory): Disk { d.(generations := d.generations[g := dir]) }

  /** A change of one directory does no harm unless the manifest names it and a claimed
      snapshot goes. */
  lemma ChangeRestorable(d: Disk, g: nat, dir: Directory)
    requires Restorable(d)
    ensures Restorable(WithDirectory(d, g, dir)) <==>
            g != d.manifest.generation || g == 0 || forall u :: Claimed(d, u) ==> u in dir
  {
    var tabs := AllTabs(d.manifest.windows);
    if g == d.manifest.generation != 0 {
      if Covered(tabs, dir) {
        forall u | Claimed(d, u) ensures u in dir {
          var i :| 0 <= i < |tabs| && tabs[i].sessionUuid == u;
        }
      } else {
        var i :| 0 <= i < |tabs| && tabs[i].sessionUuid != [] && tabs[i].sessionUuid !in dir;
        assert Claimed(d, tabs[i].sessionUuid);
      }
    }
  }

  /** The manifest does not depend on what a copy of this session does to the directory. */
  predicate Spares(d: Disk, g: nat, u: QString) { g != d.manifest.generation || g == 0 || !Claimed(d, u) }

  lemma SparedChange(d: Disk, g: nat, u: QString, dir: Directory)
    requires Restorable(d) && Spares(d, g, u) && g in d.generations
    requires forall x :: x != u ==> (x in dir <==> x in d.generations[g])
    ensures Restorable(WithDirectory(d, g, dir))
  {
    ChangeRestorable(d, g, d.generations[g]);
    assert WithDirectory(d, g, d.generations[g]) == d;
    ChangeRestorable(d, g, dir);
  }

  // ----- One call -----

  function ReadGeneration(d: Disk, read: bool): nat { if read then d.manifest.generation else 0 }

  /** A manifest that cannot be read counts as generation 0. */
  function NextGeneration(d: Disk, read: bool): nat { (ReadGeneration(d, read) + 1) % GENERATIONS }

  function SourcesOf(d: Disk, g: nat, readAgain: bool): Sources {
    var previous := ReadGeneration(d, readAgain);
    Sources(d.recents, if previous != 0 && previous != g then DirectoryOf(d, previous) else map[])
  }

  /** The sources of a call. */
  function CallSources(d: Disk, o: Outcomes): Sources { SourcesOf(d, NextGeneration(d, o.read), o.readAgain) }

  /** The generation directory and the tabs after the copying. */
  ghost function Copied(d: Disk, ws: Workspace, o: Outcomes): Copies {
    CopyTabs(DirectoryOf(d, NextGeneration(d, o.read)), CallSources(d, o), AllTabs(ws.windows), o.faults)
  }

  ghost function AfterCopying(d: Disk, ws: Workspace, o: Outcomes): Disk {
    WithDirectory(d, NextGeneration(d, o.read), Copied(d, ws, o).dir)
  }

  /** What the copying makes of the workspace: its windows with the kept claims. */
  ghost predicate Snapshotted(d: Disk, ws: Workspace, o: Outcomes, out: Workspace) {
    && out.generation == NextGeneration(d, o.read) && out.mruOrder == ws.mruOrder
    && SameWindows(out.windows, ws.windows) && AllTabs(out.windows) == Copied(d, ws, o).tabs
  }

  /** The disk behind the commit of `out`. */
  ghost function Committed(d: Disk, ws: Workspace, o: Outcomes, out: Workspace): Disk {
    AfterCopying(d, ws, o).(manifest := Sanitized(out))
  }

  // ----- When the copying is safe -----

  /** The copying touches no snapshot that the published manifest claims. */
  predicate Harmless(d: Disk, ws: Workspace, o: Outcomes) {
    var tabs := AllTabs(ws.windows);
    forall i :: 0 <= i < |tabs| && Sourced(tabs[i].sessionUuid, CallSources(d, o)) ==>
      Spares(d, NextGeneration(d, o.read), tabs[i].sessionUuid)
  }

  /** The next generation is the published one only when a failed read starts over at 1. */
  lemma SameGenerationIff(d: Disk, read: bool)
    requires NextGeneration(d, read) != 0
    ensures NextGeneration(d, read) == d.manifest.generation <==> !read && d.manifest.generation == 1
  {
  }

  /** A recent session of the workspace that the manifest claims. */
  predicate ReusesClaim(d: Disk, ws: Workspace) {
    exists i :: 0 <= i < |AllTabs(ws.windows)| &&
      var u := AllTabs(ws.windows)[i].sessionUuid; LooksLikeUuid(u) && u in d.recents && Claimed(d, u)
  }

  /** So the copying can only do harm when the manifest was not read, generation 1 is the
      published one, and a recent session that the manifest claims is among the tabs. */
  lemma HarmlessIff(d: Disk, ws: Workspace, o: Outcomes)
    requires NextGeneration(d, o.read) != 0
    ensures Harmless(d, ws, o) <==> o.read || d.manifest.generation != 1 || !ReusesClaim(d, ws)
  {
    hide LooksLikeUuid, Claimed, AllTabs;
    SameGenerationIff(d, o.read);
    var tabs, from := AllTabs(ws.windows), CallSources(d, o);
    if !o.read && d.manifest.generation == 1 {
      assert from == Sources(d.recents, map[]);
      forall i | 0 <= i < |tabs|
        ensures Sourced(tabs[i].sessionUuid, from) <==>
                LooksLikeUuid(tabs[i].sessionUuid) && tabs[i].sessionUuid in d.recents
      {
      }
      if ReusesClaim(d, ws) {
        var i :| 0 <= i < |tabs| && LooksLikeUuid(tabs[i].sessionUuid) && tabs[i].sessionUuid in d.recents &&
                 Claimed(d, tabs[i].sessionUuid);
        assert Sourced(tabs[i].sessionUuid, from);
      }
    }
  }

  lemma HarmfulCopying(d: Disk, ws: Workspace, o: Outcomes) returns (p: Outcomes)
    requires Restorable(d) && !Harmless(d, ws, o)
    ensures p.read == o.read && p.readAgain == o.readAgain && !Restorable(AfterCopying(d, ws, p))
  {
    hide LooksLikeUuid, AllTabs, CopyTabs, Sourced, Covered;
    var g, tabs, from := NextGeneration(d, o.read), AllTabs(ws.windows), CallSources(d, o);
    var i :| 0 <= i < |tabs| && Sourced(tabs[i].sessionUuid, from) && !Spares(d, g, tabs[i].sessionUuid);
    var k := LastTabOf(tabs, i);
    FailedCopyRemoves(DirectoryOf(d, g), from, tabs, k);
    p := Outcomes(o.read, o.readAgain, FailingAt(k));
    ChangeRestorable(d, g, Copied(d, ws, p).dir);
  }

  lemma HarmlessCopying(d: Disk, ws: Workspace, o: Outcomes)
    requires Restorable(d) && Harmless(d, ws, o)
    ensures Restorable(AfterCopying(d, ws, o))
  {
    hide LooksLikeUuid, AllTabs, CopyTabs, Sourced;
    var g, tabs, from := NextGeneration(d, o.read), AllTabs(ws.windows), CallSources(d, o);
    var dir := Copied(d, ws, o).dir;
    if g == d.manifest.generation != 0 {
      forall u | Claimed(d, u) ensures u in dir {
        assert u in d.generations[g];
        OthersStay(DirectoryOf(d, g), from, tabs, o.faults, u);
      }
    }
    ChangeRestorable(d, g, dir);
  }

  /** The copying leaves the published manifest restorable, whatever copies and removals fail,
      exactly when it is harmless. */
  lemma CopyingSafeIff(d: Disk, ws: Workspace, read: bool, readAgain: bool)
    requires Restorable(d)
    ensures (forall faults :: Restorable(AfterCopying(d, ws, Outcomes(read, readAgain, faults)))) <==>
            Harmless(d, ws, Outcomes(read, readAgain, FailingAt(0)))
  {
    var o := Outcomes(read, readAgain, FailingAt(0));
    if Harmless(d, ws, o) {
      forall faults ensures Restorable(AfterCopying(d, ws, Outcomes(read, readAgain, faults))) {
        HarmlessCopying(d, ws, Outcomes(read, readAgain, faults));
      }
    } else {
      var p := HarmfulCopying(d, ws, o);
      assert !Restorable(AfterCopying(d, ws, Outcomes(read, readAgain, p.faults)));
    }
  }

  /** A failed read of a manifest of generation 1 that claims a recent session, and a workspace
      that still has the session: a copy can fail and leave the published claim false. */
  lemma UnreadManifestIsHarmed(d: Disk, ws: Workspace, readAgain: bool)
    requires Restorable(d) && d.manifest.generation == 1 && ReusesClaim(d, ws)
    ensures exists faults :: !Restorable(AfterCopying(d, ws, Outcomes(false, readAgain, faults)))
  {
    hide ReusesClaim, AllTabs;
    HarmlessIff(d, ws, Outcomes(false, readAgain, FailingAt(0)));
    CopyingSafeIff(d, ws, false, readAgain);
  }

  // ----- When the commit is safe -----

  /** No session that can be copied belongs to a tab that the manifest keeps and to a later
      tab. */
  predicate DistinctSessions(d: Disk, ws: Workspace, o: Outcomes) {
    var tabs := AllTabs(ws.windows);
    forall i :: 0 <= i < |tabs| && KeptFlags(ws.windows)[i] && Sourced(tabs[i].sessionUuid, CallSources(d, o)) ==>
      LastOfSession(tabs, i)
  }

  lemma CommitRestorable(d: Disk, ws: Workspace, o: Outcomes, out: Workspace)
    requires NextGeneration(d, o.read) != 0 && Snapshotted(d, ws, o, out) && DistinctSessions(d, ws, o)
    ensures Restorable(Committed(d, ws, o, out))
  {
    hide LooksLikeUuid, Sourced, CopyTabs, LastOfSession;
    var s, sane := Copied(d, ws, o), Sanitized(out).windows;
    SameFlags(out.windows, ws.windows);
    forall k | 0 <= k < |AllTabs(sane)| && AllTabs(sane)[k].sessionUuid != []
      ensures AllTabs(sane)[k].sessionUuid in s.dir
    {
      var w, t := PlaceOf(sane, k);
      var i := IndexOf(out.windows, w, t);
      KeptClaim(d, ws, o, i);
      assert sane[w].tabs[t] == SanitizedTab(out.windows[w].tabs[t]);
    }
  }

  /** A kept claim is short enough to stay as it is, and true. */
  lemma KeptClaim(d: Disk, ws: Workspace, o: Outcomes, i: nat)
    requires i < |AllTabs(ws.windows)| && KeptFlags(ws.windows)[i] && DistinctSessions(d, ws, o)
    ensures var s := Copied(d, ws, o); var u := s.tabs[i].sessionUuid;
            |u| <= MAX_UUID_LENGTH && (u != [] ==> u in s.dir)
  {
    hide LooksLikeUuid, CopyTabs, AllTabs, LastOfSession, Sourced;
    var g, tabs, from := NextGeneration(d, o.read), AllTabs(ws.windows), CallSources(d, o);
    KeptIsSourced(DirectoryOf(d, g), from, tabs, o.faults, i);
    if Copied(d, ws, o).tabs[i].sessionUuid != [] {
      SourcedIsNamed(tabs[i].sessionUuid, from);
      LastClaimHolds(DirectoryOf(d, g), from, tabs, o.faults, i);
    }
  }

  /** A false claim of a tab that the manifest keeps gets into the manifest. */
  lemma UncoveredStays(out: Workspace, dir: Directory, i: nat)
    requires i < |AllTabs(out.windows)| && KeptFlags(out.windows)[i]
    requires var u := AllTabs(out.windows)[i].sessionUuid; u != [] && |u| <= MAX_UUID_LENGTH && u !in dir
    ensures !Covered(AllTabs(Sanitized(out).windows), dir)
  {
    var w, t := PlaceOf(out.windows, i);
    var sane := Sanitized(out).windows;
    assert sane[w].tabs[t] == SanitizedTab(out.windows[w].tabs[t]);
    var k := IndexOf(sane, w, t);
  }

  lemma RepeatedBreaksCommit(d: Disk, ws: Workspace, o: Outcomes) returns (p: Outcomes, out: Workspace)
    requires NextGeneration(d, o.read) != 0 && !DistinctSessions(d, ws, o)
    ensures p.read == o.read && p.readAgain == o.readAgain
    ensures Snapshotted(d, ws, p, out) && !Restorable(Committed(d, ws, p, out))
  {
    hide LooksLikeUuid, CopyTabs, AllTabs, Sourced, LastOfSession, Covered;
    var g, tabs, from := NextGeneration(d, o.read), AllTabs(ws.windows), CallSources(d, o);
    var i :| 0 <= i < |tabs| && KeptFlags(ws.windows)[i] && Sourced(tabs[i].sessionUuid, from)
             && !LastOfSession(tabs, i);
    RepeatedUncovered(DirectoryOf(d, g), from, tabs, i);
    var faults :| var r := CopyTabs(DirectoryOf(d, g), from, tabs, faults);
                  r.tabs[i].sessionUuid == tabs[i].sessionUuid && tabs[i].sessionUuid !in r.dir;
    p := Outcomes(o.read, o.readAgain, faults);
    SourcedIsNamed(tabs[i].sessionUuid, from);
    var windows := Regroup(ws.windows, Copied(d, ws, p).tabs);
    out := ws.(windows := windows, generation := g);
    SameFlags(windows, ws.windows);
    UncoveredStays(out, Copied(d, ws, p).dir, i);
  }

  /** The committed manifest is restorable, whatever copies and removals fail, exactly when no
      session with a source belongs to a kept tab and a later one. */
  lemma CommitSafeIff(d: Disk, ws: Workspace, read: bool, readAgain: bool)
    requires NextGeneration(d, read) != 0
    ensures (forall faults, out :: Snapshotted(d, ws, Outcomes(read, readAgain, faults), out) ==>
                                   Restorable(Committed(d, ws, Outcomes(read, readAgain, faults), out))) <==>
            DistinctSessions(d, ws, Outcomes(read, readAgain, FailingAt(0)))
  {
    hide Snapshotted, Committed, Restorable;
    var o := Outcomes(read, readAgain, FailingAt(0));
    if DistinctSessions(d, ws, o) {
      forall faults, out | Snapshotted(d, ws, Outcomes(read, readAgain, faults), out)
        ensures Restorable(Committed(d, ws, Outcomes(read, readAgain, faults), out))
      {
        CommitRestorable(d, ws, Outcomes(read, readAgain, faults), out);
      }
    } else {
      var p, out := RepeatedBreaksCommit(d, ws, o);
      assert p == Outcomes(read, readAgain, p.faults);
    }
  }

  /** A call is safe: before and after its commit the manifest on the disk is restorable. */
  ghost predicate CallSafe(d: Disk, ws: Workspace, o: Outcomes) {
    && Restorable(AfterCopying(d, ws, o))
    && forall out :: Snapshotted(d, ws, o, out) ==> Restorable(Committed(d, ws, o, out))
  }

  /** Publishing is safe, whatever copies and removals fail, exactly when two things hold: the
      manifest was read, or generation 1 is not the published one, or no recent session that
      it claims is among the tabs; and no session with a source belongs to two tabs, the
      first of them kept. */
  lemma PublishSafeIff(d: Disk, ws: Workspace, read: bool, readAgain: bool)
    requires Restorable(d) && NextGeneration(d, read) != 0
    ensures (forall faults :: CallSafe(d, ws, Outcomes(read, readAgain, faults))) <==>
            && (read || d.manifest.generation != 1 || !ReusesClaim(d, ws))
            && DistinctSessions(d, ws, Outcomes(read, readAgain, FailingAt(0)))
  {
    HarmlessIff(d, ws, Outcomes(read, readAgain, FailingAt(0)));
    hide Snapshotted, Committed, Restorable, Harmless, DistinctSessions, AfterCopying, ReusesClaim;
    CopyingSafeIff(d, ws, read, readAgain);
    CommitSafeIff(d, ws, read, readAgain);
    if forall faults :: CallSafe(d, ws, Outcomes(read, readAgain, faults)) {
      forall faults ensures Restorable(AfterCopying(d, ws, Outcomes(read, readAgain, faults))) {
        assert CallSafe(d, ws, Outcomes(read, readAgain, faults));
      }
      forall faults, out | Snapshotted(d, ws, Outcomes(read, readAgain, faults), out)
        ensures Restorable(Committed(d, ws, Outcomes(read, readAgain, faults), out))
      {
        assert CallSafe(d, ws, Outcomes(read, readAgain, faults));
      }
    }
  }

  // ----- The collection of old generations -----

  type Generations = map<nat, Directory>

  function FilesOf(generations: Generations, g: nat): Directory { if g in generations then generations[g] else map[] }

  /** What has become of a directory: the kept one is as it was, of the others those whose
      removal worked are gone and the rest may have lost files. */
  predicate CollectedAt(before: Generations, now: Generations, keep: nat, removed: nat -> bool, g: nat) {
    if g == keep then
      (g in now <==> g in before) && FilesOf(now, g) == FilesOf(before, g)
    else
      (g in now <==> g in before && !removed(g)) && FilesOf(now, g).Keys <= FilesOf(before, g).Keys
  }

  ghost predicate Collected(before: Generations, now: Generations, keep: nat, removed: nat -> bool) {
    forall g :: CollectedAt(before, now, keep, removed, g)
  }

  // ----- The class -----

  class WorkspaceStore {
    var disk: Disk
    /** Was the disk restorable after every single change so far? */
    ghost var always: bool

    constructor (initial: Disk)
      ensures disk == initial && always
    {
      disk, always := initial, true;
    }

    /** The disk is restorable and has been at every moment. */
    ghost predicate Intact()
      reads this
    {
      always && Restorable(disk)
    }

    method Change(to: Disk)
      modifies this
      ensures disk == to && always == (old(always) && Restorable(to))
    {
      disk := to;
      always := always && Restorable(to);
    }

    /** A change to a generation directory by a copy of session `u`. */
    method SetSnapshot(g: nat, u: QString, dir: Directory)
      requires g in disk.generations && forall x :: x != u ==> (x in dir <==> x in disk.generations[g])
      modifies this
      ensures disk == WithDirectory(old(disk), g, dir)
      ensures Spares(old(disk), g, u) && old(Intact()) ==> Intact()
    {
      if Spares(disk, g, u) && Intact() {
        SparedChange(disk, g, u, dir);
      }
      Change(WithDirectory(disk, g, dir));
    }

    /** A change to a generation that the manifest does not name. */
    method SetDirectory(g: nat, dir: Directory)
      modifies this
      ensures disk == WithDirectory(old(disk), g, dir)
      ensures g != old(disk).manifest.generation && old(Intact()) ==> Intact()
    {
      Change(WithDirectory(disk, g, dir));
    }

    method CopySnapshotFile(from: Directory, g: nat, u: QString, unlinked: bool, copied: bool) returns (ok: bool)
      requires g in disk.generations
      modifies this
      ensures disk == WithDirectory(old(disk), g, DirectoryOf(disk, g))
      ensures (DirectoryOf(disk, g), ok) == CopySnapshot(DirectoryOf(old(disk), g), from, u, unlinked, copied)
      ensures (u in from ==> Spares(old(disk), g, u)) && old(Intact()) ==> Intact()
    {
      hide Restorable, Claimed;
      if u !in from {
        assert disk == WithDirectory(disk, g, DirectoryOf(disk, g));
        return false;
      }
      if unlinked {
        SetSnapshot(g, u, disk.generations[g] - {u});
      }
      SparesStays(old(disk), disk, g, u);
      ok := copied && u !in disk.generations[g];
      if ok {
        SetSnapshot(g, u, disk.generations[g][u := from[u]]);
      }
      assert disk == WithDirectory(old(disk), g, DirectoryOf(disk, g));
    }

    static lemma SparesStays(was: Disk, now: Disk, g: nat, u: QString)
      requires now.manifest == was.manifest
      ensures Spares(now, g, u) <==> Spares(was, g, u)
    {
    }

    /** The body of the loop over the tabs. */
    method SnapshotTab(g: nat, from: Sources, tab: Tab, f: CopyFaults) returns (kept: Tab)
      requires g in disk.generations && from.recents == disk.recents
      modifies this
      ensures disk == WithDirectory(old(disk), g, DirectoryOf(disk, g))
      ensures (DirectoryOf(disk, g), kept) == CopyTab(DirectoryOf(old(disk), g), from, tab, f)
      ensures (Sourced(tab.sessionUuid, from) ==> Spares(old(disk), g, tab.sessionUuid)) && old(Intact()) ==> Intact()
    {
      hide Restorable, Spares, CopySnapshot, LooksLikeUuid;
      if LooksLikeUuid(tab.sessionUuid) {
        UuidIsShort(tab.sessionUuid);
      }
      if tab.sessionUuid == [] || !LooksLikeUuid(tab.sessionUuid) {
        assert disk == WithDirectory(disk, g, DirectoryOf(disk, g));
        return tab.(sessionUuid := []);
      }
      var ok := CopySnapshotFile(disk.recents, g, tab.sessionUuid, f.unlinked, f.copied);
      if ok {
        return tab;
      }
      SparesStays(old(disk), disk, g, tab.sessionUuid);
      ok := CopySnapshotFile(from.previous, g, tab.sessionUuid, f.unlinkedAgain, f.copiedAgain);
      kept := if ok then tab else tab.(sessionUuid := []);
    }

    method WriteGenerationSnapshots(g: nat, ws: Workspace, mkdir: bool, readAgain: bool, faults: Faults)
      returns (ok: bool, out: Workspace)
      modifies this
      ensures ok <==> g != 0 && (g in old(disk).generations || mkdir)
      ensures !ok ==> disk == old(disk) && out == ws
      ensures ok ==>
                var from := SourcesOf(old(disk), g, readAgain);
                var s := CopyTabs(DirectoryOf(old(disk), g), from, AllTabs(ws.windows), faults);
                && disk == WithDirectory(old(disk), g, s.dir)
                && out == ws.(windows := out.windows) && SameWindows(out.windows, ws.windows)
                && AllTabs(out.windows) == s.tabs
      ensures SparesAll(old(disk), g, SourcesOf(old(disk), g, readAgain), AllTabs(ws.windows)) && old(Intact()) ==>
                Intact()
    {
      hide CopyTabs, AllTabs, Covered, SparesAll;
      out := ws;
      if g == 0 || (g !in disk.generations && !mkdir) {
        return false, ws;
      }
      var from := SourcesOf(disk, g, readAgain);
      ghost var start := DirectoryOf(disk, g);
      ghost var before := disk;
      if g !in disk.generations {
        SetDirectory(g, map[]);
      }
      assert disk == WithDirectory(before, g, start);
      SparesAllStays(before, disk, g, from, AllTabs(ws.windows));
      var windows := SnapshotWindows(g, from, ws.windows, faults);
      return true, ws.(windows := windows);
    }

    static predicate SparesAll(d: Disk, g: nat, from: Sources, tabs: seq<Tab>) {
      forall i :: 0 <= i < |tabs| && Sourced(tabs[i].sessionUuid, from) ==> Spares(d, g, tabs[i].sessionUuid)
    }

    static lemma SparesAllStays(was: Disk, now: Disk, g: nat, from: Sources, tabs: seq<Tab>)
      requires now.manifest == was.manifest
      ensures SparesAll(now, g, from, tabs) <==> SparesAll(was, g, from, tabs)
    {
    }

    /** The loop over the windows. */
    method SnapshotWindows(g: nat, from: Sources, windows: seq<Window>, faults: Faults) returns (out: seq<Window>)
      requires g in disk.generations && from.recents == disk.recents
      modifies this
      ensures disk == WithDirectory(old(disk), g, DirectoryOf(disk, g)) && SameWindows(out, windows)
      ensures Copies(DirectoryOf(disk, g), AllTabs(out)) ==
              CopyTabs(DirectoryOf(old(disk), g), from, AllTabs(windows), faults)
      ensures SparesAll(old(disk), g, from, AllTabs(windows)) && old(Intact()) ==> Intact()
    {
      hide Restorable, CopyTab, Covered, SparesAll, Spares, Claimed;
      ghost var start, before := DirectoryOf(disk, g), disk;
      assert disk == WithDirectory(disk, g, start);
      out := [];
      var n := 0;
      for i := 0 to |windows|
        invariant disk == WithDirectory(before, g, DirectoryOf(disk, g))
        invariant SameWindows(out, windows[..i])
        invariant Copies(DirectoryOf(disk, g), AllTabs(out)) == CopyTabs(start, from, AllTabs(windows[..i]), faults)
        invariant n == |AllTabs(windows[..i])|
        invariant SparesAll(before, g, from, AllTabs(windows)) && old(Intact()) ==> Intact()
      {
        ghost var now := disk;
        var tabs := SnapshotWindow(g, from, windows[i].tabs, n, faults, start, AllTabs(windows[..i]));
        SparesAllStays(before, now, g, from, windows[i].tabs);
        SparesPart(before, g, from, windows, i);
        n := n + |tabs|;
        AllTabsStep(windows, i);
        AllTabsAdd(out, windows[i].(tabs := tabs));
        out := out + [windows[i].(tabs := tabs)];
      }
      assert windows[..|windows|] == windows;
    }

    static lemma SparesPart(d: Disk, g: nat, from: Sources, windows: seq<Window>, w: nat)
      requires w < |windows|
      ensures SparesAll(d, g, from, AllTabs(windows)) ==> SparesAll(d, g, from, windows[w].tabs)
    {
      hide LooksLikeUuid, Spares, AllTabs, KeptFlags, Sourced;
      if SparesAll(d, g, from, AllTabs(windows)) {
        forall t | 0 <= t < |windows[w].tabs| && Sourced(windows[w].tabs[t].sessionUuid, from)
          ensures Spares(d, g, windows[w].tabs[t].sessionUuid)
        {
          var i := IndexOf(windows, w, t);
        }
      }
    }

    /** The tabs of one window, behind the tabs `flat` of the windows before it. */
    method SnapshotWindow(g: nat, from: Sources, tabs: seq<Tab>, n: nat, faults: Faults,
                          ghost start: Directory, ghost flat: seq<Tab>)
      returns (kept: seq<Tab>)
      requires g in disk.generations && from.recents == disk.recents && n == |flat|
      requires DirectoryOf(disk, g) == CopyTabs(start, from, flat, faults).dir
      modifies this
      ensures disk == WithDirectory(old(disk), g, DirectoryOf(disk, g)) && |kept| == |tabs|
      ensures Copies(DirectoryOf(disk, g), CopyTabs(start, from, flat, faults).tabs + kept) ==
              CopyTabs(start, from, flat + tabs, faults)
      ensures SparesAll(old(disk), g, from, tabs) && old(Intact()) ==> Intact()
    {
      hide Restorable, CopyTab, CopyTabs, AllTabs, Spares, Sourced;
      kept := [];
      ghost var before, copied := disk, CopyTabs(start, from, flat, faults).tabs;
      assert flat + tabs[..0] == flat && copied + kept == copied;
      assert disk == WithDirectory(disk, g, DirectoryOf(disk, g));
      for t := 0 to |tabs|
        invariant disk == WithDirectory(before, g, DirectoryOf(disk, g))
        invariant |kept| == t
        invariant Copies(DirectoryOf(disk, g), copied + kept) == CopyTabs(start, from, flat + tabs[..t], faults)
        invariant SparesAll(before, g, from, tabs) && old(Intact()) ==> Intact()
      {
        CopyTabsStep(start, from, flat, tabs, t, faults);
        SparesStays(before, disk, g, tabs[t].sessionUuid);
        var tab := SnapshotTab(g, from, tabs[t], faults(n + t));
        assert (copied + kept) + [tab] == copied + (kept + [tab]);
        kept := kept + [tab];
      }
      assert flat + tabs[..|tabs|] == flat + tabs;
    }

    static lemma CopyTabsStep(dir: Directory, from: Sources, flat: seq<Tab>, tabs: seq<Tab>, t: nat, faults: Faults)
      requires t < |tabs|
      ensures var init := CopyTabs(dir, from, flat + tabs[..t], faults);
              var last := CopyTab(init.dir, from, tabs[t], faults(|flat| + t));
              CopyTabs(dir, from, flat + tabs[..t + 1], faults) == Copies(last.0, init.tabs + [last.1])
    {
      assert (flat + tabs[..t + 1])[..|flat| + t] == flat + tabs[..t];
    }

    static lemma AllTabsStep(windows: seq<Window>, i: nat)
      requires i < |windows|
      ensures AllTabs(windows[..i + 1]) == AllTabs(windows[..i]) + windows[i].tabs
    {
      assert windows[..i + 1][..i] == windows[..i];
    }

    static lemma AllTabsAdd(windows: seq<Window>, w: Window)
      ensures AllTabs(windows + [w]) == AllTabs(windows) + w.tabs
    {
      assert (windows + [w])[..|windows|] == windows;
    }

    /** The other directories go one by one, in any order; one whose removal fails keeps a part
        of its files. */
    method CollectSupersededGenerations(keep: nat, removed: nat -> bool)
      modifies this
      ensures disk == old(disk).(generations := disk.generations)
      ensures Collected(old(disk).generations, disk.generations, keep, removed)
      ensures CollectedAt(old(disk).generations, disk.generations, keep, removed, keep)
      ensures keep == disk.manifest.generation && old(Intact()) ==> Intact()
    {
      hide Restorable;
      ghost var before := disk.generations;
      var todo := disk.generations.Keys;
      while todo != {}
        invariant todo <= before.Keys
        invariant disk == old(disk).(generations := disk.generations)
        invariant forall g :: g in todo || g !in before ==>
                    (g in disk.generations <==> g in before) && FilesOf(disk.generations, g) == FilesOf(before, g)
        invariant forall g :: g in before && g !in todo ==> CollectedAt(before, disk.generations, keep, removed, g)
        invariant keep == disk.manifest.generation && old(Intact()) ==> Intact()
        decreases |todo|
      {
        var g :| g in todo;
        todo := todo - {g};
        if g != keep {
          CollectOne(g, removed(g));
        }
      }
    }

    /** `removeRecursively` of one directory. */
    method CollectOne(g: nat, removed: bool)
      requires g in disk.generations
      modifies this
      ensures disk == old(disk).(generations := disk.generations)
      ensures g in disk.generations <==> !removed
      ensures FilesOf(disk.generations, g).Keys <= FilesOf(old(disk).generations, g).Keys
      ensures forall h :: h != g ==>
                (h in disk.generations <==> h in old(disk).generations)
                && FilesOf(disk.generations, h) == FilesOf(old(disk).generations, h)
      ensures g != disk.manifest.generation && old(Intact()) ==> Intact()
    {
      if removed {
        Change(disk.(generations := disk.generations - {g}));
      } else {
        var left := RemovePartly(disk.generations[g]);
        SetDirectory(g, left);
      }
    }

    /** A removal may stop anywhere. */
    static method RemovePartly(dir: Directory) returns (left: Directory)
      ensures left.Keys <= dir.Keys
    {
      left := map[];
      var todo := dir.Keys;
      while todo != {}
        invariant left.Keys <= dir.Keys && todo <= dir.Keys
        decreases |todo|
      {
        var u :| u in todo;
        todo := todo - {u};
        var failed: bool := *;
        if failed {
          left := left[u := dir[u]];
        }
      }
    }

    /** Sanitizes and commits; a commit that fails changes nothing. */
    method Write(ws: Workspace, enabled: bool, commit: bool) returns (ok: bool)
      modifies this
      ensures ok <==> enabled && commit
      ensures ok ==> disk == old(disk).(manifest := Sanitized(ws)) && always == (old(always) && Restorable(disk))
      ensures !ok ==> unchanged(this)
    {
      if !enabled {
        return false;
      }
      var sane := Sanitize(ws);
      if !commit {
        return false;
      }
      Change(disk.(manifest := sane));
      return true;
    }

    /** In a harmless call with distinct sessions the disk is restorable at every moment, so a
        crash anywhere leaves a workspace whose claims hold.  A call that fails does no more
        than copy, and a harmless one then keeps the published claims.  A call succeeds exactly
        when publishing is enabled, the generation directory is there or can be made, and the
        commit succeeds; copies that fail cost claims only. */
    method Publish(ws: Workspace, enabled: bool, mkdir: bool, commit: bool, o: Outcomes, removed: nat -> bool)
      returns (ok: bool, ghost published: Workspace)
      modifies this
      ensures ok <==>
                var g := NextGeneration(old(disk), o.read);
                enabled && g != 0 && (g in old(disk).generations || mkdir) && commit
      ensures Harmless(old(disk), ws, o) && DistinctSessions(old(disk), ws, o) && old(Intact()) ==> Intact()
      ensures !ok ==>
                var g := NextGeneration(old(disk), o.read);
                disk == if enabled && g != 0 && (g in old(disk).generations || mkdir)
                        then AfterCopying(old(disk), ws, o)
                        else old(disk)
      ensures disk.recents == old(disk).recents
      ensures ok ==>
                Collected(AfterCopying(old(disk), ws, o).generations, disk.generations,
                          NextGeneration(old(disk), o.read), removed)
      ensures !ok && Harmless(old(disk), ws, o) && old(Intact()) ==> Intact()
      ensures ok ==>
                var g := NextGeneration(old(disk), o.read);
                && g != 0 && Snapshotted(old(disk), ws, o, published) && disk.manifest == Sanitized(published)
                && g in disk.generations && disk.generations[g] == Copied(old(disk), ws, o).dir
    {
      hide Restorable, DistinctSessions, CopyTabs, AllTabs, Collected;
      published := ws;
      if !enabled {
        return false, ws;
      }
      ghost var before := disk;
      var previousGeneration := if o.read then disk.manifest.generation else 0;
      var g := (previousGeneration + 1) % GENERATIONS;
      var wrote, out := WriteGenerationSnapshots(g, ws, mkdir, o.readAgain, o.faults);
      if !wrote {
        return false, ws;
      }
      out := out.(generation := g, schemaVersion := SCHEMA_VERSION);
      if DistinctSessions(before, ws, o) {
        CommitRestorable(before, ws, o, out);
      }
      published := out;
      ok := Write(out, enabled, commit);
      if ok {
        CollectSupersededGenerations(g, removed);
      }
    }
  }
}
