/** Copying the session snapshots of a workspace into a generation directory: the inner part of
  `WorkspacePersistence::WriteGenerationSnapshots`, where every removal and copy can fail. */
module Snapshots {
  import opened Workspaces

  type Content = nat
  type Directory = map<QString, Content>

  /** Where a snapshot is copied from: the recent sessions, then the previous generation. */
  datatype Sources = Sources(recents: Directory, previous: Directory)

  /** Outcomes of the removals and copies for one tab, from the recents and from the previous
      generation. */
  datatype CopyFaults = CopyFaults(unlinked: bool, copied: bool, unlinkedAgain: bool, copiedAgain: bool)

  type Faults = nat -> CopyFaults

  const HYPHEN: CodeUnit := '-' as int
  const ZERO: CodeUnit := '0' as int

  predicate Between(c: CodeUnit, lo: char, hi: char) { lo as int <= c <= hi as int }

  predicate IsHex(c: CodeUnit) { Between(c, '0', '9') || Between(c, 'a', 'f') || Between(c, 'A', 'F') }

  /** The five hyphenated hex fields of a UUID. */
  predicate HexFields(u: QString) {
    && |u| == 36
    && (forall i :: 0 <= i < 36 ==> if i in {8, 13, 18, 23} then u[i] == HYPHEN else IsHex(u[i]))
    && exists i :: 0 <= i < 36 && u[i] != HYPHEN && u[i] != ZERO
  }

  /** A UUID other than the null one, with or without braces. */
  predicate LooksLikeUuid(u: QString) {
    HexFields(u) || (|u| == 38 && u[0] == '{' as int && u[37] == '}' as int && HexFields(u[1..37]))
  }

  lemma UuidIsShort(u: QString)
    requires LooksLikeUuid(u)
    ensures 0 < |u| <= MAX_UUID_LENGTH
  {
  }

  /** Hex digits in five fields are a UUID unless all are zero, braces or not. */
  lemma UuidForms(u: QString)
    requires |u| == 36 && forall i :: 0 <= i < 36 ==>
               if i == 8 || i == 13 || i == 18 || i == 23 then u[i] == '-' as int
               else
                 || '0' as int <= u[i] <= '9' as int || 'a' as int <= u[i] <= 'f' as int
                 || 'A' as int <= u[i] <= 'F' as int
    ensures LooksLikeUuid(u) <==> exists i :: 0 <= i < 36 && u[i] != '-' as int && u[i] != '0' as int
    ensures LooksLikeUuid(['{' as int] + u + ['}' as int]) <==> LooksLikeUuid(u)
  {
    var braced: QString := ['{' as int] + u + ['}' as int];
    assert braced[1..37] == u;
  }

  /** A UUID leads out of no directory: it has neither a slash nor a dot in it. */
  lemma UuidIsNoPath(u: QString, i: nat)
    requires LooksLikeUuid(u) && i < |u|
    ensures u[i] != '/' as int && u[i] != '\\' as int && u[i] != '.' as int
  {
    if |u| == 38 && 0 < i < 37 {
      assert u[1..37][i - 1] == u[i];
    }
  }

  // ----- What copying computes -----

  datatype Copies = Copies(dir: Directory, tabs: seq<Tab>)

  /** Removes the old file, then copies; a copy does not overwrite. */
  function CopySnapshot(dir: Directory, from: Directory, u: QString, unlinked: bool, copied: bool): (Directory, bool) {
    if u !in from then (dir, false)
    else
      var left := if unlinked then dir - {u} else dir;
      if copied && u !in left then (left[u := from[u]], true) else (left, false)
  }

  function CopyTab(dir: Directory, from: Sources, tab: Tab, f: CopyFaults): (Directory, Tab) {
    var u := tab.sessionUuid;
    if !LooksLikeUuid(u) then (dir, tab.(sessionUuid := []))
    else
      var first := CopySnapshot(dir, from.recents, u, f.unlinked, f.copied);
      if first.1 then (first.0, tab)
      else
        var second := CopySnapshot(first.0, from.previous, u, f.unlinkedAgain, f.copiedAgain);
        (second.0, if second.1 then tab else tab.(sessionUuid := []))
  }

  function CopyTabs(dir: Directory, from: Sources, tabs: seq<Tab>, faults: Faults): (r: Copies)
    ensures |r.tabs| == |tabs|
  {
    if tabs == [] then Copies(dir, []) else
      var n := |tabs| - 1;
      var init := CopyTabs(dir, from, tabs[..n], faults);
      var last := CopyTab(init.dir, from, tabs[n], faults(n));
      Copies(last.0, init.tabs + [last.1])
  }

  // ----- Claims -----

  /** Every session that a tab claims has a snapshot. */
  predicate Covered(tabs: seq<Tab>, dir: Directory) {
    forall i :: 0 <= i < |tabs| && tabs[i].sessionUuid != [] ==> tabs[i].sessionUuid in dir
  }

  predicate Sourced(u: QString, from: Sources) {
    LooksLikeUuid(u) && (u in from.recents || u in from.previous)
  }

  predicate SameSession(tabs: seq<Tab>, i: nat, j: nat)
    requires i < |tabs| && j < |tabs|
  {
    tabs[i].sessionUuid == tabs[j].sessionUuid
  }

  /** No later tab has the session of tab `i`. */
  predicate LastOfSession(tabs: seq<Tab>, i: nat)
    requires i < |tabs|
  {
    forall j :: i < j < |tabs| ==> !SameSession(tabs, i, j)
  }

  /** No session that can be copied belongs to two tabs. */
  predicate Distinct(tabs: seq<Tab>, from: Sources) {
    forall i :: 0 <= i < |tabs| && Sourced(tabs[i].sessionUuid, from) ==> LastOfSession(tabs, i)
  }

  /** The two directories have the same snapshot of the session, or both none. */
  predicate SameAt(a: Directory, b: Directory, u: QString) {
    (u in a <==> u in b) && (u in a ==> a[u] == b[u])
  }

  lemma CopyTabSound(dir: Directory, from: Sources, tab: Tab, f: CopyFaults)
    ensures var r := CopyTab(dir, from, tab, f);
            && (r.1 == tab || r.1 == tab.(sessionUuid := []))
            && (r.1.sessionUuid != [] ==> tab.sessionUuid in r.0 && Sourced(tab.sessionUuid, from))
            && (forall u :: u != tab.sessionUuid || !Sourced(u, from) ==> SameAt(r.0, dir, u))
  {
  }

  /** A claim stays as it is or is cleared; one that stays was copied from somewhere. */
  lemma {:induction false} KeptIsSourced(dir: Directory, from: Sources, tabs: seq<Tab>, faults: Faults, i: nat)
    requires i < |tabs|
    ensures var kept := CopyTabs(dir, from, tabs, faults).tabs[i];
            && (kept == tabs[i] || kept == tabs[i].(sessionUuid := []))
            && (kept.sessionUuid != [] ==> Sourced(tabs[i].sessionUuid, from))
    decreases |tabs|
  {
    hide LooksLikeUuid, CopyTab, Sourced;
    var n := |tabs| - 1;
    if i < n {
      KeptIsSourced(dir, from, tabs[..n], faults, i);
    } else {
      CopyTabSound(CopyTabs(dir, from, tabs[..n], faults).dir, from, tabs[n], faults(n));
    }
  }

  /** The first `m` tabs are treated as if there were no others, and what they did to a session
      stays when no later tab with a source has it. */
  lemma {:induction false} LaterTabsLeave(dir: Directory, from: Sources, tabs: seq<Tab>, faults: Faults,
                                          m: nat, u: QString)
    requires m <= |tabs|
    ensures var r, p := CopyTabs(dir, from, tabs, faults), CopyTabs(dir, from, tabs[..m], faults);
            && r.tabs[..m] == p.tabs
            && ((forall k :: m <= k < |tabs| ==> tabs[k].sessionUuid != u || !Sourced(u, from)) ==>
                  SameAt(r.dir, p.dir, u))
    decreases |tabs|
  {
    hide LooksLikeUuid, CopyTab, Sourced;
    if m < |tabs| {
      var n := |tabs| - 1;
      assert tabs[..n][..m] == tabs[..m];
      LaterTabsLeave(dir, from, tabs[..n], faults, m, u);
      CopyTabSound(CopyTabs(dir, from, tabs[..n], faults).dir, from, tabs[n], faults(n));
    } else {
      assert tabs[..m] == tabs;
    }
  }

  /** A session that no tab can copy is left alone. */
  lemma OthersStay(dir: Directory, from: Sources, tabs: seq<Tab>, faults: Faults, u: QString)
    requires forall k :: 0 <= k < |tabs| ==> tabs[k].sessionUuid != u || !Sourced(u, from)
    ensures SameAt(CopyTabs(dir, from, tabs, faults).dir, dir, u)
  {
    hide LooksLikeUuid, CopyTab, Sourced;
    LaterTabsLeave(dir, from, tabs, faults, 0, u);
    assert CopyTabs(dir, from, tabs[..0], faults).dir == dir;
  }

  lemma Prefix(dir: Directory, from: Sources, tabs: seq<Tab>, faults: Faults, i: nat)
    requires i < |tabs|
    ensures var before := CopyTabs(dir, from, tabs[..i], faults);
            var p := CopyTabs(dir, from, tabs[..i + 1], faults);
            var last := CopyTab(before.dir, from, tabs[i], faults(i));
            |p.tabs| == i + 1 && p.dir == last.0 && p.tabs[i] == last.1
  {
    assert tabs[..i + 1][..i] == tabs[..i];
  }

  /** The claim of the last tab of a session is true, whatever fails. */
  lemma LastClaimHolds(dir: Directory, from: Sources, tabs: seq<Tab>, faults: Faults, i: nat)
    requires i < |tabs| && LastOfSession(tabs, i)
    ensures var r := CopyTabs(dir, from, tabs, faults);
            r.tabs[i].sessionUuid != [] ==> r.tabs[i].sessionUuid in r.dir
  {
    hide LooksLikeUuid, CopyTab, Sourced, CopyTabs;
    var r := CopyTabs(dir, from, tabs, faults);
    KeptIsSourced(dir, from, tabs, faults, i);
    LaterTabsLeave(dir, from, tabs, faults, i + 1, tabs[i].sessionUuid);
    Prefix(dir, from, tabs, faults, i);
    CopyTabSound(CopyTabs(dir, from, tabs[..i], faults).dir, from, tabs[i], faults(i));
    assert r.tabs[..i + 1][i] == r.tabs[i];
    forall k | i + 1 <= k < |tabs| ensures tabs[k].sessionUuid != tabs[i].sessionUuid {
      assert !SameSession(tabs, i, k);
    }
  }

  /** What a tab's copy leaves: the recent file, if there is one and its copy works, else the
      one of the previous generation; and the tab keeps its claim exactly when a copy works. */
  predicate TabCopied(from: Sources, u: QString, dir: Directory, now: Directory, f: CopyFaults, kept: bool) {
    var first := u in from.recents && f.copied && (f.unlinked || u !in dir);
    && (first ==> kept && u in now && now[u] == from.recents[u])
    && (kept && !first ==> u in from.previous && u in now && now[u] == from.previous[u])
    && (!first && u in from.previous && f.copiedAgain && f.unlinkedAgain ==> kept)
  }

  lemma CopyTabIs(dir: Directory, from: Sources, tab: Tab, f: CopyFaults)
    requires LooksLikeUuid(tab.sessionUuid)
    ensures var r := CopyTab(dir, from, tab, f);
            TabCopied(from, tab.sessionUuid, dir, r.0, f, r.1.sessionUuid != [])
  {
    UuidIsShort(tab.sessionUuid);
  }

  /** The snapshot behind a claim that is kept is the recent file or the previous snapshot of
      that session; the recent one whenever it was copied. */
  lemma KeptContent(dir: Directory, from: Sources, tabs: seq<Tab>, faults: Faults, i: nat)
    requires i < |tabs| && LastOfSession(tabs, i)
    ensures var r := CopyTabs(dir, from, tabs, faults); var u := tabs[i].sessionUuid;
            r.tabs[i].sessionUuid != [] ==>
              && u in r.dir
              && ((u in from.recents && r.dir[u] == from.recents[u])
                  || (u in from.previous && r.dir[u] == from.previous[u]))
              && (u in from.recents && faults(i).unlinked && faults(i).copied ==> r.dir[u] == from.recents[u])
  {
    hide LooksLikeUuid, CopyTab, CopyTabs;
    var r, u, before := CopyTabs(dir, from, tabs, faults), tabs[i].sessionUuid, CopyTabs(dir, from, tabs[..i], faults);
    LastClaimHolds(dir, from, tabs, faults, i);
    KeptIsSourced(dir, from, tabs, faults, i);
    LaterTabsLeave(dir, from, tabs, faults, i + 1, u);
    Prefix(dir, from, tabs, faults, i);
    assert r.tabs[..i + 1][i] == r.tabs[i];
    forall k | i + 1 <= k < |tabs| ensures tabs[k].sessionUuid != u {
      assert !SameSession(tabs, i, k);
    }
    if r.tabs[i].sessionUuid != [] {
      CopyTabIs(before.dir, from, tabs[i], faults(i));
    }
  }

  /** Everything works, but the copies for tab `j` fail once the old file is gone. */
  function FailingAt(j: nat): Faults {
    (k: nat) => if k == j then CopyFaults(true, false, true, false) else CopyFaults(true, true, true, true)
  }

  lemma LastTabOf(tabs: seq<Tab>, j: nat) returns (k: nat)
    requires j < |tabs|
    ensures j <= k < |tabs| && SameSession(tabs, j, k) && LastOfSession(tabs, k)
  {
    k := |tabs| - 1;
    while !SameSession(tabs, j, k)
      invariant j <= k < |tabs|
      invariant forall l :: k < l < |tabs| ==> !SameSession(tabs, j, l)
      decreases k
    {
      k := k - 1;
    }
    forall l | k < l < |tabs| ensures !SameSession(tabs, k, l) {
      assert !SameSession(tabs, j, l);
    }
  }

  /** When the copy for the last tab of a session fails, its snapshot is gone. */
  lemma FailedCopyRemoves(dir: Directory, from: Sources, tabs: seq<Tab>, k: nat)
    requires k < |tabs| && Sourced(tabs[k].sessionUuid, from) && LastOfSession(tabs, k)
    ensures tabs[k].sessionUuid !in CopyTabs(dir, from, tabs, FailingAt(k)).dir
  {
    hide LooksLikeUuid, CopyTabs;
    LaterTabsLeave(dir, from, tabs, FailingAt(k), k + 1, tabs[k].sessionUuid);
    Prefix(dir, from, tabs, FailingAt(k), k);
    forall l | k + 1 <= l < |tabs| ensures tabs[l].sessionUuid != tabs[k].sessionUuid {
      assert !SameSession(tabs, k, l);
    }
  }

  /** The later tab of a session removes what the earlier one copied. */
  lemma RepeatedUncovered(dir: Directory, from: Sources, tabs: seq<Tab>, i: nat)
    requires i < |tabs| && Sourced(tabs[i].sessionUuid, from) && !LastOfSession(tabs, i)
    ensures exists faults :: var r := CopyTabs(dir, from, tabs, faults);
                             r.tabs[i].sessionUuid == tabs[i].sessionUuid && tabs[i].sessionUuid !in r.dir
  {
    hide LooksLikeUuid, CopyTabs;
    var j :| i < j < |tabs| && SameSession(tabs, i, j);
    var k := LastTabOf(tabs, j);
    FailedCopyRemoves(dir, from, tabs, k);
    var r := CopyTabs(dir, from, tabs, FailingAt(k));
    LaterTabsLeave(dir, from, tabs, FailingAt(k), i + 1, tabs[i].sessionUuid);
    Prefix(dir, from, tabs, FailingAt(k), i);
    assert r.tabs[..i + 1][i] == r.tabs[i];
  }

  /** No false claim is left, whatever copies and removals fail, exactly when no session that
      has a source belongs to two tabs. */
  lemma NoFalseClaimIffDistinct(dir: Directory, from: Sources, tabs: seq<Tab>)
    ensures (forall faults :: var r := CopyTabs(dir, from, tabs, faults); Covered(r.tabs, r.dir)) <==>
            Distinct(tabs, from)
  {
    hide LooksLikeUuid, Sourced, CopyTabs, LastOfSession;
    if Distinct(tabs, from) {
      forall faults ensures var r := CopyTabs(dir, from, tabs, faults); Covered(r.tabs, r.dir) {
        var r := CopyTabs(dir, from, tabs, faults);
        forall i | 0 <= i < |tabs| && r.tabs[i].sessionUuid != [] ensures r.tabs[i].sessionUuid in r.dir {
          KeptIsSourced(dir, from, tabs, faults, i);
          LastClaimHolds(dir, from, tabs, faults, i);
        }
      }
    } else {
      var i :| 0 <= i < |tabs| && Sourced(tabs[i].sessionUuid, from) && !LastOfSession(tabs, i);
      RepeatedUncovered(dir, from, tabs, i);
      var faults :| var r := CopyTabs(dir, from, tabs, faults);
                    r.tabs[i].sessionUuid == tabs[i].sessionUuid && tabs[i].sessionUuid !in r.dir;
      SourcedIsNamed(tabs[i].sessionUuid, from);
    }
  }

  lemma SourcedIsNamed(u: QString, from: Sources)
    requires Sourced(u, from)
    ensures u != [] && |u| <= MAX_UUID_LENGTH
  {
  }

  ghost predicate Faultless(faults: Faults) {
    forall k :: faults(k) == CopyFaults(true, true, true, true)
  }

  lemma FaultlessTab(dir: Directory, from: Sources, tab: Tab)
    ensures var r := CopyTab(dir, from, tab, CopyFaults(true, true, true, true));
            && r.1 == (if Sourced(tab.sessionUuid, from) then tab else tab.(sessionUuid := []))
            && (Sourced(tab.sessionUuid, from) ==> tab.sessionUuid in r.0)
            && (forall u :: u != tab.sessionUuid ==> (u in r.0 <==> u in dir))
  {
  }

  /** With no failure nothing but a missing source loses a claim. */
  lemma {:induction false} FaultlessKeepsSourced(dir: Directory, from: Sources, tabs: seq<Tab>, faults: Faults)
    requires Faultless(faults)
    ensures var r := CopyTabs(dir, from, tabs, faults);
            && Covered(r.tabs, r.dir)
            && forall i :: 0 <= i < |tabs| ==>
                 r.tabs[i] == if Sourced(tabs[i].sessionUuid, from) then tabs[i] else tabs[i].(sessionUuid := [])
    decreases |tabs|
  {
    if tabs != [] {
      hide LooksLikeUuid, CopyTab, Sourced;
      var n := |tabs| - 1;
      FaultlessKeepsSourced(dir, from, tabs[..n], faults);
      FaultlessTab(CopyTabs(dir, from, tabs[..n], faults).dir, from, tabs[n]);
    }
  }
}
