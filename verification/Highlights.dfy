/** The cache of the last matching highlight rule per row: `HighlightRuleSet`.

  How a rule compiles is a parameter of the calls that compile: it depends on the columns
  and the table of the moment.  A compiled rule is a predicate on rows. */
module Highlights {
  import opened Basics

  /** Rule indices are kept in sixteen bits. */
  const MAX_RULES: nat := 0x7FFF
  const NO_MATCH: int := -1

  predicate Hit<Row>(rule: Option<Row -> bool>, row: Row) { rule.Some? && rule.value(row) }

  /** The last active rule that matches the row: the scan from scratch. */
  function Scan<Row>(compiled: seq<Option<Row -> bool>>, row: Row): (m: int)
    ensures -1 <= m < |compiled|
    ensures m >= 0 ==> Hit(compiled[m], row)
    ensures forall i :: m < i < |compiled| ==> !Hit(compiled[i], row)
  {
    if compiled == [] then NO_MATCH
    else if Hit(compiled[|compiled| - 1], row) then |compiled| - 1
    else Scan(compiled[..|compiled| - 1], row)
  }

  function Scanned<Row>(compiled: seq<Option<Row -> bool>>, table: seq<Row>): (r: seq<int>)
    ensures |r| == |table| && forall i :: 0 <= i < |table| ==> r[i] == Scan(compiled, table[i])
  {
    seq(|table|, i requires 0 <= i < |table| => Scan(compiled, table[i]))
  }

  function Compiled<Rule, Row>(rules: seq<Rule>, compile: Rule -> Option<Row -> bool>): (r: seq<Option<Row -> bool>>)
    ensures |r| == |rules| && forall i :: 0 <= i < |rules| ==> r[i] == compile(rules[i])
  {
    seq(|rules|, i requires 0 <= i < |rules| => compile(rules[i]))
  }

  function Active<Row>(compiled: seq<Option<Row -> bool>>): nat {
    if compiled == [] then 0
    else Active(compiled[..|compiled| - 1]) + if compiled[|compiled| - 1].Some? then 1 else 0
  }

  function ActiveIndices<Row>(compiled: seq<Option<Row -> bool>>): set<nat> {
    set i | 0 <= i < |compiled| && compiled[i].Some?
  }

  lemma {:induction false} ActiveCounts<Row>(compiled: seq<Option<Row -> bool>>)
    ensures Active(compiled) == |ActiveIndices(compiled)| <= |compiled|
  {
    if compiled != [] {
      var n := |compiled| - 1;
      ActiveCounts(compiled[..n]);
      assert ActiveIndices(compiled) == ActiveIndices(compiled[..n]) + if compiled[n].Some? then {n} else {};
    } else {
      var none: seq<Option<Row -> bool>> := compiled;
      assert ActiveIndices(none) == {};
    }
  }

  function Kept<Rule>(rules: seq<Rule>): seq<Rule> { rules[..Min(|rules|, MAX_RULES)] }

  lemma {:induction false} NoneActive<Row>(compiled: seq<Option<Row -> bool>>, row: Row)
    requires Active(compiled) == 0
    ensures Scan(compiled, row) == NO_MATCH
  {
    if compiled != [] {
      NoneActive(compiled[..|compiled| - 1], row);
    }
  }

  lemma InactiveScanned<Row>(compiled: seq<Option<Row -> bool>>, table: seq<Row>)
    requires Active(compiled) == 0
    ensures forall i :: 0 <= i < |table| ==> Scanned(compiled, table)[i] == NO_MATCH
  {
    forall i | 0 <= i < |table| ensures Scan(compiled, table[i]) == NO_MATCH {
      NoneActive(compiled, table[i]);
    }
  }

  /** The first hit from behind is the scan. */
  lemma ScanIs<Row>(compiled: seq<Option<Row -> bool>>, row: Row, m: int)
    requires -1 <= m < |compiled| && (m >= 0 ==> Hit(compiled[m], row))
    requires forall i :: m < i < |compiled| ==> !Hit(compiled[i], row)
    ensures Scan(compiled, row) == m
  {
  }

  // ----- What an append does to the cache -----

  function Grown(cache: seq<int>, n: nat): (r: seq<int>)
    ensures |r| == if n > |cache| then n else |cache|
    ensures forall i :: 0 <= i < |r| ==> r[i] == if i < |cache| then cache[i] else NO_MATCH
  {
    cache + seq(if n > |cache| then n - |cache| else 0, _ => NO_MATCH)
  }

  /** The rows `first .. last + 1` scanned anew. */
  function Evaluated<Row>(compiled: seq<Option<Row -> bool>>, cache: seq<int>, table: seq<Row>,
                          first: nat, last: nat): (r: seq<int>)
    requires first <= last < |cache| && last < |table|
    ensures |r| == |cache|
    ensures forall i :: 0 <= i < |r| ==> r[i] == if first <= i <= last then Scan(compiled, table[i]) else cache[i]
  {
    seq(|cache|, i requires 0 <= i < |cache| => if first <= i <= last then Scan(compiled, table[i]) else cache[i])
  }

  function Appended<Row>(compiled: seq<Option<Row -> bool>>, cache: seq<int>, table: seq<Row>,
                         first: nat, last: nat): seq<int>
    requires last < |table|
  {
    if Active(compiled) == 0 then Grown(cache, |table|)
    else if first > last then cache
    else Evaluated(compiled, Grown(cache, last + 1), table, first, last)
  }

  function Evicted<T>(s: seq<T>, first: nat, last: nat): seq<T> {
    if first > last || first >= |s| then s else s[..first] + s[Min(last, |s| - 1) + 1..]
  }

  /** Rows are appended and announced up to the last.  The cache is then right exactly when
      no row between the old ones and the first announced one matches a rule: those rows are
      filled in without a look at them. */
  lemma AppendInSyncIff<Row>(compiled: seq<Option<Row -> bool>>, table: seq<Row>, more: seq<Row>, first: nat)
    requires more != [] && first < |table| + |more|
    ensures var now := table + more;
            Appended(compiled, Scanned(compiled, table), now, first, |now| - 1) == Scanned(compiled, now) <==>
            forall r :: |table| <= r < first ==> Scan(compiled, now[r]) == NO_MATCH
  {
    var now := table + more;
    var r, s := Appended(compiled, Scanned(compiled, table), now, first, |now| - 1), Scanned(compiled, now);
    assert forall i :: 0 <= i < |table| ==> now[i] == table[i];
    if Active(compiled) == 0 {
      InactiveScanned(compiled, now);
      InactiveScanned(compiled, table);
      assert r == s;
    } else {
      assert |r| == |s|;
      assert forall i :: |table| <= i < first ==> r[i] == NO_MATCH;
      if forall i :: |table| <= i < first ==> Scan(compiled, now[i]) == NO_MATCH {
        assert r == s;
      } else {
        var i :| |table| <= i < first && Scan(compiled, now[i]) != NO_MATCH;
        assert r[i] != s[i];
      }
    }
  }

  lemma EvictedAt<T>(s: seq<T>, first: nat, last: nat)
    requires first <= last && first < |s|
    ensures var r, skip := Evicted(s, first, last), Min(last, |s| - 1) + 1 - first;
            |r| == |s| - skip && forall i :: 0 <= i < |r| ==> r[i] == s[if i < first then i else i + skip]
  {
  }

  lemma EvictInSync<Row>(compiled: seq<Option<Row -> bool>>, table: seq<Row>, first: nat, last: nat)
    ensures Evicted(Scanned(compiled, table), first, last) == Scanned(compiled, Evicted(table, first, last))
  {
    if first <= last && first < |table| {
      hide Evicted, Scan;
      var cache := Scanned(compiled, table);
      EvictedAt(table, first, last);
      EvictedAt(cache, first, last);
      var now, r := Evicted(table, first, last), Evicted(cache, first, last);
      var skip := Min(last, |table| - 1) + 1 - first;
      forall i | 0 <= i < |r| ensures r[i] == Scan(compiled, now[i]) {
        var j := if i < first then i else i + skip;
        assert r[i] == cache[j] && now[i] == table[j];
      }
      SameScan(compiled, now, r);
    }
  }

  lemma SameScan<Row>(compiled: seq<Option<Row -> bool>>, table: seq<Row>, cache: seq<int>)
    requires |cache| == |table| && forall i :: 0 <= i < |cache| ==> cache[i] == Scan(compiled, table[i])
    ensures cache == Scanned(compiled, table)
  {
  }

  /** More rules than sixteen bits can number are cut off; a row shows its last matching rule
      all the same exactly when none of those cut off matches it. */
  lemma CutRulesShowIff<Rule, Row>(rules: seq<Rule>, compile: Rule -> Option<Row -> bool>, row: Row)
    ensures Scan(Compiled(Kept(rules), compile), row) == Scan(Compiled(rules, compile), row) <==>
            forall i :: MAX_RULES <= i < |rules| ==> !Hit(compile(rules[i]), row)
  {
    var kept, all := Compiled(Kept(rules), compile), Compiled(rules, compile);
    assert forall i :: 0 <= i < |kept| ==> kept[i] == all[i];
    if forall i :: MAX_RULES <= i < |rules| ==> !Hit(compile(rules[i]), row) {
      ScanIs(all, row, Scan(kept, row));
    } else {
      var i :| MAX_RULES <= i < |rules| && Hit(compile(rules[i]), row);
      assert Hit(all[i], row);
    }
  }

  // ----- Runs -----

  datatype Event<!Rule, !Row> =
    | SetRules(rules: seq<Rule>, compile: Rule -> Option<Row -> bool>)
    | Rebind(compile: Rule -> Option<Row -> bool>)
    | Append(more: seq<Row>)
    | Evict(first: nat, last: nat)
    | Reset

  datatype State<Rule, !Row> =
    State(rules: seq<Rule>, compiled: seq<Option<Row -> bool>>, cache: seq<int>, table: seq<Row>)

  /** The cache beside the table, each change of the table announced when it happened. */
  function Step<Rule, Row>(s: State<Rule, Row>, e: Event<Rule, Row>): State<Rule, Row> {
    match e
    case SetRules(rules, compile) =>
      var c := Compiled(Kept(rules), compile);
      State(Kept(rules), c, Scanned(c, s.table), s.table)
    case Rebind(compile) =>
      if s.rules == [] then s.(compiled := [])
      else
        var c := Compiled(Kept(s.rules), compile);
        State(Kept(s.rules), c, Scanned(c, s.table), s.table)
    case Append(more) =>
      var now := s.table + more;
      if more == [] then s else s.(cache := Appended(s.compiled, s.cache, now, |s.table|, |now| - 1), table := now)
    case Evict(first, last) => s.(cache := Evicted(s.cache, first, last), table := Evicted(s.table, first, last))
    case Reset => s.(cache := [], table := [])
  }

  /** What a step does to the rules and to the table beside the cache. */
  lemma StepIs<Rule, Row>(s: State<Rule, Row>, e: Event<Rule, Row>)
    ensures var n := Step(s, e);
            && (e.Append? ==> n.table == s.table + e.more && n.rules == s.rules)
            && (e.Evict? && e.first <= e.last < |s.table| ==>
                  n.table == s.table[..e.first] + s.table[e.last + 1..] && n.rules == s.rules)
            && (e.Reset? ==> n.table == [] && n.cache == [] && n.rules == s.rules && n.compiled == s.compiled)
            && (e.SetRules? ==>
                  n.table == s.table && n.rules <= e.rules && |n.rules| == Min(|e.rules|, 32767)
                  && n.compiled == Compiled(n.rules, e.compile))
            && (e.Rebind? && |s.rules| <= 32767 ==>
                  n.table == s.table && n.rules == s.rules && n.compiled == Compiled(n.rules, e.compile))
  {
    if e.Append? && e.more == [] {
      assert s.table + e.more == s.table;
    }
    if e.Rebind? && |s.rules| <= 32767 {
      assert Kept(s.rules) == s.rules;
      assert s.rules == [] ==> Compiled(s.rules, e.compile) == [];
    }
  }

  function Run<Rule, Row>(events: seq<Event<Rule, Row>>): State<Rule, Row> {
    if events == [] then State([], [], [], []) else Step(Run(events[..|events| - 1]), events[|events| - 1])
  }

  /** After every run the cache is what a scan of all rows with the current rules gives. */
  lemma {:induction false} RunInSync<Rule, Row>(events: seq<Event<Rule, Row>>)
    ensures var s := Run(events);
            s.cache == Scanned(s.compiled, s.table) && |s.compiled| == |s.rules| <= MAX_RULES
  {
    if events != [] {
      var s, e := Run(events[..|events| - 1]), events[|events| - 1];
      RunInSync(events[..|events| - 1]);
      match e
      case Append(more) =>
        if more != [] {
          AppendInSyncIff(s.compiled, s.table, more, |s.table|);
        }
      case Evict(first, last) => EvictInSync(s.compiled, s.table, first, last);
      case Reset => assert Scanned(s.compiled, []) == [];
      case Rebind(_) =>
        if s.rules == [] {
          assert s.compiled == [];
        }
      case SetRules(_, _) =>
    }
  }

  // ----- The class -----

  class HighlightRuleSet<Rule, !Row> {
    var rules: seq<Rule>
    var compiled: seq<Option<Row -> bool>>
    var rowMatch: seq<int>
    var inactiveCount: nat
    var activeCount: nat

    ghost predicate Valid()
      reads this
    {
      && |compiled| == |rules| <= MAX_RULES
      && activeCount == Active(compiled) && inactiveCount == |compiled| - activeCount
    }

    constructor ()
      ensures Valid() && rules == [] && compiled == [] && rowMatch == []
    {
      rules, compiled, rowMatch, inactiveCount, activeCount := [], [], [], 0, 0;
    }

    function LastMatchFor(sourceRow: nat): (m: Option<nat>)
      reads this
      ensures m.Some? <==> sourceRow < |rowMatch| && rowMatch[sourceRow] >= 0
      ensures m.Some? ==> m.value == rowMatch[sourceRow]
    {
      if sourceRow >= |rowMatch| then None
      else if rowMatch[sourceRow] < 0 then None
      else Some(rowMatch[sourceRow])
    }

    method RecompileAll(compile: Rule -> Option<Row -> bool>)
      modifies this`rules, this`compiled, this`inactiveCount, this`activeCount
      ensures Valid() && rules == Kept(old(rules)) && compiled == Compiled(rules, compile)
      ensures activeCount == |ActiveIndices(compiled)| && inactiveCount == |rules| - |ActiveIndices(compiled)|
      ensures |rules| == Min(|old(rules)|, MAX_RULES) && rules <= old(rules)
    {
      if |rules| > MAX_RULES {
        rules := rules[..MAX_RULES];
      }
      compiled := [];
      var inactive, active := 0, 0;
      for i := 0 to |rules|
        invariant rules == Kept(old(rules))
        invariant |compiled| == i && forall j :: 0 <= j < i ==> compiled[j] == compile(rules[j])
        invariant active == Active(compiled) && active + inactive == i
      {
        var c := compile(rules[i]);
        assert (compiled + [c])[..|compiled|] == compiled;
        compiled := compiled + [c];
        if c.Some? {
          active := active + 1;
        } else {
          inactive := inactive + 1;
        }
      }
      inactiveCount, activeCount := inactive, active;
      ActiveCounts(compiled);
    }

    /** Rules from behind, the first hit wins. */
    method EvaluateRow(row: Row) returns (m: int)
      ensures m == Scan(compiled, row)
    {
      m := NO_MATCH;
      var i := |compiled|;
      while i > 0
        invariant 0 <= i <= |compiled| && m == NO_MATCH
        invariant forall j :: i <= j < |compiled| ==> !Hit(compiled[j], row)
      {
        i := i - 1;
        if compiled[i].Some? && compiled[i].value(row) {
          ScanIs(compiled, row, i);
          return i;
        }
      }
      ScanIs(compiled, row, NO_MATCH);
    }

    method EvaluateRows(table: seq<Row>, first: nat, last: nat)
      requires first <= last < |rowMatch| && last < |table| && compiled != []
      modifies this`rowMatch
      ensures rowMatch == Evaluated(compiled, old(rowMatch), table, first, last)
    {
      for row := first to last + 1
        invariant |rowMatch| == |old(rowMatch)|
        invariant forall i :: 0 <= i < |rowMatch| ==>
                    rowMatch[i] == if first <= i < row then Scan(compiled, table[i]) else old(rowMatch)[i]
      {
        var m := EvaluateRow(table[row]);
        rowMatch := rowMatch[row := m];
      }
    }

    method RebuildAllMatches(table: seq<Row>)
      requires Valid()
      modifies this`rowMatch
      ensures rowMatch == Scanned(compiled, table)
    {
      rowMatch := Grown([], |table|);
      if compiled == [] || activeCount == 0 || |table| == 0 {
        if |table| > 0 {
          InactiveScanned(compiled, table);
        }
        return;
      }
      EvaluateRows(table, 0, |table| - 1);
    }

    method SetRules(newRules: seq<Rule>, compile: Rule -> Option<Row -> bool>, table: Option<seq<Row>>)
      modifies this
      ensures Valid() && rules == Kept(newRules) && compiled == Compiled(rules, compile)
      ensures rowMatch == if table.Some? then Scanned(compiled, table.value) else []
    {
      rules := newRules;
      RecompileAll(compile);
      if table.Some? {
        RebuildAllMatches(table.value);
      } else {
        rowMatch := [];
      }
    }

    /** Without a table the rules are compiled anew but the cache stays: beside rows for which
        it was right, it is right afterwards exactly when old and new rules agree on them. */
    method RebindColumns(compile: Rule -> Option<Row -> bool>, table: Option<seq<Row>>)
      requires Valid()
      modifies this
      ensures Valid() && rules == old(rules) && compiled == Compiled(rules, compile)
      ensures rules != [] && table.Some? ==> rowMatch == Scanned(compiled, table.value)
      ensures rules == [] || table.None? ==> rowMatch == old(rowMatch)
      ensures table.None? ==> forall rows :: old(rowMatch) == Scanned(old(compiled), rows) ==>
                (rowMatch == Scanned(compiled, rows) <==>
                 forall r :: 0 <= r < |rows| ==> Scan(compiled, rows[r]) == Scan(old(compiled), rows[r]))
    {
      if rules == [] {
        compiled, inactiveCount, activeCount := [], 0, 0;
        return;
      }
      RecompileAll(compile);
      if table.Some? {
        RebuildAllMatches(table.value);
      }
    }

    method OnRowsAppended(table: seq<Row>, firstNewRow: nat, lastNewRow: nat)
      requires Valid() && lastNewRow < |table|
      modifies this`rowMatch
      ensures rowMatch == Appended(compiled, old(rowMatch), table, firstNewRow, lastNewRow)
    {
      if rules == [] || activeCount == 0 {
        if |table| > |rowMatch| {
          rowMatch := Grown(rowMatch, |table|);
        } else {
          assert Grown(rowMatch, |table|) == rowMatch;
        }
        return;
      }
      if firstNewRow > lastNewRow {
        return;
      }
      if lastNewRow >= |rowMatch| {
        rowMatch := Grown(rowMatch, lastNewRow + 1);
      } else {
        assert Grown(rowMatch, lastNewRow + 1) == rowMatch;
      }
      EvaluateRows(table, firstNewRow, lastNewRow);
    }

    method OnRowsEvicted(first: nat, last: nat)
      modifies this`rowMatch
      ensures rowMatch == Evicted(old(rowMatch), first, last)
    {
      if first > last || rowMatch == [] || first >= |rowMatch| {
        return;
      }
      var clampedLast := Min(last, |rowMatch| - 1);
      rowMatch := rowMatch[..first] + rowMatch[clampedLast + 1..];
    }

    method ClearMatches()
      modifies this`rowMatch
      ensures rowMatch == []
    {
      rowMatch := [];
    }

    /** One step of a run, the table being the one beside the cache. */
    method Handle(ghost s: State<Rule, Row>, e: Event<Rule, Row>, table: seq<Row>)
      requires Valid() && s == State(rules, compiled, rowMatch, table)
      modifies this
      ensures Valid() && Step(s, e) == State(rules, compiled, rowMatch, Step(s, e).table)
    {
      match e
      case SetRules(newRules, compile) => SetRules(newRules, compile, Some(table));
      case Rebind(compile) =>
        assert Kept(rules) == rules;
        RebindColumns(compile, Some(table));
      case Append(more) =>
        if more != [] {
          OnRowsAppended(table + more, |table|, |table| + |more| - 1);
        }
      case Evict(first, last) => OnRowsEvicted(first, last);
      case Reset => ClearMatches();
    }
  }
}
