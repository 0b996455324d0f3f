/** What the anchors dock shows, and why the incremental updates agree with a rebuild.

  A tree row keeps the key as `QString` and line id, so keys go through `Decode` on the
  way in and `Encode` on the way out. */
module Mirror {
  import opened Utf8
  import opened Notes
  import opened Anchors

  /** The values a tooltip is built from. */
  datatype Tip = Tip(color: Color, lineId: LineId, locator: Bytes, note: Text)

  datatype Row = Row(locator: Text, lineId: LineId, color: Color, note: Text, tip: Tip, selected: bool)

  /** The rows and the enabled state of "Clear all". */
  datatype View = View(rows: seq<Row>, clearEnabled: bool)

  function TipOf(e: Entry): Tip { Tip(e.color, e.lineId, e.locator, Decode(e.note)) }

  function NewRow(e: Entry): Row {
    Row(Decode(e.locator), e.lineId, e.color, Decode(e.note), TipOf(e), false)
  }

  /** The key the dock reads back from a row. */
  function RowKey(r: Row): Key { Key(Encode(r.locator), r.lineId) }

  predicate SameKey(r: Row, locator: Text, lineId: LineId) {
    r.locator == locator && r.lineId == lineId
  }

  function RemoveAt<T>(s: seq<T>, at: nat): (r: seq<T>)
    requires at < |s|
    ensures |r| == |s| - 1
    ensures forall i :: 0 <= i < |r| ==> r[i] == if i < at then s[i] else s[i + 1]
  {
    s[..at] + s[at + 1..]
  }

  function InsertAt<T>(s: seq<T>, pos: nat, x: T): (r: seq<T>)
    requires pos <= |s|
    ensures |r| == |s| + 1
    ensures forall i :: 0 <= i < |r| ==> r[i] == if i < pos then s[i] else if i == pos then x else s[i - 1]
  {
    s[..pos] + [x] + s[pos..]
  }

  // ----- What the handlers compute -----

  /** The first row with the key, or -1. */
  function Find(rows: seq<Row>, locator: Text, lineId: LineId): (at: int)
    ensures -1 <= at < |rows|
    ensures at >= 0 ==> SameKey(rows[at], locator, lineId)
    ensures forall i :: 0 <= i < (if at < 0 then |rows| else at) ==> !SameKey(rows[i], locator, lineId)
  {
    if rows == [] then -1
    else if SameKey(rows[0], locator, lineId) then 0
    else
      var at := Find(rows[1..], locator, lineId);
      if at < 0 then -1 else at + 1
  }

  /** The first row that sorts behind the key, or the end. */
  function InsertPos(rows: seq<Row>, key: Key): (pos: nat)
    ensures pos <= |rows|
    ensures pos < |rows| ==> KeyLess(key, RowKey(rows[pos]))
    ensures forall i :: 0 <= i < pos ==> !KeyLess(key, RowKey(rows[i]))
  {
    if rows == [] || KeyLess(key, RowKey(rows[0])) then 0 else 1 + InsertPos(rows[1..], key)
  }

  /** The anchor cell is rewritten; the note cell and the selection stay. */
  function Repopulated(r: Row, e: Entry): Row {
    r.(locator := Decode(e.locator), lineId := e.lineId, color := e.color, tip := TipOf(e))
  }

  function Renoted(r: Row, e: Entry): Row {
    r.(note := Decode(e.note), tip := TipOf(e))
  }

  /** `OnAnchorChanged` on a visible dock. */
  function AfterAnchorChanged(v: View, m: AnchorMap, k: Key): View {
    var at := Find(v.rows, Decode(k.locator), k.lineId);
    var rows :=
      if k !in m then
        if at >= 0 then RemoveAt(v.rows, at) else v.rows
      else if k.locator == [] then
        v.rows
      else if at >= 0 then
        v.rows[at := Repopulated(v.rows[at], EntryOf(k, m[k]))]
      else
        InsertAt(v.rows, InsertPos(v.rows, k), NewRow(EntryOf(k, m[k])));
    View(rows, m != map[])
  }

  /** `OnAnchorNoteChanged` on a visible dock. */
  ghost function AfterAnchorNoteChanged(v: View, m: AnchorMap, k: Key): View {
    var at := Find(v.rows, Decode(k.locator), k.lineId);
    if at < 0 || k !in m then Rebuilt(v, m)
    else v.(rows := v.rows[at := Renoted(v.rows[at], EntryOf(k, m[k]))])
  }

  function RowsOf(es: seq<Entry>): (rows: seq<Row>)
    ensures |rows| == |es| && forall i :: 0 <= i < |es| ==> rows[i] == NewRow(es[i])
  {
    if es == [] then [] else [NewRow(es[0])] + RowsOf(es[1..])
  }

  /** The rows of a full rebuild, nothing selected. */
  ghost function Fresh(m: AnchorMap): seq<Row> { RowsOf(Listing(Persistent(m))) }

  /** Is a selected row with this key among the rows? */
  predicate WasSelected(rows: seq<Row>, locator: Text, lineId: LineId) {
    exists i :: 0 <= i < |rows| && rows[i].selected && SameKey(rows[i], locator, lineId)
  }

  /** The selection put back by key. */
  function Reselected(rows: seq<Row>, old_: seq<Row>): (r: seq<Row>)
    ensures |r| == |rows|
    ensures forall i :: 0 <= i < |rows| ==>
              r[i] == rows[i].(selected := WasSelected(old_, rows[i].locator, rows[i].lineId))
  {
    if rows == [] then []
    else [rows[0].(selected := WasSelected(old_, rows[0].locator, rows[0].lineId))] + Reselected(rows[1..], old_)
  }

  /** `RefreshAlways` with a live manager. */
  ghost function Rebuilt(v: View, m: AnchorMap): View {
    View(Reselected(Fresh(m), v.rows), m != map[])
  }

  ghost function Delivered(v: View, m: AnchorMap, s: Signal): View {
    match s
    case Silent => v
    case AnchorChanged(k) => AfterAnchorChanged(v, m, k)
    case AnchorNoteChanged(k) => AfterAnchorNoteChanged(v, m, k)
    case AnchorsReset => Rebuilt(v, m)
  }

  // ----- The mirror -----

  function Unselected(r: Row): Row { r.(selected := false) }

  /** In order and content the rows are those of a full rebuild. */
  ghost predicate Mirrors(v: View, m: AnchorMap) {
    && |v.rows| == |Fresh(m)|
    && (forall i :: 0 <= i < |v.rows| ==> Unselected(v.rows[i]) == Fresh(m)[i])
    && v.clearEnabled == (m != map[])
  }

  predicate Faithful(m: AnchorMap) { forall k :: k in m ==> Valid(k.locator) }

  /** The row is what a rebuild would show for its key. */
  predicate RowShows(r: Row, m: AnchorMap) {
    && RowKey(r) in m && RowKey(r).locator != []
    && Unselected(r) == NewRow(EntryOf(RowKey(r), m[RowKey(r)]))
  }

  predicate RowsAscend(rows: seq<Row>) {
    forall i, j :: 0 <= i < j < |rows| ==> KeyLess(RowKey(rows[i]), RowKey(rows[j]))
  }

  predicate HasRow(rows: seq<Row>, k: Key) {
    exists i :: 0 <= i < |rows| && RowKey(rows[i]) == k
  }

  /** The mirror, row by row. */
  predicate Shows(rows: seq<Row>, m: AnchorMap) {
    && RowsAscend(rows)
    && (forall i :: 0 <= i < |rows| ==> RowShows(rows[i], m))
    && (forall k :: k in m && k.locator != [] ==> HasRow(rows, k))
  }

  lemma NewRowKey(e: Entry)
    requires Valid(e.locator)
    ensures RowKey(NewRow(e)) == KeyOf(e)
  {
  }

  lemma ListedRowShows(e: Entry, m: AnchorMap)
    requires Valid(e.locator) && KeyOf(e) in Persistent(m) && e == EntryOf(KeyOf(e), m[KeyOf(e)])
    ensures RowKey(NewRow(e)) == KeyOf(e) && RowShows(NewRow(e), m)
  {
    NewRowKey(e);
  }

  lemma FreshRowShows(m: AnchorMap, i: nat)
    requires Faithful(m) && i < |Fresh(m)|
    ensures RowKey(Fresh(m)[i]) == KeyOf(Listing(Persistent(m))[i]) && RowShows(Fresh(m)[i], m)
  {
    var es := Listing(Persistent(m));
    assert es[i] in es;
    ListedRowShows(es[i], m);
  }

  lemma FreshShows(m: AnchorMap)
    requires Faithful(m)
    ensures Shows(Fresh(m), m)
    ensures forall i :: 0 <= i < |Fresh(m)| ==> RowKey(Fresh(m)[i]) == KeyOf(Listing(Persistent(m))[i])
  {
    hide RowKey, RowShows, Valid, KeyLess, NewRow;
    var es := Listing(Persistent(m));
    forall i | 0 <= i < |es| ensures RowKey(Fresh(m)[i]) == KeyOf(es[i]) && RowShows(Fresh(m)[i], m) {
      FreshRowShows(m, i);
    }
    forall k | k in m && k.locator != [] ensures HasRow(Fresh(m), k) {
      assert k in Persistent(m);
      var i :| 0 <= i < |es| && es[i] == EntryOf(k, m[k]);
      assert RowKey(Fresh(m)[i]) == k;
    }
  }

  function EntriesOf(rows: seq<Row>, m: AnchorMap): (es: seq<Entry>)
    requires forall i :: 0 <= i < |rows| ==> RowKey(rows[i]) in m
    ensures |es| == |rows|
    ensures forall i :: 0 <= i < |rows| ==> es[i] == EntryOf(RowKey(rows[i]), m[RowKey(rows[i])])
  {
    seq(|rows|, i requires 0 <= i < |rows| => EntryOf(RowKey(rows[i]), m[RowKey(rows[i])]))
  }

  lemma ShownIsListed(rows: seq<Row>, m: AnchorMap)
    requires Shows(rows, m)
    ensures forall i :: 0 <= i < |rows| ==> RowKey(rows[i]) in m
    ensures EntriesOf(rows, m) == Listing(Persistent(m))
  {
    var p := Persistent(m);
    forall i | 0 <= i < |rows| ensures RowKey(rows[i]) in m {
      assert RowShows(rows[i], m);
    }
    var es := EntriesOf(rows, m);
    assert Ascending(es);
    forall e | e in es ensures KeyOf(e) in p && e == EntryOf(KeyOf(e), p[KeyOf(e)]) {
      var i :| 0 <= i < |es| && es[i] == e;
      assert RowShows(rows[i], m);
    }
    forall k | k in p ensures EntryOf(k, p[k]) in es {
      assert HasRow(rows, k);
      var i :| 0 <= i < |rows| && RowKey(rows[i]) == k;
      assert es[i] == EntryOf(k, p[k]);
    }
    ListingUnique(es, Listing(p), p);
  }

  /** Row by row and as a whole are the same thing. */
  lemma MirrorsIffShows(v: View, m: AnchorMap)
    requires Faithful(m)
    ensures Mirrors(v, m) <==> Shows(v.rows, m) && v.clearEnabled == (m != map[])
  {
    if Mirrors(v, m) {
      SameRowsShow(v.rows, m);
    }
    if Shows(v.rows, m) {
      ShownIsListed(v.rows, m);
      forall i | 0 <= i < |v.rows| ensures Unselected(v.rows[i]) == Fresh(m)[i] {
        assert RowShows(v.rows[i], m);
      }
    }
  }

  lemma SameRowsShow(rows: seq<Row>, m: AnchorMap)
    requires Faithful(m) && |rows| == |Fresh(m)|
    requires forall i :: 0 <= i < |rows| ==> Unselected(rows[i]) == Fresh(m)[i]
    ensures Shows(rows, m)
  {
    var anew := Fresh(m);
    FreshShows(m);
    forall i | 0 <= i < |rows| ensures RowKey(rows[i]) == RowKey(anew[i]) && RowShows(rows[i], m) {
      assert RowShows(anew[i], m);
      assert RowKey(Unselected(rows[i])) == RowKey(rows[i]);
    }
    forall k | k in m && k.locator != [] ensures HasRow(rows, k) {
      assert HasRow(anew, k);
      var i :| 0 <= i < |anew| && RowKey(anew[i]) == k;
      assert RowKey(rows[i]) == k;
    }
  }

  /** Looking a valid key up by its text finds its row, or there is none. */
  lemma FindFinds(rows: seq<Row>, m: AnchorMap, k: Key)
    requires Shows(rows, m) && Valid(k.locator)
    ensures var at := Find(rows, Decode(k.locator), k.lineId);
            if at >= 0 then RowKey(rows[at]) == k && k in m && k.locator != []
            else !HasRow(rows, k) && (k !in m || k.locator == [])
  {
    var at := Find(rows, Decode(k.locator), k.lineId);
    if at >= 0 {
      assert RowShows(rows[at], m);
    } else if HasRow(rows, k) {
      var i :| 0 <= i < |rows| && RowKey(rows[i]) == k;
      EncodeInjective(Decode(k.locator), rows[i].locator);
      assert SameKey(rows[i], Decode(k.locator), k.lineId);
    }
  }

  lemma RowKeysDistinct(rows: seq<Row>, i: nat, j: nat)
    requires RowsAscend(rows) && i < |rows| && j < |rows| && i != j
    ensures RowKey(rows[i]) != RowKey(rows[j])
  {
    KeyLessTrichotomy(RowKey(rows[i]), RowKey(rows[j]));
    KeyLessTrichotomy(RowKey(rows[j]), RowKey(rows[i]));
  }

  // ----- Each handler keeps the mirror -----

  lemma RemovalShows(rows: seq<Row>, m: AnchorMap, k: Key, at: nat)
    requires Shows(rows, m) && at < |rows| && RowKey(rows[at]) == k
    ensures Shows(RemoveAt(rows, at), m - {k})
  {
    hide Encode, Decode, KeyLess;
    var n, left := m - {k}, RemoveAt(rows, at);
    forall i | 0 <= i < |left| ensures RowShows(left[i], n) {
      var j := if i < at then i else i + 1;
      assert left[i] == rows[j] && RowShows(rows[j], m);
      RowKeysDistinct(rows, j, at);
    }
    forall x | x in n && x.locator != [] ensures HasRow(left, x) {
      RemovalHasRow(rows, at, x);
    }
    RemovalAscends(rows, at);
  }

  lemma RemovalHasRow(rows: seq<Row>, at: nat, x: Key)
    requires at < |rows| && HasRow(rows, x) && RowKey(rows[at]) != x
    ensures HasRow(RemoveAt(rows, at), x)
  {
    hide RowKey;
    var j :| 0 <= j < |rows| && RowKey(rows[j]) == x;
    assert RemoveAt(rows, at)[if j < at then j else j - 1] == rows[j];
  }

  lemma RemovalAscends(rows: seq<Row>, at: nat)
    requires RowsAscend(rows) && at < |rows|
    ensures RowsAscend(RemoveAt(rows, at))
  {
  }

  lemma UpdateShows(rows: seq<Row>, m: AnchorMap, k: Key, at: nat, v: Value, r: Row)
    requires Shows(rows, m) && at < |rows| && RowKey(rows[at]) == k
    requires RowKey(r) == k && RowShows(r, m[k := v])
    ensures Shows(rows[at := r], m[k := v])
  {
    hide Encode, Decode, KeyLess;
    var n, now := m[k := v], rows[at := r];
    assert forall i :: 0 <= i < |rows| ==> RowKey(now[i]) == RowKey(rows[i]);
    forall i | 0 <= i < |now| ensures RowShows(now[i], n) {
      if i != at {
        assert RowShows(rows[i], m);
        RowKeysDistinct(rows, i, at);
      }
    }
    forall x | x in n && x.locator != [] ensures HasRow(now, x) {
      if x == k {
        assert RowKey(now[at]) == x;
      } else {
        assert HasRow(rows, x);
        var j :| 0 <= j < |rows| && RowKey(rows[j]) == x;
        assert RowKey(now[j]) == x;
      }
    }
  }

  lemma InsertPosSplits(rows: seq<Row>, k: Key)
    requires RowsAscend(rows) && !HasRow(rows, k)
    ensures forall i :: 0 <= i < InsertPos(rows, k) ==> KeyLess(RowKey(rows[i]), k)
    ensures forall i :: InsertPos(rows, k) <= i < |rows| ==> KeyLess(k, RowKey(rows[i]))
  {
    hide RowKey;
    var pos := InsertPos(rows, k);
    forall i | 0 <= i < pos ensures KeyLess(RowKey(rows[i]), k) {
      KeyLessTrichotomy(RowKey(rows[i]), k);
    }
    forall i | pos <= i < |rows| ensures KeyLess(k, RowKey(rows[i])) {
      if i > pos {
        KeyLessTransitive(k, RowKey(rows[pos]), RowKey(rows[i]));
      }
    }
  }

  lemma InsertionAscends(rows: seq<Row>, k: Key, r: Row)
    requires RowsAscend(rows) && !HasRow(rows, k) && RowKey(r) == k
    ensures RowsAscend(InsertAt(rows, InsertPos(rows, k), r))
  {
    InsertPosSplits(rows, k);
    AscendsWith(rows, InsertPos(rows, k), r);
  }

  lemma AscendsWith(rows: seq<Row>, pos: nat, r: Row)
    requires RowsAscend(rows) && pos <= |rows|
    requires forall i :: 0 <= i < pos ==> KeyLess(RowKey(rows[i]), RowKey(r))
    requires forall i :: pos <= i < |rows| ==> KeyLess(RowKey(r), RowKey(rows[i]))
    ensures RowsAscend(InsertAt(rows, pos, r))
  {
    hide RowKey, KeyLess;
    var now := InsertAt(rows, pos, r);
    forall i, j | 0 <= i < j < |now| ensures KeyLess(RowKey(now[i]), RowKey(now[j])) {
      var i', j' := if i < pos then i else i - 1, if j < pos then j else j - 1;
      assert i != pos ==> now[i] == rows[i'];
      assert j != pos ==> now[j] == rows[j'];
    }
  }

  lemma InsertionShows(rows: seq<Row>, m: AnchorMap, k: Key, v: Value)
    requires Shows(rows, m) && !HasRow(rows, k) && k !in m && k.locator != [] && Valid(k.locator)
    ensures Shows(InsertAt(rows, InsertPos(rows, k), NewRow(EntryOf(k, v))), m[k := v])
  {
    hide KeyLess, RowsAscend, InsertPos;
    var n, r, pos := m[k := v], NewRow(EntryOf(k, v)), InsertPos(rows, k);
    NewRowKey(EntryOf(k, v));
    InsertionAscends(rows, k, r);
    forall i | 0 <= i < |rows| ensures RowShows(rows[i], n) {
      assert RowShows(rows[i], m);
    }
    forall x | x in n && x.locator != [] && x != k ensures HasRow(rows, x) {
      assert x in m;
    }
    InsertionHasRows(rows, pos, r, n);
  }

  lemma InsertionHasRows(rows: seq<Row>, pos: nat, r: Row, n: AnchorMap)
    requires pos <= |rows| && RowShows(r, n) && RowsAscend(InsertAt(rows, pos, r))
    requires forall i :: 0 <= i < |rows| ==> RowShows(rows[i], n)
    requires forall x :: x in n && x.locator != [] && x != RowKey(r) ==> HasRow(rows, x)
    ensures Shows(InsertAt(rows, pos, r), n)
  {
    hide RowKey, RowShows, KeyLess;
    var now := InsertAt(rows, pos, r);
    forall i | 0 <= i < |now| ensures RowShows(now[i], n) {
      if i != pos {
        assert now[i] == rows[if i < pos then i else i - 1];
      }
    }
    forall x | x in n && x.locator != [] ensures HasRow(now, x) {
      if x == RowKey(r) {
        assert now[pos] == r;
      } else {
        var j :| 0 <= j < |rows| && RowKey(rows[j]) == x;
        assert now[if j < pos then j else j + 1] == rows[j];
      }
    }
  }

  lemma OnlyAt(m: AnchorMap, n: AnchorMap, k: Key)
    requires Differ(m, n) == {k}
    ensures m - {k} == n - {k}
    ensures k in n ==> n == (m - {k})[k := n[k]]
    ensures k in m && k in n ==> n == m[k := n[k]]
    ensures k !in n ==> n == m - {k}
    ensures k !in m && k in n ==> n == m[k := n[k]]
  {
    forall x | x != k ensures (x in m <==> x in n) && (x in m ==> m[x] == n[x]) {
      assert x !in Differ(m, n);
    }
  }

  /** Runtime-only anchors come and go without a row. */
  lemma RuntimeOnlyShows(rows: seq<Row>, m: AnchorMap, n: AnchorMap, k: Key)
    requires Shows(rows, m) && m - {k} == n - {k} && k.locator == []
    ensures Shows(rows, n)
  {
    forall x | x != k ensures (x in m <==> x in n) && (x in m ==> m[x] == n[x]) {
      assert x in m - {k} <==> x in n - {k};
      assert x in m - {k} ==> (m - {k})[x] == (n - {k})[x];
    }
    forall i | 0 <= i < |rows| ensures RowShows(rows[i], n) {
      assert RowShows(rows[i], m);
    }
  }

  lemma AnchorChangedShows(v: View, m: AnchorMap, n: AnchorMap, k: Key)
    requires Valid(k.locator) && Shows(v.rows, m)
    requires Differ(m, n) == {k} && (k in m && k in n ==> m[k].note == n[k].note)
    ensures Shows(AfterAnchorChanged(v, n, k).rows, n)
  {
    FindFinds(v.rows, m, k);
    OnlyAt(m, n, k);
    var at := Find(v.rows, Decode(k.locator), k.lineId);
    if k.locator == [] {
      RuntimeOnlyShows(v.rows, m, n, k);
    } else if k !in n {
      RemovalShows(v.rows, m, k, at);
    } else if at >= 0 {
      var r := v.rows[at];
      assert RowShows(r, m);
      assert RowShows(Repopulated(r, EntryOf(k, n[k])), n);
      UpdateShows(v.rows, m, k, at, n[k], Repopulated(r, EntryOf(k, n[k])));
    } else {
      InsertionShows(v.rows, m, k, n[k]);
    }
  }

  /** Delete, recolour and sorted insert: one key changed, and an anchor that stays keeps
      its note. */
  lemma AnchorChangedMirrors(v: View, m: AnchorMap, n: AnchorMap, k: Key)
    requires Faithful(m) && Faithful(n) && Valid(k.locator) && Mirrors(v, m)
    requires Differ(m, n) == {k} && (k in m && k in n ==> m[k].note == n[k].note)
    ensures Mirrors(AfterAnchorChanged(v, n, k), n)
  {
    MirrorsIffShows(v, m);
    AnchorChangedShows(v, m, n, k);
    MirrorsIffShows(AfterAnchorChanged(v, n, k), n);
  }

  lemma RebuiltMirrors(v: View, m: AnchorMap)
    ensures Mirrors(Rebuilt(v, m), m)
  {
  }

  lemma AnchorNoteChangedMirrors(v: View, m: AnchorMap, k: Key, note: Bytes)
    requires Faithful(m) && Valid(k.locator) && Mirrors(v, m)
    ensures Mirrors(AfterAnchorNoteChanged(v, WithNote(m, k, note), k), WithNote(m, k, note))
  {
    var n := WithNote(m, k, note);
    var at := Find(v.rows, Decode(k.locator), k.lineId);
    if at < 0 || k !in n {
      RebuiltMirrors(v, n);
    } else {
      MirrorsIffShows(v, m);
      FindFinds(v.rows, m, k);
      assert RowShows(v.rows[at], m);
      UpdateShows(v.rows, m, k, at, n[k], Renoted(v.rows[at], EntryOf(k, n[k])));
      MirrorsIffShows(AfterAnchorNoteChanged(v, n, k), n);
    }
  }

  // ----- Runs -----

  function KeysOf(op: Op): set<Key> {
    match op
    case SetAnchor(k, _) => {k}
    case SetAnchors(ks, _) => ToSet(ks)
    case SetAnchorNote(k, _) => {k}
    case RemoveAnchor(k) => {k}
    case RemoveAnchors(ks) => ToSet(ks)
    case ClearAll => {}
    case Replace(es) => LastEntry(es).Keys
  }

  /** Every key that the operation names has its locator in `locators`. */
  predicate Over(op: Op, locators: iset<Bytes>) {
    forall k :: k in KeysOf(op) ==> k.locator in locators
  }

  lemma ApplyKeys(m: AnchorMap, op: Op)
    ensures Apply(m, op).Keys <= m.Keys + KeysOf(op)
  {
  }

  /** A key that is announced was named by the operation. */
  lemma DifferNamed(m: AnchorMap, op: Op, k: Key)
    requires Differ(m, Apply(m, op)) == {k} && !op.ClearAll? && !op.Replace?
    ensures k in KeysOf(op)
  {
    assert k in Differ(m, Apply(m, op));
  }

  lemma KeepsNotes(m: AnchorMap, op: Op, k: Key)
    requires op.SetAnchor? || op.SetAnchors? || op.RemoveAnchor? || op.RemoveAnchors?
    requires k in m && k in Apply(m, op)
    ensures m[k].note == Apply(m, op)[k].note
  {
  }

  /** Every mutation of the store, delivered with its signal, keeps the mirror. */
  lemma DeliveryMirrors(v: View, m: AnchorMap, op: Op, s: Signal)
    requires Faithful(m) && Mirrors(v, m) && SignalFits(m, op, s)
    requires forall k :: k in KeysOf(op) ==> Valid(k.locator)
    ensures Faithful(Apply(m, op))
    ensures Mirrors(Delivered(v, Apply(m, op), s), Apply(m, op))
  {
    hide Valid, Sanitise, Mirrors, Painted, AfterAnchorChanged, AfterAnchorNoteChanged, Rebuilt, Load, ToSet, Differ;
    var n := Apply(m, op);
    ApplyKeys(m, op);
    match s
    case Silent =>
      DifferEmpty(m, n);
    case AnchorsReset =>
      RebuiltMirrors(v, n);
    case AnchorNoteChanged(k) =>
      AnchorNoteChangedMirrors(v, m, k, Sanitise(op.note));
    case AnchorChanged(k) =>
      DifferNamed(m, op, k);
      if k in m && k in n {
        KeepsNotes(m, op, k);
      }
      AnchorChangedMirrors(v, m, n, k);
  }

  datatype Event = Mutate(op: Op) | Hide | Show

  /** The store and the dock that listens to it. */
  datatype Pair = Pair(view: View, anchors: AnchorMap, visible: bool)

  ghost function Signalled(m: AnchorMap, op: Op): (s: Signal)
    ensures SignalFits(m, op, s)
  {
    SignalExists(m, op);
    var s :| SignalFits(m, op, s);
    s
  }

  lemma AnnouncementExists(d: set<Key>) returns (s: Signal)
    ensures Announces(s, d)
  {
    if d == {} {
      return Silent;
    }
    var k :| k in d;
    if |d| == 1 {
      assert |d - {k}| == 0 && d == {k};
      return AnchorChanged(k);
    }
    return AnchorsReset;
  }

  lemma SignalExists(m: AnchorMap, op: Op)
    ensures exists s :: SignalFits(m, op, s)
  {
    var n := Apply(m, op);
    var s := AnnouncementExists(Differ(m, n));
    var t := if n == m then Silent
             else if op.SetAnchorNote? then AnchorNoteChanged(op.key)
             else AnchorsReset;
    assert SignalFits(m, op, if op.SetAnchorNote? || op.ClearAll? || op.Replace? then t else s);
  }

  /** A mutation can be announced in one way only. */
  lemma SignalUnique(m: AnchorMap, op: Op, s: Signal, t: Signal)
    requires SignalFits(m, op, s) && SignalFits(m, op, t)
    ensures s == t
  {
    var d := Differ(m, Apply(m, op));
    if s.AnchorChanged? && t.AnchorChanged? {
      assert s.key in d && t.key in d;
    }
  }

  /** A hidden dock ignores signals; becoming visible rebuilds it. */
  ghost function Step(p: Pair, e: Event): Pair {
    match e
    case Mutate(op) =>
      var n := Apply(p.anchors, op);
      Pair(if p.visible then Delivered(p.view, n, Signalled(p.anchors, op)) else p.view, n, p.visible)
    case Hide => p.(visible := false)
    case Show => Pair(Rebuilt(p.view, p.anchors), p.anchors, true)
  }

  ghost function RunPair(events: seq<Event>): Pair {
    if events == [] then Pair(View([], false), map[], false)
    else Step(RunPair(events[..|events| - 1]), events[|events| - 1])
  }

  predicate AllOver(events: seq<Event>, locators: iset<Bytes>) {
    forall i :: 0 <= i < |events| && events[i].Mutate? ==> Over(events[i].op, locators)
  }

  ghost predicate InSync(p: Pair) { p.visible ==> Mirrors(p.view, p.anchors) }

  /** Over locators that survive `QString`, a visible dock shows what a rebuild would, after every
      run of mutations, hides and shows. */
  lemma {:induction false} RunInSync(events: seq<Event>, locators: iset<Bytes>)
    requires AllOver(events, locators) && forall l :: l in locators ==> Valid(l)
    ensures Faithful(RunPair(events).anchors) && InSync(RunPair(events))
  {
    if events != [] {
      var init, e := events[..|events| - 1], events[|events| - 1];
      RunInSync(init, locators);
      var p := RunPair(init);
      match e
      case Hide =>
      case Show => RebuiltMirrors(p.view, p.anchors);
      case Mutate(op) =>
        assert Over(op, locators);
        ApplyKeys(p.anchors, op);
        if p.visible {
          DeliveryMirrors(p.view, p.anchors, op, Signalled(p.anchors, op));
        }
    }
  }

  /** Two anchors of one file, the later line first or last. */
  function TwoAnchors(l: Bytes, first: LineId, second: LineId): seq<Event> {
    [Show, Mutate(SetAnchor(Key(l, first), 0)), Mutate(SetAnchor(Key(l, second), 0))]
  }

  lemma AddsOne(m: AnchorMap, k: Key)
    requires k !in m
    ensures Apply(m, SetAnchor(k, 0)) == m[k := Value(0, [])]
    ensures Signalled(m, SetAnchor(k, 0)) == AnchorChanged(k)
  {
    SetAnchorOutcome(m, k, 0);
    assert Apply(m, SetAnchor(k, 0)) == m[k := Value(0, [])];
    SignalUnique(m, SetAnchor(k, 0), Signalled(m, SetAnchor(k, 0)), AnchorChanged(k));
  }

  lemma TwoAnchorsRows(l: Bytes, first: LineId, second: LineId)
    requires l != [] && first != second
    ensures var p := RunPair(TwoAnchors(l, first, second));
            && p.visible
            && p.anchors == map[Key(l, first) := Value(0, []), Key(l, second) := Value(0, [])]
            && |p.view.rows| == 2
            && p.view.rows[0].lineId ==
               (if KeyLess(Key(l, second), Key(Encode(Decode(l)), first)) then second else first)
  {
    var events := TwoAnchors(l, first, second);
    var a, b := Key(l, first), Key(l, second);
    assert events[..2][..1] == [Show] && [Show][..0] == [];
    var p0 := RunPair([Show]);
    assert |Listing(Persistent(map[]))| == 0 by { ListsEmpty(Listing(Persistent(map[])), Persistent(map[])); }
    assert p0 == Pair(View([], false), map[], true);
    AddsOne(map[], a);
    var p1 := RunPair(events[..2]);
    assert p1 == Step(p0, events[1]);
    assert p1.view.rows == [NewRow(EntryOf(a, Value(0, [])))];
    AddsOne(p1.anchors, b);
    assert RunPair(events) == Step(p1, events[2]);
  }

  /** The listing has the lower line first. */
  lemma LowerLineFirst(es: seq<Entry>, m: AnchorMap, l: Bytes)
    requires Lists(es, m) && m.Keys == {Key(l, 1), Key(l, 2)}
    ensures es != [] && es[0].lineId == 1
  {
    var low := EntryOf(Key(l, 1), m[Key(l, 1)]);
    var i :| 0 <= i < |es| && es[i] == low;
    assert es[0] in es && KeyOf(es[0]) in m;
    if i > 0 {
      assert KeyLess(KeyOf(es[0]), KeyOf(low));
    }
  }

  lemma WrongOrder(p: Pair, l: Bytes)
    requires l != [] && p.visible && |p.view.rows| == 2 && p.view.rows[0].lineId == 2
    requires p.anchors.Keys == {Key(l, 1), Key(l, 2)}
    ensures !InSync(p)
  {
    var kept := Persistent(p.anchors);
    assert kept.Keys == p.anchors.Keys;
    LowerLineFirst(Listing(kept), kept, l);
    assert Fresh(p.anchors)[0].lineId == 1;
    assert Unselected(p.view.rows[0]).lineId == 2;
  }

  lemma TwoAnchorsOver(l: Bytes, first: LineId, second: LineId)
    ensures AllOver(TwoAnchors(l, first, second), iset{l})
  {
  }

  /** Set in this order, the higher line ends up on top. */
  lemma TwoAnchorsBreak(l: Bytes, first: LineId, second: LineId)
    requires l != [] && ((first == 1 && second == 2) || (first == 2 && second == 1))
    requires second == 2 <==> KeyLess(Key(l, second), Key(Encode(Decode(l)), first))
    ensures !InSync(RunPair(TwoAnchors(l, first, second)))
  {
    TwoAnchorsRows(l, first, second);
    WrongOrder(RunPair(TwoAnchors(l, first, second)), l);
  }

  /** A locator that does not survive comes back changed from the row and sorts against
      itself: whichever way it changes, two anchors of that file end up in the wrong order
      when they are set in one of the two orders. */
  lemma InvalidLocatorBreaks(l: Bytes)
    requires !Valid(l)
    ensures exists events :: AllOver(events, iset{l}) && !InSync(RunPair(events))
  {
    var back := Encode(Decode(l));
    BytesLessTrichotomy(l, back);
    if BytesLess(l, back) {
      TwoAnchorsOver(l, 1, 2);
      TwoAnchorsBreak(l, 1, 2);
    } else {
      TwoAnchorsOver(l, 2, 1);
      TwoAnchorsBreak(l, 2, 1);
    }
  }

  /** The dock stays in sync over every run exactly when every locator is UTF-8 and does not
      start with a byte order mark. */
  lemma InSyncIffUtf8(locators: iset<Bytes>)
    ensures (forall events :: AllOver(events, locators) ==> InSync(RunPair(events))) <==>
            (forall l :: l in locators ==> WellFormed(l) && !(BOM_BYTES <= l))
  {
    forall l ensures Valid(l) <==> WellFormed(l) && !(BOM_BYTES <= l) {
      ValidIff(l);
    }
    if l :| l in locators && !Valid(l) {
      InvalidLocatorBreaks(l);
      var events :| AllOver(events, iset{l}) && !InSync(RunPair(events));
      assert AllOver(events, locators);
    } else {
      forall events | AllOver(events, locators) ensures InSync(RunPair(events)) {
        RunInSync(events, locators);
      }
    }
  }

  // ----- The selection -----

  type RowId = (Text, LineId)

  predicate IsShown(rows: seq<Row>, id: RowId) {
    exists i :: 0 <= i < |rows| && SameKey(rows[i], id.0, id.1)
  }

  /** After a rebuild a key is selected exactly when it was selected and survives. */
  lemma RebuildKeepsSelection(v: View, m: AnchorMap, id: RowId)
    ensures WasSelected(Rebuilt(v, m).rows, id.0, id.1) <==>
            WasSelected(v.rows, id.0, id.1) && IsShown(Fresh(m), id)
  {
    var rows := Rebuilt(v, m).rows;
    if WasSelected(rows, id.0, id.1) {
      var i :| 0 <= i < |rows| && rows[i].selected && SameKey(rows[i], id.0, id.1);
      assert SameKey(Fresh(m)[i], id.0, id.1);
    }
    if WasSelected(v.rows, id.0, id.1) && IsShown(Fresh(m), id) {
      var i :| 0 <= i < |Fresh(m)| && SameKey(Fresh(m)[i], id.0, id.1);
      assert rows[i].selected && SameKey(rows[i], id.0, id.1);
    }
  }

  lemma RowIdsDistinct(rows: seq<Row>, i: nat, j: nat)
    requires RowsAscend(rows) && i < |rows| && j < |rows| && i != j
    ensures !SameKey(rows[i], rows[j].locator, rows[j].lineId)
  {
    RowKeysDistinct(rows, i, j);
  }

  /** The ids of the selected rows are the selected ids among the rows. */
  predicate SelectionKept(was: seq<Row>, now: seq<Row>, id: RowId) {
    WasSelected(now, id.0, id.1) <==> WasSelected(was, id.0, id.1) && IsShown(now, id)
  }

  lemma RemovalSelects(rows: seq<Row>, at: nat, id: RowId)
    requires at < |rows|
    ensures WasSelected(RemoveAt(rows, at), id.0, id.1) ==>
              WasSelected(rows, id.0, id.1) && IsShown(RemoveAt(rows, at), id)
  {
    var now := RemoveAt(rows, at);
    if WasSelected(now, id.0, id.1) {
      var j :| 0 <= j < |now| && now[j].selected && SameKey(now[j], id.0, id.1);
      assert rows[if j < at then j else j + 1] == now[j];
    }
  }

  lemma RemovalKeepsSelection(rows: seq<Row>, at: nat, id: RowId)
    requires RowsAscend(rows) && at < |rows|
    ensures SelectionKept(rows, RemoveAt(rows, at), id)
  {
    hide RowsAscend;
    var now := RemoveAt(rows, at);
    RemovalSelects(rows, at, id);
    if WasSelected(rows, id.0, id.1) && IsShown(now, id) {
      var i :| 0 <= i < |rows| && rows[i].selected && SameKey(rows[i], id.0, id.1);
      var j :| 0 <= j < |now| && SameKey(now[j], id.0, id.1);
      var j' := if j < at then j else j + 1;
      assert now[j] == rows[j'];
      if i != j' {
        RowIdsDistinct(rows, i, j');
      }
    }
  }

  lemma UpdateKeepsSelection(rows: seq<Row>, at: nat, r: Row, id: RowId)
    requires at < |rows| && SameKey(r, rows[at].locator, rows[at].lineId) && r.selected == rows[at].selected
    ensures SelectionKept(rows, rows[at := r], id)
  {
    var now := rows[at := r];
    if WasSelected(rows, id.0, id.1) {
      var i :| 0 <= i < |rows| && rows[i].selected && SameKey(rows[i], id.0, id.1);
      assert now[i].selected && SameKey(now[i], id.0, id.1);
    }
    if WasSelected(now, id.0, id.1) {
      var i :| 0 <= i < |now| && now[i].selected && SameKey(now[i], id.0, id.1);
      assert rows[i].selected && SameKey(rows[i], id.0, id.1);
    }
  }

  lemma InsertionKeepsSelection(rows: seq<Row>, pos: nat, r: Row, id: RowId)
    requires pos <= |rows| && !r.selected && !IsShown(rows, (r.locator, r.lineId))
    ensures SelectionKept(rows, InsertAt(rows, pos, r), id)
  {
    var now := InsertAt(rows, pos, r);
    if WasSelected(rows, id.0, id.1) {
      var i :| 0 <= i < |rows| && rows[i].selected && SameKey(rows[i], id.0, id.1);
      assert now[if i < pos then i else i + 1] == rows[i];
    }
    if WasSelected(now, id.0, id.1) {
      var j :| 0 <= j < |now| && now[j].selected && SameKey(now[j], id.0, id.1);
      assert j != pos;
      assert rows[if j < pos then j else j - 1] == now[j];
    }
  }

  /** Behind a delete, recolour or insert a row is selected exactly when one with its key was. */
  lemma AnchorChangedKeepsSelection(v: View, m: AnchorMap, k: Key, id: RowId)
    requires RowsAscend(v.rows)
    ensures SelectionKept(v.rows, AfterAnchorChanged(v, m, k).rows, id)
  {
    hide RowsAscend, InsertPos, Decode;
    var at := Find(v.rows, Decode(k.locator), k.lineId);
    if k !in m && at >= 0 {
      RemovalKeepsSelection(v.rows, at, id);
    } else if k !in m || k.locator == [] {
      SelectedIsShown(v.rows, id);
    } else if at >= 0 {
      UpdateKeepsSelection(v.rows, at, Repopulated(v.rows[at], EntryOf(k, m[k])), id);
    } else {
      InsertionKeepsSelection(v.rows, InsertPos(v.rows, k), NewRow(EntryOf(k, m[k])), id);
    }
  }

  lemma SelectedIsShown(rows: seq<Row>, id: RowId)
    ensures SelectionKept(rows, rows, id)
  {
    if WasSelected(rows, id.0, id.1) {
      var i :| 0 <= i < |rows| && rows[i].selected && SameKey(rows[i], id.0, id.1);
      assert SameKey(rows[i], id.0, id.1);
    }
  }

  /** A rebuild, too, said of the rows that it leaves. */
  lemma RebuiltKeepsSelection(v: View, m: AnchorMap, id: RowId)
    ensures SelectionKept(v.rows, Rebuilt(v, m).rows, id)
  {
    RebuildKeepsSelection(v, m, id);
    var rows := Rebuilt(v, m).rows;
    if IsShown(rows, id) {
      var i :| 0 <= i < |rows| && SameKey(rows[i], id.0, id.1);
      assert SameKey(Fresh(m)[i], id.0, id.1);
    }
    SelectedIsShown(rows, id);
  }

  lemma NoteChangedKeepsSelection(v: View, m: AnchorMap, k: Key, id: RowId)
    ensures SelectionKept(v.rows, AfterAnchorNoteChanged(v, m, k).rows, id)
  {
    hide Decode, Rebuilt;
    var at := Find(v.rows, Decode(k.locator), k.lineId);
    if at < 0 || k !in m {
      RebuiltKeepsSelection(v, m, id);
    } else {
      UpdateKeepsSelection(v.rows, at, Renoted(v.rows[at], EntryOf(k, m[k])), id);
    }
  }

  lemma InSyncAscends(p: Pair)
    requires Faithful(p.anchors) && InSync(p) && p.visible
    ensures RowsAscend(p.view.rows)
  {
    MirrorsIffShows(p.view, p.anchors);
  }

  /** One event of a run keeps the selection of what it leaves. */
  lemma StepKeepsSelection(p: Pair, e: Event, id: RowId)
    requires Faithful(p.anchors) && InSync(p)
    ensures SelectionKept(p.view.rows, Step(p, e).view.rows, id)
  {
    hide AfterAnchorChanged, AfterAnchorNoteChanged, Rebuilt, SelectionKept, Mirrors, RowsAscend, Apply;
    SelectedIsShown(p.view.rows, id);
    if e.Show? {
      RebuiltKeepsSelection(p.view, p.anchors, id);
    } else if e.Mutate? && p.visible {
      InSyncAscends(p);
      var n := Apply(p.anchors, e.op);
      match Signalled(p.anchors, e.op)
      case Silent =>
      case AnchorChanged(k) => AnchorChangedKeepsSelection(p.view, n, k, id);
      case AnchorNoteChanged(k) => NoteChangedKeepsSelection(p.view, n, k, id);
      case AnchorsReset => RebuiltKeepsSelection(p.view, n, id);
    }
  }

  /** A run that goes on from any state of the dock, whatever the user has selected there. */
  ghost function Continued(p: Pair, events: seq<Event>): Pair {
    if events == [] then p else Step(Continued(p, events[..|events| - 1]), events[|events| - 1])
  }

  /** The row with this id is there behind every event. */
  ghost predicate ShownThroughout(p: Pair, events: seq<Event>, id: RowId) {
    forall n :: 0 < n <= |events| ==> IsShown(Continued(p, events[..n]).view.rows, id)
  }

  lemma ShownThroughoutTurn(p: Pair, events: seq<Event>, id: RowId)
    requires events != []
    ensures ShownThroughout(p, events, id) <==>
            ShownThroughout(p, events[..|events| - 1], id) && IsShown(Continued(p, events).view.rows, id)
  {
    hide Step, IsShown, Continued;
    var init := events[..|events| - 1];
    forall n | 0 < n < |events| ensures events[..n] == init[..n] {
    }
    assert events[..|events|] == events;
  }

  lemma StepInSync(p: Pair, e: Event, locators: iset<Bytes>)
    requires Faithful(p.anchors) && InSync(p)
    requires (e.Mutate? ==> Over(e.op, locators)) && forall l :: l in locators ==> Valid(l)
    ensures Faithful(Step(p, e).anchors) && InSync(Step(p, e))
  {
    hide Mirrors, Delivered, Rebuilt, Valid, Apply;
    match e
    case Hide =>
    case Show => RebuiltMirrors(p.view, p.anchors);
    case Mutate(op) =>
      ApplyKeys(p.anchors, op);
      if p.visible {
        DeliveryMirrors(p.view, p.anchors, op, Signalled(p.anchors, op));
      }
  }

  /** Over every run of mutations, hides and shows from there, the dock stays in sync, and an
      id is selected at the end exactly when it was at the start and its row never went. */
  lemma {:induction false} RunKeepsSelection(p: Pair, events: seq<Event>, locators: iset<Bytes>, id: RowId)
    requires Faithful(p.anchors) && InSync(p)
    requires AllOver(events, locators) && forall l :: l in locators ==> Valid(l)
    ensures var n := Continued(p, events);
            && Faithful(n.anchors) && InSync(n)
            && (WasSelected(n.view.rows, id.0, id.1) <==>
                WasSelected(p.view.rows, id.0, id.1) && ShownThroughout(p, events, id))
    decreases |events|
  {
    if events != [] {
      hide InSync, Faithful, Step, IsShown, WasSelected, Over, Valid, ShownThroughout;
      var k := |events| - 1;
      var init, e := events[..k], events[k];
      assert AllOver(init, locators) && (e.Mutate? ==> Over(e.op, locators));
      RunKeepsSelection(p, init, locators, id);
      StepInSync(Continued(p, init), e, locators);
      StepKeepsSelection(Continued(p, init), e, id);
      ShownThroughoutTurn(p, events, id);
    }
  }

  /** What a mirror shows: the anchors with a locator, in the order of the listing, each with
      its own values in the cells and in the tooltip. */
  lemma MirrorShowsAnchors(v: View, m: AnchorMap, i: nat)
    requires Mirrors(v, m) && i < |v.rows|
    ensures |v.rows| == |Persistent(m)| && v.clearEnabled == (m != map[])
    ensures var e, r := Listing(Persistent(m))[i], v.rows[i]; var k := Key(e.locator, e.lineId);
            && k in m && k.locator != []
            && r.locator == Decode(k.locator) && r.lineId == k.lineId
            && r.color == m[k].color && r.note == Decode(m[k].note)
            && r.tip == Tip(m[k].color, k.lineId, k.locator, Decode(m[k].note))
  {
    ListedAll(Persistent(m), Key([], 0));
    ListedIs(Persistent(m), i);
    assert Unselected(v.rows[i]) == Fresh(m)[i];
  }
}
