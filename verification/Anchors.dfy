/** The anchor store: `AnchorManager`.

  The first half says what each operation does to the map and which signal it emits; the
  class in the second half is the program's loops, proved against it.  Signals are
  returned by the mutators, for the caller to deliver to the listeners. */
module Anchors {
  import opened Utf8
  import opened Notes

  /** `loglib::ANCHOR_PALETTE_SIZE`. */
  const PALETTE_SIZE: nat := 8

  type Color = c: int | 0 <= c < 0x100
  type LineId = n: int | 0 <= n < 0x1_0000_0000_0000_0000

  datatype Key = Key(locator: Bytes, lineId: LineId)
  datatype Value = Value(color: Color, note: Bytes)
  datatype Entry = Entry(locator: Bytes, lineId: LineId, color: Color, note: Bytes)
  type AnchorMap = map<Key, Value>

  datatype Signal = Silent | AnchorChanged(key: Key) | AnchorNoteChanged(key: Key) | AnchorsReset

  function KeyOf(e: Entry): Key { Key(e.locator, e.lineId) }

  function EntryOf(k: Key, v: Value): Entry { Entry(k.locator, k.lineId, v.color, v.note) }

  function Clamp(c: Color): Color { if c < PALETTE_SIZE then c else PALETTE_SIZE - 1 }

  // ----- What the operations do -----

  function ToSet(keys: seq<Key>): set<Key> {
    if keys == [] then {} else ToSet(keys[..|keys| - 1]) + {keys[|keys| - 1]}
  }

  lemma {:induction false} ToSetMembers(keys: seq<Key>, k: Key)
    ensures k in ToSet(keys) <==> k in keys
  {
    if keys != [] {
      ToSetMembers(keys[..|keys| - 1], k);
      assert keys == keys[..|keys| - 1] + [keys[|keys| - 1]];
    }
  }

  function NoteAt(m: AnchorMap, k: Key): Bytes { if k in m then m[k].note else [] }

  /** Every key of `ks` carries the colour and keeps its note; the rest is untouched. */
  function Painted(m: AnchorMap, ks: set<Key>, c: Color): AnchorMap {
    map k | k in m.Keys + ks :: if k in ks then Value(Clamp(c), NoteAt(m, k)) else m[k]
  }

  function Removed(m: AnchorMap, ks: set<Key>): AnchorMap { m - ks }

  function WithNote(m: AnchorMap, k: Key, note: Bytes): AnchorMap {
    if k in m then m[k := m[k].(note := note)] else m
  }

  function Noted(m: AnchorMap, k: Key, note: Bytes): AnchorMap { WithNote(m, k, Sanitise(note)) }

  /** The last entry of each key. */
  function LastEntry(es: seq<Entry>): map<Key, Entry> {
    if es == [] then map[] else LastEntry(es[..|es| - 1])[KeyOf(es[|es| - 1]) := es[|es| - 1]]
  }

  function Mapped<E, V>(m: map<Key, E>, f: E -> V): map<Key, V> {
    map k | k in m :: f(m[k])
  }

  lemma MappedUpdate<E, V>(m: map<Key, E>, f: E -> V, k: Key, e: E)
    ensures Mapped(m[k := e], f) == Mapped(m, f)[k := f(e)]
  {
  }

  function Loaded(e: Entry): Value { Value(Clamp(e.color), Sanitise(e.note)) }

  predicate OffPalette(e: Entry) { e.color >= PALETTE_SIZE }

  function Load(es: seq<Entry>): AnchorMap { Mapped(LastEntry(es), Loaded) }

  /** The keys whose last entry names a palette slot that does not exist. */
  function ClampedKeys(es: seq<Entry>): set<Key> {
    var last := LastEntry(es);
    set k | k in last && OffPalette(last[k])
  }

  /** The bookkeeping of `Replace`: was the last entry of the key clamped? */
  function ClampMap(es: seq<Entry>): map<Key, bool> { Mapped(LastEntry(es), OffPalette) }

  lemma ClampMapCounts(es: seq<Entry>)
    ensures (set k | k in ClampMap(es) && ClampMap(es)[k]) == ClampedKeys(es)
  {
  }

  lemma LoadTurn(es: seq<Entry>, i: nat)
    requires i < |es|
    ensures Load(es[..i + 1]) == Load(es[..i])[KeyOf(es[i]) := Loaded(es[i])]
    ensures ClampMap(es[..i + 1]) == ClampMap(es[..i])[KeyOf(es[i]) := OffPalette(es[i])]
  {
    assert es[..i + 1][..i] == es[..i];
    MappedUpdate(LastEntry(es[..i]), Loaded, KeyOf(es[i]), es[i]);
    MappedUpdate(LastEntry(es[..i]), OffPalette, KeyOf(es[i]), es[i]);
  }

  /** The keys at which two maps differ. */
  function Differ(m: AnchorMap, n: AnchorMap): set<Key> {
    set k | k in m.Keys + n.Keys && !(k in m && k in n && m[k] == n[k])
  }

  /** One key is announced by name, several by a reset, none not at all. */
  ghost predicate Announces(s: Signal, d: set<Key>) {
    match s
    case Silent => d == {}
    case AnchorChanged(k) => d == {k}
    case AnchorsReset => |d| >= 2
    case AnchorNoteChanged(_) => false
  }

  lemma DifferEmpty(m: AnchorMap, n: AnchorMap)
    ensures Differ(m, n) == {} <==> m == n
  {
    if Differ(m, n) == {} {
      assert forall k :: k in m.Keys + n.Keys ==> k !in Differ(m, n);
    }
  }

  lemma DifferGrows(m: AnchorMap, n: AnchorMap, n': AnchorMap, k: Key)
    requires k !in Differ(m, n) && k in Differ(m, n')
    requires n - {k} == n' - {k}
    ensures Differ(m, n') == Differ(m, n) + {k}
  {
    forall x | x != k ensures x in Differ(m, n) <==> x in Differ(m, n') {
      assert x in n - {k} <==> x in n' - {k};
      assert x in n - {k} ==> (n - {k})[x] == (n' - {k})[x];
    }
  }

  function PaintOne(m: AnchorMap, k: Key, c: Color): AnchorMap {
    m[k := Value(Clamp(c), NoteAt(m, k))]
  }

  lemma PaintedAdd(before: AnchorMap, ks: set<Key>, k: Key, c: Color)
    ensures PaintOne(Painted(before, ks, c), k, c) == Painted(before, ks + {k}, c)
  {
  }

  predicate Paints(m: AnchorMap, k: Key, c: Color) { k !in m || m[k].color != Clamp(c) }

  lemma PaintOneDiffers(before: AnchorMap, m: AnchorMap, k: Key, c: Color)
    requires Paints(m, k, c) && k !in Differ(before, m)
    ensures Differ(before, PaintOne(m, k, c)) == Differ(before, m) + {k}
  {
    DifferGrows(before, m, PaintOne(m, k, c), k);
  }

  /** The state of a bulk loop: the map, the number of turns that changed it, and the key
      of the last such turn. */
  datatype Bulk = Bulk(anchors: AnchorMap, count: nat, last: Key)

  /** Setting the keys of a span one after the other. */
  function PaintEach(m: AnchorMap, keys: seq<Key>, c: Color): Bulk {
    if keys == [] then Bulk(m, 0, Key([], 0)) else
      var b, k := PaintEach(m, keys[..|keys| - 1], c), keys[|keys| - 1];
      if Paints(b.anchors, k, c) then Changed(b, PaintOne(b.anchors, k, c), k) else b
  }

  /** Removing the keys of a span one after the other. */
  function EraseEach(m: AnchorMap, keys: seq<Key>): Bulk {
    if keys == [] then Bulk(m, 0, Key([], 0)) else
      var b, k := EraseEach(m, keys[..|keys| - 1]), keys[|keys| - 1];
      if k in b.anchors then Changed(b, b.anchors - {k}, k) else b
  }

  /** The counter is the number of distinct keys that changed. */
  predicate Counts(before: AnchorMap, b: Bulk) {
    b.count == |Differ(before, b.anchors)| && (b.count > 0 ==> b.last in Differ(before, b.anchors))
  }

  /** A turn of either loop. */
  function Changed(b: Bulk, n: AnchorMap, k: Key): Bulk { Bulk(n, b.count + 1, k) }

  lemma CountsTurn(before: AnchorMap, b: Bulk, n: AnchorMap, k: Key)
    requires Counts(before, b) && k !in Differ(before, b.anchors)
    requires Differ(before, n) == Differ(before, b.anchors) + {k}
    ensures Counts(before, Changed(b, n, k))
  {
  }

  lemma PaintTurn(m: AnchorMap, keys: seq<Key>, i: nat, c: Color)
    requires i < |keys|
    ensures var b, k := PaintEach(m, keys[..i], c), keys[i];
            PaintEach(m, keys[..i + 1], c) ==
            if Paints(b.anchors, k, c) then Changed(b, PaintOne(b.anchors, k, c), k) else b
  {
    assert keys[..i + 1][..i] == keys[..i];
  }

  lemma EraseTurn(m: AnchorMap, keys: seq<Key>, i: nat)
    requires i < |keys|
    ensures var b, k := EraseEach(m, keys[..i]), keys[i];
            EraseEach(m, keys[..i + 1]) == if k in b.anchors then Changed(b, b.anchors - {k}, k) else b
  {
    assert keys[..i + 1][..i] == keys[..i];
  }

  /** Setting keys one after the other paints their set, and counts a key exactly once
      however often the span names it. */
  lemma {:induction false} PaintEachCounts(m: AnchorMap, keys: seq<Key>, c: Color)
    ensures var b := PaintEach(m, keys, c);
            b.anchors == Painted(m, ToSet(keys), c) && Counts(m, b)
  {
    if keys == [] {
      NoTurns(m, c);
    } else {
      var init, k := keys[..|keys| - 1], keys[|keys| - 1];
      var b := PaintEach(m, init, c);
      PaintEachCounts(m, init, c);
      PaintedAdd(m, ToSet(init), k, c);
      if Paints(b.anchors, k, c) {
        PaintsFirst(m, ToSet(init), k, c);
        PaintOneDiffers(m, b.anchors, k, c);
        CountsTurn(m, b, PaintOne(b.anchors, k, c), k);
      } else {
        assert PaintOne(b.anchors, k, c) == b.anchors;
      }
    }
  }

  lemma PaintsFirst(before: AnchorMap, ks: set<Key>, k: Key, c: Color)
    requires Paints(Painted(before, ks, c), k, c)
    ensures k !in Differ(before, Painted(before, ks, c))
  {
    assert k !in ks;
  }

  lemma {:induction false} EraseEachCounts(m: AnchorMap, keys: seq<Key>)
    ensures var b := EraseEach(m, keys);
            b.anchors == Removed(m, ToSet(keys)) && Counts(m, b)
  {
    if keys == [] {
      NoTurns(m, 0);
    } else {
      var init, k := keys[..|keys| - 1], keys[|keys| - 1];
      EraseEachCounts(m, init);
      EraseOne(m, EraseEach(m, init), ToSet(init), k);
    }
  }

  lemma EraseOne(m: AnchorMap, b: Bulk, ks: set<Key>, k: Key)
    requires b.anchors == Removed(m, ks) && Counts(m, b)
    ensures b.anchors - {k} == Removed(m, ks + {k})
    ensures k in b.anchors ==> Counts(m, Changed(b, b.anchors - {k}, k))
    ensures k !in b.anchors ==> b.anchors - {k} == b.anchors
  {
    if k in b.anchors {
      DifferGrows(m, b.anchors, b.anchors - {k}, k);
      CountsTurn(m, b, b.anchors - {k}, k);
    }
  }

  /** Painting or removing nothing changes nothing. */
  lemma NoTurns(m: AnchorMap, c: Color)
    ensures Painted(m, ToSet([]), c) == m == Removed(m, ToSet([])) && Differ(m, m) == {} == ToSet([])
  {
  }

  /** The keys of `LastEntry` are the keys of the list ... */
  lemma {:induction false} LastEntryKeys(es: seq<Entry>, k: Key)
    ensures k in LastEntry(es) <==> exists i :: 0 <= i < |es| && KeyOf(es[i]) == k
  {
    if es != [] {
      var init := es[..|es| - 1];
      LastEntryKeys(init, k);
      assert forall i :: 0 <= i < |init| ==> init[i] == es[i];
      if k in LastEntry(init) {
        var i :| 0 <= i < |init| && KeyOf(init[i]) == k;
        assert KeyOf(es[i]) == k;
      }
      if i :| 0 <= i < |es| && KeyOf(es[i]) == k {
        assert i < |init| ==> KeyOf(init[i]) == k;
      }
    }
  }

  /** ... and each has the entry behind which the key does not occur again. */
  lemma {:induction false} LastEntryIsLast(es: seq<Entry>, i: nat)
    requires i < |es| && forall j :: i < j < |es| ==> KeyOf(es[j]) != KeyOf(es[i])
    ensures KeyOf(es[i]) in LastEntry(es) && LastEntry(es)[KeyOf(es[i])] == es[i]
  {
    if i < |es| - 1 {
      LastEntryIsLast(es[..|es| - 1], i);
    }
  }

  // ----- What that comes to, anchor by anchor -----

  /** Keys that are painted carry the colour, or the last palette slot for a colour off the
      palette, and keep their note; other anchors stay. */
  lemma PaintedIs(m: AnchorMap, ks: set<Key>, c: Color, k: Key)
    ensures var n := Painted(m, ks, c);
            && (k in n <==> k in ks || k in m)
            && (k in ks ==> n[k].color == (if c >= 8 then 7 else c) && n[k].note == (if k in m then m[k].note else []))
            && (k in m && k !in ks ==> n[k] == m[k])
  {
  }

  lemma RemovedIs(m: AnchorMap, ks: set<Key>, k: Key)
    ensures var n := Removed(m, ks);
            (k in n <==> k in m && k !in ks) && (k in n ==> n[k] == m[k])
  {
  }

  /** The note of one anchor changes, and no note makes an anchor. */
  lemma NotedIs(m: AnchorMap, key: Key, note: Bytes, k: Key)
    ensures var n := Noted(m, key, note);
            && n.Keys == m.Keys
            && (k in m ==> n[k].color == m[k].color && n[k].note == if k == key then Sanitise(note) else m[k].note)
  {
    hide Sanitise;
  }

  /** An entry behind which its key does not occur again decides the anchor, and the key counts
      as clamped exactly when that entry is off the palette. */
  lemma LoadedIs(es: seq<Entry>, i: nat)
    requires i < |es| && forall j :: i < j < |es| ==> KeyOf(es[j]) != KeyOf(es[i])
    ensures var k := Key(es[i].locator, es[i].lineId);
            && k in Load(es) && Load(es)[k].note == Sanitise(es[i].note)
            && Load(es)[k].color == (if es[i].color >= 8 then 7 else es[i].color)
            && (k in ClampedKeys(es) <==> es[i].color >= 8)
  {
    hide Sanitise;
    LastEntryIsLast(es, i);
  }

  lemma LoadedKeys(es: seq<Entry>, k: Key)
    ensures k in Load(es) <==> exists i :: 0 <= i < |es| && es[i].locator == k.locator && es[i].lineId == k.lineId
  {
    hide Sanitise;
    LastEntryKeys(es, k);
    if i :| 0 <= i < |es| && es[i].locator == k.locator && es[i].lineId == k.lineId {
      assert KeyOf(es[i]) == k;
    }
    if k in Load(es) {
      var i :| 0 <= i < |es| && KeyOf(es[i]) == k;
      assert es[i].locator == k.locator && es[i].lineId == k.lineId;
    }
  }

  // ----- Order: the listing that is saved -----

  /** `std::string::operator<`. */
  predicate BytesLess(a: Bytes, b: Bytes) {
    if b == [] then false
    else if a == [] then true
    else if a[0] != b[0] then a[0] < b[0]
    else BytesLess(a[1..], b[1..])
  }

  predicate KeyLess(a: Key, b: Key) {
    if a.locator != b.locator then BytesLess(a.locator, b.locator) else a.lineId < b.lineId
  }

  /** The strings differ first at `i`, where `a` ends or has the smaller byte. */
  predicate LessAt(a: Bytes, b: Bytes, i: nat) {
    i <= |a| && i < |b| && a[..i] == b[..i] && (i == |a| || a[i] < b[i])
  }

  lemma {:induction false} BytesLessIs(a: Bytes, b: Bytes)
    ensures BytesLess(a, b) <==> exists i: nat :: LessAt(a, b, i)
  {
    if b != [] && a == [] {
      assert LessAt(a, b, 0);
    } else if b != [] {
      BytesLessIs(a[1..], b[1..]);
      forall i: nat | LessAt(a, b, i) ensures a[0] <= b[0] {
        FirstDecides(a, b, i);
      }
      if a[0] < b[0] {
        assert LessAt(a, b, 0);
      } else if a[0] == b[0] {
        if i: nat :| LessAt(a[1..], b[1..], i) {
          LessAtTail(a, b, i + 1);
          assert LessAt(a, b, i + 1);
        }
        if i: nat :| LessAt(a, b, i) {
          LessAtTail(a, b, i);
          assert LessAt(a[1..], b[1..], i - 1);
        }
      }
    }
  }

  lemma FirstDecides(a: Bytes, b: Bytes, i: nat)
    requires a != [] && LessAt(a, b, i)
    ensures a[0] <= b[0]
  {
    if i > 0 {
      assert a[..i][0] == b[..i][0];
    }
  }

  lemma LessAtTail(a: Bytes, b: Bytes, i: nat)
    requires a != [] && b != [] && a[0] == b[0]
    ensures i > 0 ==> (LessAt(a, b, i) <==> LessAt(a[1..], b[1..], i - 1))
    ensures !LessAt(a, b, 0)
  {
    if 0 < i <= |a| && i <= |b| {
      assert a[..i] == [a[0]] + a[1..][..i - 1] && b[..i] == [b[0]] + b[1..][..i - 1];
    }
  }

  lemma {:induction false} BytesLessTrichotomy(a: Bytes, b: Bytes)
    ensures a == b ==> !BytesLess(a, b)
    ensures a != b ==> (BytesLess(a, b) <==> !BytesLess(b, a))
  {
    if a != [] && b != [] {
      BytesLessTrichotomy(a[1..], b[1..]);
      if a[0] == b[0] {
        assert a == [a[0]] + a[1..] && b == [b[0]] + b[1..];
      }
    }
  }

  lemma {:induction false} BytesLessTransitive(a: Bytes, b: Bytes, c: Bytes)
    requires BytesLess(a, b) && BytesLess(b, c)
    ensures BytesLess(a, c)
  {
    if a != [] && a[0] == b[0] == c[0] {
      BytesLessTransitive(a[1..], b[1..], c[1..]);
    }
  }

  lemma KeyLessTrichotomy(a: Key, b: Key)
    ensures a == b ==> !KeyLess(a, b)
    ensures a != b ==> (KeyLess(a, b) <==> !KeyLess(b, a))
  {
    BytesLessTrichotomy(a.locator, b.locator);
  }

  lemma KeyLessTransitive(a: Key, b: Key, c: Key)
    requires KeyLess(a, b) && KeyLess(b, c)
    ensures KeyLess(a, c)
  {
    BytesLessTrichotomy(a.locator, b.locator);
    BytesLessTrichotomy(a.locator, c.locator);
    if a.locator != b.locator && b.locator != c.locator {
      BytesLessTransitive(a.locator, b.locator, c.locator);
    }
  }

  predicate Ascending(es: seq<Entry>) {
    forall i, j :: 0 <= i < j < |es| ==> KeyLess(KeyOf(es[i]), KeyOf(es[j]))
  }

  /** `es` lists exactly the anchors of `m`, strictly ascending by (locator, lineId). */
  predicate Lists(es: seq<Entry>, m: AnchorMap) {
    && Ascending(es)
    && (forall e :: e in es ==> KeyOf(e) in m && e == EntryOf(KeyOf(e), m[KeyOf(e)]))
    && (forall k :: k in m ==> EntryOf(k, m[k]) in es)
  }

  /** `es` holds exactly the anchors of `m`, once each, in any order. */
  predicate Collected(es: seq<Entry>, m: AnchorMap) {
    && (forall i, j :: 0 <= i < j < |es| ==> KeyOf(es[i]) != KeyOf(es[j]))
    && (forall e :: e in es ==> KeyOf(e) in m && e == EntryOf(KeyOf(e), m[KeyOf(e)]))
    && (forall k :: k in m ==> EntryOf(k, m[k]) in es)
  }

  lemma CollectedAdd(es: seq<Entry>, m: AnchorMap, k: Key, v: Value)
    requires Collected(es, m) && k !in m
    ensures Collected(es + [EntryOf(k, v)], m[k := v])
  {
    forall i | 0 <= i < |es| ensures KeyOf(es[i]) != k {
      assert es[i] in es;
    }
  }

  /** There is one such listing, so the order in which the hash map hands out its elements
      cannot show. */
  lemma {:induction false} ListingUnique(a: seq<Entry>, b: seq<Entry>, m: AnchorMap)
    requires Lists(a, m) && Lists(b, m)
    ensures a == b
  {
    ListsEmpty(a, m);
    ListsEmpty(b, m);
    if a != [] {
      var k, l := KeyOf(a[0]), KeyOf(b[0]);
      assert a[0] in a && b[0] in b;
      if k != l {
        var i :| 0 <= i < |a| && a[i] == EntryOf(l, m[l]);
        var j :| 0 <= j < |b| && b[j] == EntryOf(k, m[k]);
        KeyLessTrichotomy(k, l);
        assert false;
      }
      ListsTail(a, m);
      ListsTail(b, m);
      ListingUnique(a[1..], b[1..], m - {k});
      assert a == [a[0]] + a[1..] && b == [b[0]] + b[1..];
    }
  }

  lemma ListsEmpty(es: seq<Entry>, m: AnchorMap)
    requires Lists(es, m)
    ensures es == [] <==> m == map[]
  {
    if es != [] {
      assert es[0] in es;
    }
  }

  lemma ListsTail(es: seq<Entry>, m: AnchorMap)
    requires Lists(es, m) && es != []
    ensures Lists(es[1..], m - {KeyOf(es[0])})
  {
    var k := KeyOf(es[0]);
    forall e | e in es[1..] ensures KeyOf(e) != k && e in es {
      var i :| 0 <= i < |es[1..]| && es[1..][i] == e;
      assert es[i + 1] == e;
      KeyLessTrichotomy(k, k);
    }
    forall x | x in m - {k} ensures EntryOf(x, m[x]) in es[1..] {
      var i :| 0 <= i < |es| && es[i] == EntryOf(x, m[x]);
      assert es[1..][i - 1] == es[i];
    }
  }

  function InsertEntry(es: seq<Entry>, e: Entry): seq<Entry> {
    if es == [] || KeyLess(KeyOf(e), KeyOf(es[0])) then [e] + es
    else [es[0]] + InsertEntry(es[1..], e)
  }

  lemma {:induction false} InsertEntryMembers(es: seq<Entry>, e: Entry)
    ensures forall x :: x in InsertEntry(es, e) <==> x == e || x in es
  {
    if es != [] {
      InsertEntryMembers(es[1..], e);
      assert es == [es[0]] + es[1..];
    }
  }

  lemma {:induction false} InsertEntryAscending(es: seq<Entry>, e: Entry)
    requires Ascending(es)
    requires forall x :: x in es ==> KeyOf(x) != KeyOf(e)
    ensures Ascending(InsertEntry(es, e))
  {
    if es == [] {
    } else if KeyLess(KeyOf(e), KeyOf(es[0])) {
      forall j | 0 <= j < |es| ensures KeyLess(KeyOf(e), KeyOf(es[j])) {
        if j > 0 { KeyLessTransitive(KeyOf(e), KeyOf(es[0]), KeyOf(es[j])); }
      }
    } else {
      KeyLessTrichotomy(KeyOf(es[0]), KeyOf(e));
      assert es[0] in es;
      InsertEntryAscending(es[1..], e);
      InsertEntryMembers(es[1..], e);
      var tail := InsertEntry(es[1..], e);
      forall j | 0 <= j < |tail| ensures KeyLess(KeyOf(es[0]), KeyOf(tail[j])) {
        assert tail[j] in tail;
        if tail[j] in es[1..] {
          var i :| 0 <= i < |es[1..]| && es[1..][i] == tail[j];
          assert es[i + 1] == tail[j];
        }
      }
    }
  }

  ghost function Listing(m: AnchorMap): (es: seq<Entry>)
    ensures Lists(es, m)
  {
    ListingExists(m);
    var es :| Lists(es, m);
    es
  }

  lemma {:induction false} ListingExists(m: AnchorMap)
    ensures exists es :: Lists(es, m)
    decreases |m|
  {
    if m == map[] {
      assert Lists([], m);
    } else {
      var k :| k in m;
      var rest := m - {k};
      assert rest.Keys == m.Keys - {k};
      ListingExists(rest);
      var es :| Lists(es, rest);
      InsertEntryLists(es, rest, k, m[k]);
      assert m == rest[k := m[k]];
    }
  }

  lemma InsertEntryLists(es: seq<Entry>, m: AnchorMap, k: Key, v: Value)
    requires Lists(es, m) && k !in m
    ensures Lists(InsertEntry(es, EntryOf(k, v)), m[k := v])
  {
    InsertEntryMembers(es, EntryOf(k, v));
    InsertEntryAscending(es, EntryOf(k, v));
  }

  /** What `Entries()` keeps: anchors of in-memory streams have no locator. */
  function Persistent(m: AnchorMap): AnchorMap {
    map k | k in m && k.locator != [] :: m[k]
  }

  // ----- Runs -----

  datatype Op =
    | SetAnchor(key: Key, color: Color)
    | SetAnchors(keys: seq<Key>, color: Color)
    | SetAnchorNote(key: Key, note: Bytes)
    | RemoveAnchor(key: Key)
    | RemoveAnchors(keys: seq<Key>)
    | ClearAll
    | Replace(entries: seq<Entry>)

  function Apply(m: AnchorMap, op: Op): AnchorMap {
    match op
    case SetAnchor(k, c) => Painted(m, {k}, c)
    case SetAnchors(ks, c) => Painted(m, ToSet(ks), c)
    case SetAnchorNote(k, note) => Noted(m, k, note)
    case RemoveAnchor(k) => Removed(m, {k})
    case RemoveAnchors(ks) => Removed(m, ToSet(ks))
    case ClearAll => map[]
    case Replace(es) => Load(es)
  }

  /** The signal that goes with a change from `m` to `n`. */
  ghost predicate SignalFits(m: AnchorMap, op: Op, s: Signal) {
    var n := Apply(m, op);
    match op
    case SetAnchorNote(k, _) => s == if n == m then Silent else AnchorNoteChanged(k)
    case ClearAll => s == if n == m then Silent else AnchorsReset
    case Replace(_) => s == if n == m then Silent else AnchorsReset
    case _ => Announces(s, Differ(m, n))
  }

  function Run(ops: seq<Op>): AnchorMap {
    if ops == [] then map[] else Apply(Run(ops[..|ops| - 1]), ops[|ops| - 1])
  }

  /** What holds of every stored anchor. */
  predicate Stored(m: AnchorMap) {
    forall k :: k in m ==> m[k].color < PALETTE_SIZE && Clean(m[k].note)
  }

  lemma PaintedStored(m: AnchorMap, ks: set<Key>, c: Color)
    requires Stored(m)
    ensures Stored(Painted(m, ks, c))
  {
  }

  lemma LoadStored(es: seq<Entry>)
    ensures Stored(Load(es))
  {
    forall k | k in Load(es) ensures Clean(Load(es)[k].note) {
      SanitiseIsClean(LastEntry(es)[k].note);
    }
  }

  lemma ApplyKeepsStored(m: AnchorMap, op: Op)
    requires Stored(m)
    ensures Stored(Apply(m, op))
  {
    hide Sanitise, Clean, Load, Painted, ToSet;
    match op
    case SetAnchor(k, c) => PaintedStored(m, {k}, c);
    case SetAnchors(ks, c) => PaintedStored(m, ToSet(ks), c);
    case SetAnchorNote(k, note) => SanitiseIsClean(note);
    case Replace(es) => LoadStored(es);
    case _ =>
  }

  lemma SetAnchorOutcome(m: AnchorMap, k: Key, c: Color)
    ensures Painted(m, {k}, c) == PaintOne(m, k, c)
    ensures Announces(if Paints(m, k, c) then AnchorChanged(k) else Silent, Differ(m, PaintOne(m, k, c)))
  {
    NoTurns(m, c);
    PaintedAdd(m, {}, k, c);
    assert ToSet([]) + {k} == {k};
    if Paints(m, k, c) {
      PaintOneDiffers(m, m, k, c);
    } else {
      assert PaintOne(m, k, c) == m;
    }
  }

  lemma RemoveAnchorOutcome(m: AnchorMap, k: Key)
    ensures Announces(if k in m then AnchorChanged(k) else Silent, Differ(m, m - {k}))
  {
    NoTurns(m, 0);
    if k in m {
      DifferGrows(m, m, m - {k}, k);
    } else {
      assert m - {k} == m;
    }
  }

  lemma SetAnchorNoteOutcome(m: AnchorMap, k: Key, note: Bytes)
    requires Stored(m)
    ensures Stored(Noted(m, k, note))
    ensures Noted(m, k, note) == m <==> k !in m || m[k].note == Sanitise(note)
  {
    SanitiseIsClean(note);
    if k in m && m[k].note != Sanitise(note) {
      assert Noted(m, k, note)[k] != m[k];
    }
  }

  /** In every reachable state each colour names a palette slot and each note is a
      fixpoint of `Sanitise`. */
  lemma {:induction false} RunStored(ops: seq<Op>)
    ensures Stored(Run(ops))
    ensures forall k :: k in Run(ops) ==> Sanitise(Run(ops)[k].note) == Run(ops)[k].note
  {
    if ops != [] {
      RunStored(ops[..|ops| - 1]);
      ApplyKeepsStored(Run(ops[..|ops| - 1]), ops[|ops| - 1]);
    }
    var m := Run(ops);
    forall k | k in m ensures Sanitise(m[k].note) == m[k].note {
      FixpointIffClean(m[k].note);
    }
  }

  lemma LastEntryOfListing(es: seq<Entry>, m: AnchorMap)
    requires Lists(es, m)
    ensures LastEntry(es).Keys == m.Keys
    ensures forall k :: k in m ==> LastEntry(es)[k] == EntryOf(k, m[k])
  {
    var last := LastEntry(es);
    forall k | k in m ensures k in last && last[k] == EntryOf(k, m[k]) {
      var i :| 0 <= i < |es| && es[i] == EntryOf(k, m[k]);
      assert KeyOf(es[i]) == k;
      forall j | i < j < |es| ensures KeyOf(es[j]) != k { KeyLessTrichotomy(k, k); }
      LastEntryIsLast(es, i);
    }
    forall k | k in last ensures k in m {
      LastEntryKeys(es, k);
      var i :| 0 <= i < |es| && KeyOf(es[i]) == k;
      assert es[i] in es;
    }
  }

  lemma LoadedStored(k: Key, v: Value)
    requires v.color < PALETTE_SIZE && Clean(v.note)
    ensures Loaded(EntryOf(k, v)) == v
  {
    FixpointIffClean(v.note);
  }

  lemma MappedIs<E, V>(m: map<Key, E>, f: E -> V, n: map<Key, V>)
    requires m.Keys == n.Keys && forall k :: k in m ==> f(m[k]) == n[k]
    ensures Mapped(m, f) == n
  {
  }

  /** Loading a listing of a stored map gives the map back and clamps nothing. */
  lemma LoadListing(es: seq<Entry>, m: AnchorMap)
    requires Stored(m) && Lists(es, m)
    ensures Load(es) == m && ClampedKeys(es) == {}
  {
    var last := LastEntry(es);
    LastEntryOfListing(es, m);
    forall k | k in last ensures Loaded(last[k]) == m[k] {
      assert last[k] == EntryOf(k, m[k]);
      LoadedStored(k, m[k]);
    }
    MappedIs(last, Loaded, m);
  }

  lemma PersistentIs(m: AnchorMap, k: Key)
    ensures k in Persistent(m) <==> k in m && k.locator != []
    ensures k in Persistent(m) ==> Persistent(m)[k] == m[k]
  {
  }

  /** An entry of the listing is an anchor with its own values ... */
  lemma ListedIs(m: AnchorMap, i: nat)
    requires i < |Listing(m)|
    ensures var e := Listing(m)[i]; var k := Key(e.locator, e.lineId);
            k in m && e.color == m[k].color && e.note == m[k].note
  {
    assert Listing(m)[i] in Listing(m);
  }

  /** ... every anchor is there once ... */
  lemma ListedAll(m: AnchorMap, k: Key)
    ensures |Listing(m)| == |m|
    ensures k in m <==> exists i :: 0 <= i < |Listing(m)| && KeyOf(Listing(m)[i]) == k
  {
    var es := Listing(m);
    ListingSize(es, m);
    if k in m {
      var i :| 0 <= i < |es| && es[i] == EntryOf(k, m[k]);
      assert KeyOf(es[i]) == k;
    }
    if i :| 0 <= i < |es| && KeyOf(es[i]) == k {
      ListedIs(m, i);
    }
  }

  /** ... ordered by the bytes of the locator and then by line. */
  lemma ListedInOrder(m: AnchorMap, i: nat, j: nat)
    requires i < j < |Listing(m)|
    ensures var a, b := Listing(m)[i], Listing(m)[j];
            if a.locator == b.locator then a.lineId < b.lineId else exists x: nat :: LessAt(a.locator, b.locator, x)
  {
    var es := Listing(m);
    assert KeyLess(KeyOf(es[i]), KeyOf(es[j]));
    BytesLessIs(es[i].locator, es[j].locator);
  }

  lemma {:induction false} ListingSize(es: seq<Entry>, m: AnchorMap)
    requires Lists(es, m)
    ensures |es| == |m|
  {
    if es == [] {
      if k :| k in m {
        SomeListed(es, m, k);
        assert false;
      }
      assert m.Keys == {};
    } else {
      hide KeyLess, Lists;
      var k := KeyOf(es[0]);
      FirstIsListed(es, m);
      ListsTail(es, m);
      ListingSize(es[1..], m - {k});
      assert m.Keys == (m - {k}).Keys + {k};
    }
  }

  lemma SomeListed(es: seq<Entry>, m: AnchorMap, k: Key)
    requires Lists(es, m) && k in m
    ensures es != []
  {
    assert EntryOf(k, m[k]) in es;
  }

  lemma FirstIsListed(es: seq<Entry>, m: AnchorMap)
    requires Lists(es, m) && es != []
    ensures KeyOf(es[0]) in m
  {
    assert es[0] in es;
  }

  /** Saving and reloading, in every reachable state: with the runtime-only anchors the
      reload changes nothing, clamps nothing and stays silent; without them it leaves
      exactly the anchors that have a locator. */
  lemma SaveAndReload(ops: seq<Op>)
    ensures var m := Run(ops);
            && Apply(m, Replace(Listing(m))) == m && ClampedKeys(Listing(m)) == {}
            && SignalFits(m, Replace(Listing(m)), Silent)
            && Apply(m, Replace(Listing(Persistent(m)))) == Persistent(m)
            && ClampedKeys(Listing(Persistent(m))) == {}
  {
    RunStored(ops);
    var m := Run(ops);
    LoadListing(Listing(m), m);
    LoadListing(Listing(Persistent(m)), Persistent(m));
  }

  // ----- The class -----

  class AnchorManager {
    var anchors: AnchorMap

    ghost predicate Valid()
      reads this
    {
      Stored(anchors)
    }

    constructor ()
      ensures Valid() && anchors == map[]
    {
      anchors := map[];
    }

    method SetAnchor(key: Key, color: Color) returns (changed: bool, signal: Signal)
      requires Valid()
      modifies this
      ensures Valid() && anchors == Painted(old(anchors), {key}, color)
      ensures Announces(signal, Differ(old(anchors), anchors)) && changed == !signal.Silent?
    {
      SetAnchorOutcome(anchors, key, color);
      PaintedStored(anchors, {key}, color);
      var clamped: Color := if color < PALETTE_SIZE - 1 then color else PALETTE_SIZE - 1;
      if key in anchors {
        if anchors[key].color == clamped {
          return false, Silent;
        }
        anchors := anchors[key := anchors[key].(color := clamped)];
      } else {
        anchors := anchors[key := Value(clamped, [])];
      }
      return true, AnchorChanged(key);
    }

    method SetAnchors(keys: seq<Key>, color: Color) returns (changed: bool, signal: Signal)
      requires Valid()
      modifies this
      ensures Valid() && anchors == Painted(old(anchors), ToSet(keys), color)
      ensures Announces(signal, Differ(old(anchors), anchors)) && changed == !signal.Silent?
    {
      ghost var before := anchors;
      if keys == [] {
        NoTurns(anchors, color);
        return false, Silent;
      }
      var clamped: Color := if color < PALETTE_SIZE - 1 then color else PALETTE_SIZE - 1;
      var changeCount, lastChangedKey := 0, Key([], 0);
      var i := 0;
      while i < |keys|
        invariant 0 <= i <= |keys|
        invariant Bulk(anchors, changeCount, lastChangedKey) == PaintEach(before, keys[..i], color)
      {
        var key := keys[i];
        ghost var m := anchors;
        PaintTurn(before, keys, i, color);
        if key !in anchors {
          anchors := anchors[key := Value(clamped, [])];
          assert anchors == PaintOne(m, key, color);
          changeCount := changeCount + 1;
          lastChangedKey := key;
        } else if anchors[key].color != clamped {
          anchors := anchors[key := anchors[key].(color := clamped)];
          assert anchors == PaintOne(m, key, color);
          changeCount := changeCount + 1;
          lastChangedKey := key;
        }
        i := i + 1;
      }
      assert keys[..i] == keys;
      PaintEachCounts(before, keys, color);
      PaintedStored(before, ToSet(keys), color);
      changed, signal := Route(changeCount, lastChangedKey, Differ(before, anchors));
    }

    /** One change is announced by key, many by a reset. */
    method Route(count: nat, last: Key, ghost d: set<Key>) returns (changed: bool, signal: Signal)
      requires count == |d| && (count > 0 ==> last in d)
      ensures Announces(signal, d) && changed == !signal.Silent?
    {
      if count == 0 {
        return false, Silent;
      }
      if count == 1 {
        assert |d - {last}| == 0;
        assert d == {last};
        return true, AnchorChanged(last);
      }
      return true, AnchorsReset;
    }

    method SetAnchorNote(key: Key, note: Bytes) returns (changed: bool, signal: Signal)
      requires Valid()
      modifies this
      ensures Valid() && anchors == Noted(old(anchors), key, note)
      ensures signal == (if anchors == old(anchors) then Silent else AnchorNoteChanged(key))
      ensures changed == !signal.Silent?
    {
      SetAnchorNoteOutcome(anchors, key, note);
      if key !in anchors {
        return false, Silent;
      }
      var sanitised := SanitiseNote(note);
      if anchors[key].note == sanitised {
        return false, Silent;
      }
      anchors := anchors[key := anchors[key].(note := sanitised)];
      return true, AnchorNoteChanged(key);
    }

    method RemoveAnchor(key: Key) returns (changed: bool, signal: Signal)
      requires Valid()
      modifies this
      ensures Valid() && anchors == Removed(old(anchors), {key})
      ensures Announces(signal, Differ(old(anchors), anchors)) && changed == !signal.Silent?
    {
      RemoveAnchorOutcome(anchors, key);
      if key !in anchors {
        return false, Silent;
      }
      anchors := anchors - {key};
      return true, AnchorChanged(key);
    }

    method RemoveAnchors(keys: seq<Key>) returns (changed: bool, signal: Signal)
      requires Valid()
      modifies this
      ensures Valid() && anchors == Removed(old(anchors), ToSet(keys))
      ensures Announces(signal, Differ(old(anchors), anchors)) && changed == !signal.Silent?
    {
      ghost var before := anchors;
      EraseEachCounts(before, keys);
      if keys == [] {
        return false, Silent;
      }
      var removedCount, lastRemovedKey := 0, Key([], 0);
      var i := 0;
      while i < |keys|
        invariant 0 <= i <= |keys|
        invariant Bulk(anchors, removedCount, lastRemovedKey) == EraseEach(before, keys[..i])
      {
        EraseTurn(before, keys, i);
        if keys[i] in anchors {
          anchors := anchors - {keys[i]};
          removedCount := removedCount + 1;
          lastRemovedKey := keys[i];
        }
        i := i + 1;
      }
      assert keys[..i] == keys;
      changed, signal := Route(removedCount, lastRemovedKey, Differ(before, anchors));
    }

    method ClearAll() returns (changed: bool, signal: Signal)
      requires Valid()
      modifies this
      ensures Valid() && anchors == map[]
      ensures signal == (if anchors == old(anchors) then Silent else AnchorsReset)
      ensures changed == !signal.Silent?
    {
      if anchors == map[] {
        return false, Silent;
      }
      anchors := map[];
      return true, AnchorsReset;
    }

    method Replace(entries: seq<Entry>) returns (clampedCount: nat, signal: Signal)
      requires Valid()
      modifies this
      ensures Valid() && anchors == Load(entries)
      ensures signal == (if anchors == old(anchors) then Silent else AnchorsReset)
      ensures clampedCount == |ClampedKeys(entries)|
    {
      var previous := anchors;
      anchors := map[];
      var clampedByKey: map<Key, bool> := map[];
      var i := 0;
      while i < |entries|
        invariant 0 <= i <= |entries|
        invariant anchors == Load(entries[..i])
        invariant clampedByKey == ClampMap(entries[..i])
      {
        var entry := entries[i];
        LoadTurn(entries, i);
        var color := entry.color;
        var clamped := color >= PALETTE_SIZE;
        if clamped {
          color := PALETTE_SIZE - 1;
        }
        var key := Key(entry.locator, entry.lineId);
        clampedByKey := clampedByKey[key := clamped];
        var note := SanitiseNote(entry.note);
        anchors := anchors[key := Value(color, note)];
        i := i + 1;
      }
      assert entries[..i] == entries;
      LoadStored(entries);
      clampedCount := CountTrue(clampedByKey);
      ClampMapCounts(entries);
      signal := if anchors != previous then AnchorsReset else Silent;
    }

    /** `std::ranges::count_if` over the clamp map, in whatever order it iterates. */
    static method CountTrue(m: map<Key, bool>) returns (n: nat)
      ensures n == |set k | k in m && m[k]|
    {
      n := 0;
      var todo := m.Keys;
      ghost var counted: set<Key> := {};
      while todo != {}
        invariant todo <= m.Keys
        invariant counted == set k | k in m && k !in todo && m[k]
        invariant n == |counted|
        decreases |todo|
      {
        var k :| k in todo;
        todo := todo - {k};
        if m[k] {
          n := n + 1;
          counted := counted + {k};
        }
      }
      assert counted == set k | k in m && m[k];
    }

    /** Walks the hash map in any order, then sorts. */
    method BuildSortedEntries(dropRuntimeOnly: bool) returns (out: seq<Entry>)
      ensures out == Listing(if dropRuntimeOnly then Persistent(anchors) else anchors)
    {
      ghost var kept := if dropRuntimeOnly then Persistent(anchors) else anchors;
      out := [];
      var todo := anchors.Keys;
      while todo != {}
        invariant todo <= anchors.Keys
        invariant Collected(out, kept - todo)
        decreases |todo|
      {
        var key :| key in todo;
        ghost var seen := kept - todo;
        todo := todo - {key};
        if !(dropRuntimeOnly && key.locator == []) {
          assert kept - todo == seen[key := anchors[key]];
          CollectedAdd(out, seen, key, anchors[key]);
          out := out + [Entry(key.locator, key.lineId, anchors[key].color, anchors[key].note)];
        } else {
          assert kept - todo == seen;
        }
      }
      assert kept - todo == kept;
      out := SortEntries(out, kept);
      ListingUnique(out, Listing(kept), kept);
    }

    /** `std::ranges::sort`: the same entries, ascending. */
    static method SortEntries(es: seq<Entry>, ghost m: AnchorMap) returns (sorted: seq<Entry>)
      requires Collected(es, m)
      ensures Lists(sorted, m)
    {
      sorted := [];
      var i := 0;
      while i < |es|
        invariant 0 <= i <= |es|
        invariant Ascending(sorted) && forall e :: e in sorted <==> e in es[..i]
      {
        forall e | e in sorted ensures KeyOf(e) != KeyOf(es[i]) {
          var j :| 0 <= j < i && es[j] == e;
        }
        InsertEntryAscending(sorted, es[i]);
        InsertEntryMembers(sorted, es[i]);
        sorted := InsertEntry(sorted, es[i]);
        i := i + 1;
      }
      assert es[..i] == es;
    }

    method Entries() returns (out: seq<Entry>)
      ensures out == Listing(Persistent(anchors))
    {
      out := BuildSortedEntries(true);
    }

    method EntriesIncludingRuntimeOnly() returns (out: seq<Entry>)
      ensures out == Listing(anchors)
    {
      out := BuildSortedEntries(false);
    }
  }
}
