/** The anchors dock: `AnchorsDock`.

  `rows` is the tree.  Qt announces every write to a cell to `OnItemChanged` before the
  write returns.  The methods that write cells on behalf of the dock demand a raised
  suppression counter, so the announcement ends at the first guard of `OnItemChanged`;
  the store's signals are calls of `Deliver`. */
module Dock {
  import opened Utf8
  import opened Notes
  import opened Anchors
  import opened Mirror

  datatype Column = ANCHOR | NOTE

  // ----- The inline edit -----

  function Typed(v: View, row: nat, text: Text): View
    requires row < |v.rows|
  {
    v.(rows := v.rows[row := v.rows[row].(note := text)])
  }

  /** The view after `note` was stored for the row and `text` put into its cell. */
  ghost function Committed(v: View, m: AnchorMap, row: nat, text: Text, note: Bytes, visible: bool): View
    requires row < |v.rows|
  {
    var k := RowKey(v.rows[row]);
    var w, n := Typed(v, row, text), WithNote(m, k, note);
    if visible && n != m then AfterAnchorNoteChanged(w, n, k) else w
  }

  /** What the cell shows of typed text: sanitised on the way through a `std::string`. */
  function CellText(typed: Text): Text { Decode(Sanitise(Encode(typed))) }

  lemma {:induction false} CollapseShrinks(s: Bytes)
    ensures |Collapse(s)| <= |s|
    decreases |s|
  {
    if s != [] {
      CollapseShrinks(if CrLfAt(s, 0) then s[2..]
                      else if !IsControl(s[0]) && SeparatorAt(s, 0) then s[3..]
                      else s[1..]);
    }
  }

  lemma SanitiseShrinks(s: Bytes)
    ensures |Sanitise(s)| <= |s|
  {
    CollapseShrinks(s);
  }

  /** The text put into the cell is handed to the store, which sanitises it again.  All this
      leaves the sanitised text as it stands, unless that starts with a byte order mark: each
      way through a `QString` then takes one away. */
  lemma CellTextStored(typed: Text)
    ensures Encode(CellText(typed)) == Sanitise(Encode(typed)) <==> !MarkFirst(typed)
    ensures Sanitise(Encode(CellText(typed))) == Sanitise(Encode(typed)) <==> !MarkFirst(typed)
    ensures !MarkFirst(typed) ==> CellText(typed) == Decode(Sanitise(Encode(CellText(typed))))
  {
    hide Sanitise;
    var t := SanitiseText(typed);
    SanitiseEncoded(typed);
    MarkFirstSanitised(typed);
    DecodeEncode(t);
    SanitiseIdempotent(Encode(typed));
    if MarkFirst(typed) {
      BomEncoded(t);
      SanitiseShrinks(Encode(t[1..]));
    }
  }

  lemma FindRow(rows: seq<Row>, row: nat)
    requires RowsAscend(rows) && row < |rows|
    ensures Find(rows, rows[row].locator, rows[row].lineId) == row
  {
    var at := Find(rows, rows[row].locator, rows[row].lineId);
    assert SameKey(rows[row], rows[row].locator, rows[row].lineId);
    if at != row {
      RowKeysDistinct(rows, at, row);
    }
  }

  /** The note handler finds the edited row whatever its cell says, and rewrites it. */
  lemma NoteHandlerOnRow(v: View, n: AnchorMap, row: nat, text: Text)
    requires RowsAscend(v.rows) && row < |v.rows| && RowKey(v.rows[row]) in n && Valid(RowKey(v.rows[row]).locator)
    ensures var k := RowKey(v.rows[row]);
            AfterAnchorNoteChanged(Typed(v, row, text), n, k) ==
            v.(rows := v.rows[row := Renoted(v.rows[row], EntryOf(k, n[k]))])
  {
    var k, w := RowKey(v.rows[row]), Typed(v, row, text);
    EncodeInjective(Decode(k.locator), v.rows[row].locator);
    assert forall i :: 0 <= i < |w.rows| ==> RowKey(w.rows[i]) == RowKey(v.rows[i]);
    FindRow(w.rows, row);
    var r := Renoted(v.rows[row], EntryOf(k, n[k]));
    assert Renoted(w.rows[row], EntryOf(k, n[k])) == r;
    assert w.rows[row := r] == v.rows[row := r];
  }

  /** Committing a note touches the cell and the tooltip of its row only. */
  lemma CommittedRow(v: View, m: AnchorMap, row: nat, text: Text, note: Bytes, visible: bool)
    requires RowsAscend(v.rows) && row < |v.rows| && RowKey(v.rows[row]) in m && Valid(RowKey(v.rows[row]).locator)
    ensures var w, k := Committed(v, m, row, text, note, visible), RowKey(v.rows[row]);
            && |w.rows| == |v.rows|
            && w.rows[row].note == (if visible && WithNote(m, k, note) != m then Decode(note) else text)
            && forall j :: 0 <= j < |v.rows| && j != row ==> w.rows[j] == v.rows[j]
  {
    var k := RowKey(v.rows[row]);
    NoteHandlerOnRow(v, WithNote(m, k, note), row, text);
  }

  /** The dock still mirrors the store, unless the store already had the note, and so sent no
      signal, while the cell shows something else. */
  lemma CommittedMirrors(v: View, m: AnchorMap, row: nat, text: Text, note: Bytes)
    requires Faithful(m) && Mirrors(v, m) && row < |v.rows|
    ensures RowsAscend(v.rows) && RowKey(v.rows[row]) in m
    ensures var n := WithNote(m, RowKey(v.rows[row]), note);
            Mirrors(Committed(v, m, row, text, note, true), n) <==> n != m || text == Decode(note)
  {
    hide Encode, Decode, Valid, KeyLess;
    MirrorsIffShows(v, m);
    var r := v.rows[row];
    var k := RowKey(r);
    assert RowShows(r, m);
    var n := WithNote(m, k, note);
    if n == m {
      UnchangedMirrors(v, m, row, text, note);
    } else {
      AnchorNoteChangedMirrors(v, m, k, note);
      NoteHandlerOnRow(v, n, row, text);
      NoteHandlerOnRow(v, n, row, r.note);
      assert Typed(v, row, r.note).rows == v.rows;
    }
  }

  lemma UnchangedMirrors(v: View, m: AnchorMap, row: nat, text: Text, note: Bytes)
    requires Mirrors(v, m) && row < |v.rows| && RowShows(v.rows[row], m)
    requires WithNote(m, RowKey(v.rows[row]), note) == m
    ensures Mirrors(Typed(v, row, text), m) <==> text == Decode(note)
  {
    var k, w := RowKey(v.rows[row]), Typed(v, row, text);
    assert m[k].note == note && Unselected(v.rows[row]).note == Decode(note);
    assert Unselected(w.rows[row]).note == text && Fresh(m)[row].note == Decode(note);
    if text == Decode(note) {
      assert w.rows == v.rows;
    }
  }

  /** Whatever is typed into a row of a dock that mirrors the store, the store gets the note
      sanitised and no other row moves.  Cell, stored note and sanitised text agree
      afterwards exactly when the typed text does not start with a byte order mark behind
      its leading spaces and breaks; then the dock mirrors the store again. */
  lemma EditConverges(v: View, m: AnchorMap, row: nat, typed: Text)
    requires Faithful(m) && Mirrors(v, m) && row < |v.rows|
    ensures var k, text := RowKey(v.rows[row]), CellText(typed);
            var note := Sanitise(Encode(text));
            var n, w := WithNote(m, k, note), Committed(v, m, row, text, note, true);
            && k in n && n[k].note == note
            && |w.rows| == |v.rows| && (forall j :: 0 <= j < |v.rows| && j != row ==> w.rows[j] == v.rows[j])
            && (Encode(w.rows[row].note) == note == Sanitise(Encode(typed)) <==> !MarkFirst(typed))
            && (!MarkFirst(typed) ==> w.rows[row].note == Decode(note) && Mirrors(w, n))
            && (Mirrors(w, n) <==> n != m || text == Decode(note))
  {
    hide Sanitise;
    var text := CellText(typed);
    var note := Sanitise(Encode(text));
    CellTextStored(typed);
    CommittedMirrors(v, m, row, text, note);
    CommittedRow(v, m, row, text, note, true);
  }

  /** What was in the cell before does not matter. */
  lemma CommittedTyped(v: View, m: AnchorMap, row: nat, typed: Text, text: Text, note: Bytes, visible: bool)
    requires row < |v.rows|
    ensures Committed(Typed(v, row, typed), m, row, text, note, visible) == Committed(v, m, row, text, note, visible)
    ensures RowKey(Typed(v, row, typed).rows[row]) == RowKey(v.rows[row])
  {
    assert Typed(Typed(v, row, typed), row, text) == Typed(v, row, text);
  }

  /** The selection is no part of the mirror. */
  lemma MirrorsUnselected(v: View, w: View, m: AnchorMap)
    requires Mirrors(v, m) && |w.rows| == |v.rows| && w.clearEnabled == v.clearEnabled
    requires forall i :: 0 <= i < |v.rows| ==> Unselected(w.rows[i]) == Unselected(v.rows[i])
    ensures Mirrors(w, m)
  {
  }

  // ----- The dock -----

  /** What a tab remembers of its anchors dock. */
  class Session {
    var keyLocator: Bytes
    var keyLineId: LineId

    constructor () {
      keyLocator, keyLineId := [], 0;
    }
  }

  class AnchorsDock {
    var manager: AnchorManager?
    var bound: Session?
    var rows: seq<Row>
    var clearEnabled: bool
    var visible: bool
    /** Index of the current row, -1 for none, and whether its note cell has the focus. */
    var current: int
    var onNote: bool
    /** The row under inline edit, -1 for none, and the editor's text. */
    var editRow: int
    var editText: Text
    /** `mSuppressItemChanged`. */
    var suppress: nat
    /** Calls of `SetAnchorNote` so far. */
    ghost var noteWrites: nat

    ghost predicate Valid()
      reads this, manager
    {
      && (manager != null ==> manager.Valid())
      && -1 <= current < |rows|
      && -1 <= editRow < |rows|
    }

    function Shown(): View
      reads this
    {
      View(rows, clearEnabled)
    }

    constructor (anchors: AnchorManager?)
      requires anchors != null ==> anchors.Valid()
      ensures Valid() && manager == anchors && bound == null && Shown() == View([], false)
      ensures !visible && suppress == 0
    {
      manager, bound := anchors, null;
      rows, clearEnabled, visible := [], false, false;
      current, onNote, editRow, editText := -1, false, -1, [];
      suppress, noteWrites := 0, 0;
    }

    // ----- Writes by the dock -----

    /** `setText` on the note column. */
    method SetNoteText(row: nat, text: Text)
      requires row < |rows| && suppress > 0
      modifies this`rows
      ensures rows == old(rows)[row := old(rows)[row].(note := text)]
    {
      rows := rows[row := rows[row].(note := text)];
    }

    /** `PopulateAnchorCellForEntry` on a row of the tree. */
    method PopulateAnchorCell(row: nat, entry: Entry)
      requires row < |rows| && suppress > 0
      modifies this`rows
      ensures rows == old(rows)[row := Repopulated(old(rows)[row], entry)]
    {
      rows := rows[row := Repopulated(rows[row], entry)];
    }

    method SetToolTip(row: nat, tip: Tip)
      requires row < |rows| && suppress > 0
      modifies this`rows
      ensures rows == old(rows)[row := old(rows)[row].(tip := tip)]
    {
      rows := rows[row := rows[row].(tip := tip)];
    }

    /** `insertTopLevelItem` of an item that was filled before. */
    method InsertRow(pos: nat, row: Row)
      requires pos <= |rows| && -1 <= current < |rows| && -1 <= editRow < |rows|
      modifies this`rows, this`current, this`editRow
      ensures rows == InsertAt(old(rows), pos, row)
      ensures current == if old(current) >= pos then old(current) + 1 else old(current)
      ensures editRow == if old(editRow) >= pos then old(editRow) + 1 else old(editRow)
    {
      rows := InsertAt(rows, pos, row);
      if current >= pos { current := current + 1; }
      if editRow >= pos { editRow := editRow + 1; }
    }

    /** `delete takeTopLevelItem(at)`.  An editor on the row goes with it; which row becomes
        current when the current one is deleted is Qt's choice. */
    method TakeRow(at: nat)
      requires at < |rows| && -1 <= current < |rows| && -1 <= editRow < |rows| && suppress > 0
      modifies this`rows, this`current, this`editRow
      ensures rows == RemoveAt(old(rows), at) && -1 <= current < |rows|
      ensures editRow == if old(editRow) == at then -1 else if old(editRow) > at then old(editRow) - 1 else old(editRow)
      ensures old(current) != at ==> current == if old(current) > at then old(current) - 1 else old(current)
    {
      rows := RemoveAt(rows, at);
      if editRow == at { editRow := -1; } else if editRow > at { editRow := editRow - 1; }
      if current == at {
        current := *;
        if !(-1 <= current < |rows|) { current := -1; }
      } else if current > at {
        current := current - 1;
      }
    }

    // ----- Searches -----

    method RowOf(key: Key) returns (at: int)
      ensures at == Find(rows, Decode(key.locator), key.lineId)
    {
      var locator := Decode(key.locator);
      at := 0;
      while at < |rows|
        invariant 0 <= at <= |rows|
        invariant forall i :: 0 <= i < at ==> !SameKey(rows[i], locator, key.lineId)
      {
        if SameKey(rows[at], locator, key.lineId) {
          return at;
        }
        at := at + 1;
      }
      at := -1;
    }

    /** The position `Entries()` would give a new row. */
    method PosFor(key: Key) returns (pos: nat)
      ensures pos == InsertPos(rows, key)
    {
      pos := |rows|;
      var row := 0;
      while row < |rows|
        invariant 0 <= row <= |rows|
        invariant forall i :: 0 <= i < row ==> !KeyLess(key, RowKey(rows[i]))
      {
        if KeyLess(key, RowKey(rows[row])) {
          return row;
        }
        row := row + 1;
      }
    }

    // ----- The store's signals -----

    /** The cursor is on the row it was on before. */
    predicate SameRow(was: seq<Row>, i: int, j: int)
      requires -1 <= i < |was|
      reads this
    {
      i >= 0 ==> 0 <= j < |rows| && rows[j] == was[i]
    }

    /** No row becomes current or edited that was not, and neither cursor moves unless a row
        came or went. */
    predicate CursorsStay(count: nat, wasCurrent: int, wasEdit: int)
      reads this
    {
      && (wasCurrent == -1 ==> current == -1) && (wasEdit == -1 ==> editRow == -1)
      && (|rows| == count ==> current == wasCurrent && editRow == wasEdit)
    }

    method OnAnchorChanged(key: Key)
      requires Valid()
      modifies this`rows, this`clearEnabled, this`current, this`editRow, this`suppress
      ensures Valid() && suppress == old(suppress)
      ensures !visible || manager == null ==> unchanged(this)
      ensures visible && manager != null ==> Shown() == AfterAnchorChanged(old(Shown()), manager.anchors, key)
      // An edit in flight on another row goes on there, and the focus stays on its row.
      ensures old(editRow) >= 0 && !SameKey(old(rows[editRow]), Decode(key.locator), key.lineId) ==>
                SameRow(old(rows), old(editRow), editRow)
      ensures old(current) >= 0 && !SameKey(old(rows[current]), Decode(key.locator), key.lineId) ==>
                SameRow(old(rows), old(current), current)
      ensures CursorsStay(|old(rows)|, old(current), old(editRow))
    {
      if !visible || manager == null {
        return;
      }
      ChangeRow(key, manager.anchors);
      clearEnabled := manager.anchors != map[];
    }

    method ChangeRow(key: Key, anchors: AnchorMap)
      requires Valid()
      modifies this`rows, this`current, this`editRow, this`suppress
      ensures Valid() && suppress == old(suppress)
      ensures rows == AfterAnchorChanged(old(Shown()), anchors, key).rows
      ensures old(editRow) >= 0 && !SameKey(old(rows[editRow]), Decode(key.locator), key.lineId) ==>
                SameRow(old(rows), old(editRow), editRow)
      ensures old(current) >= 0 && !SameKey(old(rows[current]), Decode(key.locator), key.lineId) ==>
                SameRow(old(rows), old(current), current)
      ensures CursorsStay(|old(rows)|, old(current), old(editRow))
    {
      hide Clean;
      var existing := RowOf(key);
      if key !in anchors {
        RemoveItem(existing);
      } else if key.locator == [] {
        // Runtime-only anchors have no row.
      } else if existing >= 0 {
        RepopulateItem(existing, EntryOf(key, anchors[key]));
      } else {
        InsertItem(key, EntryOf(key, anchors[key]));
      }
    }

    /** The recolour branch. */
    method RepopulateItem(existing: nat, entry: Entry)
      requires Valid() && existing < |rows|
      modifies this`rows, this`suppress
      ensures Valid() && suppress == old(suppress)
      ensures rows == old(rows)[existing := Repopulated(old(rows)[existing], entry)]
    {
      suppress := suppress + 1;
      PopulateAnchorCell(existing, entry);
      suppress := suppress - 1;
    }

    /** The sorted insert. */
    method InsertItem(key: Key, entry: Entry)
      requires Valid()
      modifies this`rows, this`current, this`editRow, this`suppress
      ensures Valid() && suppress == old(suppress)
      ensures rows == InsertAt(old(rows), InsertPos(old(rows), key), NewRow(entry))
      ensures SameRow(old(rows), old(editRow), editRow) && SameRow(old(rows), old(current), current)
      ensures CursorsStay(|old(rows)|, old(current), old(editRow))
    {
      hide Encode, Decode, KeyLess;
      suppress := suppress + 1;
      var insertPos := PosFor(key);
      InsertRow(insertPos, NewRow(entry));
      suppress := suppress - 1;
    }

    /** The removal branch. */
    method RemoveItem(existing: int)
      requires Valid() && -1 <= existing < |rows|
      modifies this`rows, this`current, this`editRow, this`suppress
      ensures Valid() && suppress == old(suppress)
      ensures rows == if existing >= 0 then RemoveAt(old(rows), existing) else old(rows)
      ensures old(editRow) >= 0 && old(editRow) != existing ==> SameRow(old(rows), old(editRow), editRow)
      ensures old(current) >= 0 && old(current) != existing ==> SameRow(old(rows), old(current), current)
      ensures CursorsStay(|old(rows)|, old(current), old(editRow))
    {
      if existing >= 0 {
        suppress := suppress + 1;
        TakeRow(existing);
        suppress := suppress - 1;
      }
    }

    method OnAnchorNoteChanged(key: Key)
      requires Valid()
      modifies this`rows, this`clearEnabled, this`current, this`onNote, this`editRow, this`suppress
      ensures Valid() && suppress == old(suppress)
      ensures !visible || manager == null ==> unchanged(this)
      ensures visible && manager != null ==> Shown() == AfterAnchorNoteChanged(old(Shown()), manager.anchors, key)
      ensures visible && manager != null ==>
                if Find(old(rows), Decode(key.locator), key.lineId) >= 0 && key in manager.anchors
                then current == old(current) && onNote == old(onNote) && editRow == old(editRow)
                else RefreshedFrom(old(Shown()), old(current), old(onNote))
    {
      hide Clean, Encode, Decode;
      if !visible || manager == null {
        return;
      }
      var target := RowOf(key);
      if target < 0 {
        RefreshAlways();
        return;
      }
      if key !in manager.anchors {
        RefreshAlways();
        return;
      }
      UpdateNote(target, EntryOf(key, manager.anchors[key]));
    }

    /** Note cell and tooltips of one row. */
    method UpdateNote(target: nat, entry: Entry)
      requires target < |rows|
      modifies this`rows, this`suppress
      ensures suppress == old(suppress) && rows == old(rows)[target := Renoted(old(rows)[target], entry)]
    {
      var noteText := Decode(entry.note);
      suppress := suppress + 1;
      if rows[target].note != noteText {
        SetNoteText(target, noteText);
      }
      SetToolTip(target, TipOf(entry));
      suppress := suppress - 1;
      assert rows[target] == Renoted(old(rows)[target], entry);
    }

    method Refresh()
      requires Valid()
      modifies this`rows, this`clearEnabled, this`current, this`onNote, this`editRow, this`suppress
      ensures Valid() && suppress == old(suppress)
      ensures !visible ==> unchanged(this)
      ensures visible ==> RefreshedFrom(old(Shown()), old(current), old(onNote))
    {
      if !visible {
        return;
      }
      RefreshAlways();
    }

    /** The state behind a rebuild from the old rows and the old focus: the rows are those
        of the store, the selection is put back by key, and so are the current row and its
        column, exactly when that key survives. */
    ghost predicate RefreshedFrom(was: View, wasCurrent: int, wasOnNote: bool)
      requires -1 <= wasCurrent < |was.rows|
      reads this, manager
    {
      && editRow == -1
      && (manager == null ==> Shown() == was.(rows := []))
      && (manager != null ==> Shown() == Rebuilt(was, manager.anchors))
      && if manager == null || wasCurrent < 0 then current == -1
         else FocusRestored((was.rows[wasCurrent].locator, was.rows[wasCurrent].lineId), wasOnNote)
    }

    /** The row with this key is current if there is one, and no row otherwise. */
    ghost predicate FocusRestored(focused: RowId, focusedOnNote: bool)
      reads this
    {
      if IsShown(rows, focused)
      then 0 <= current < |rows| && SameKey(rows[current], focused.0, focused.1) && onNote == focusedOnNote
      else current == -1
    }

    method RefreshAlways()
      requires Valid()
      modifies this`rows, this`clearEnabled, this`current, this`onNote, this`editRow, this`suppress
      ensures Valid() && suppress == old(suppress)
      ensures RefreshedFrom(old(Shown()), old(current), old(onNote))
    {
      ghost var was := rows;
      var hadFocus, focusedOnNote := current >= 0, onNote;
      var focused: RowId := if hadFocus then (rows[current].locator, rows[current].lineId) else ([], 0);
      var selectedKeys := SelectedKeys();
      suppress := suppress + 1;
      rows, current, editRow := [], -1, -1;
      if manager != null {
        Fill(manager, was, selectedKeys, hadFocus, focused, focusedOnNote);
        clearEnabled := manager.anchors != map[];
      }
      suppress := suppress - 1;
    }

    /** The rows of the store with selection and focus put back. */
    method Fill(manager: AnchorManager, ghost was: seq<Row>, selectedKeys: set<RowId>,
                hadFocus: bool, focused: RowId, focusedOnNote: bool)
      requires suppress > 0 && rows == [] && current == -1
      requires forall id :: id in selectedKeys <==> WasSelected(was, id.0, id.1)
      modifies this`rows, this`current, this`onNote
      ensures rows == Reselected(Fresh(manager.anchors), was)
      ensures if hadFocus then FocusRestored(focused, focusedOnNote) else current == -1
    {
      var entries := manager.Entries();
      Populate(entries);
      Restore(was, selectedKeys, hadFocus, focused, focusedOnNote);
    }

    method SelectedKeys() returns (keys: set<RowId>)
      ensures forall id :: id in keys <==> WasSelected(rows, id.0, id.1)
    {
      keys := {};
      var i := 0;
      while i < |rows|
        invariant 0 <= i <= |rows|
        invariant forall id :: id in keys <==> WasSelected(rows[..i], id.0, id.1)
      {
        WasSelectedStep(rows, i);
        if rows[i].selected {
          keys := keys + {(rows[i].locator, rows[i].lineId)};
        }
        i := i + 1;
      }
      assert rows[..i] == rows;
    }

    static lemma WasSelectedStep(rows: seq<Row>, n: nat)
      requires n < |rows|
      ensures forall l: Text, id: LineId :: WasSelected(rows[..n + 1], l, id) <==>
                WasSelected(rows[..n], l, id) || (rows[n].selected && SameKey(rows[n], l, id))
    {
      forall l: Text, id: LineId ensures WasSelected(rows[..n + 1], l, id) <==>
          WasSelected(rows[..n], l, id) || (rows[n].selected && SameKey(rows[n], l, id)) {
        if WasSelected(rows[..n], l, id) {
          var i :| 0 <= i < n && rows[..n][i].selected && SameKey(rows[..n][i], l, id);
          assert rows[..n + 1][i] == rows[..n][i];
        }
        if rows[n].selected && SameKey(rows[n], l, id) {
          assert rows[..n + 1][n] == rows[n];
        }
        if WasSelected(rows[..n + 1], l, id) {
          var i :| 0 <= i < n + 1 && rows[..n + 1][i].selected && SameKey(rows[..n + 1][i], l, id);
          assert i < n ==> rows[..n][i] == rows[..n + 1][i];
        }
      }
    }

    /** One item per entry. */
    method Populate(entries: seq<Entry>)
      requires suppress > 0 && rows == []
      modifies this`rows
      ensures rows == RowsOf(entries)
    {
      var i := 0;
      while i < |entries|
        invariant 0 <= i <= |entries|
        invariant |rows| == i && forall j :: 0 <= j < i ==> rows[j] == NewRow(entries[j])
      {
        rows := rows + [NewRow(entries[i])];
        i := i + 1;
      }
    }

    /** Selection and focus, by key. */
    method Restore(ghost was: seq<Row>, selectedKeys: set<RowId>, hadFocus: bool, focused: RowId, focusedOnNote: bool)
      requires -1 == current && forall id :: id in selectedKeys <==> WasSelected(was, id.0, id.1)
      requires forall i :: 0 <= i < |rows| ==> !rows[i].selected
      modifies this`rows, this`current, this`onNote
      ensures rows == Reselected(old(rows), was)
      ensures if hadFocus then FocusRestored(focused, focusedOnNote) else current == -1
    {
      if !hadFocus && selectedKeys == {} {
        forall i | 0 <= i < |rows| ensures !WasSelected(was, rows[i].locator, rows[i].lineId) {
          var id: RowId := (rows[i].locator, rows[i].lineId);
          assert id !in selectedKeys;
        }
        assert rows == Reselected(rows, was);
        return;
      }
      var row := 0;
      while row < |rows|
        invariant 0 <= row <= |rows| == |old(rows)|
        invariant forall i :: 0 <= i < row ==>
                    rows[i] == old(rows)[i].(selected := WasSelected(was, old(rows)[i].locator, old(rows)[i].lineId))
        invariant forall i :: row <= i < |rows| ==> rows[i] == old(rows)[i]
        invariant -1 <= current < row
        invariant current >= 0 ==> hadFocus && SameKey(rows[current], focused.0, focused.1) && onNote == focusedOnNote
        invariant current < 0 && hadFocus ==> forall i :: 0 <= i < row ==> !SameKey(rows[i], focused.0, focused.1)
      {
        var itemKey := (rows[row].locator, rows[row].lineId);
        if itemKey in selectedKeys {
          rows := rows[row := rows[row].(selected := true)];
        }
        if hadFocus && itemKey == focused {
          current, onNote := row, focusedOnNote;
        }
        row := row + 1;
      }
    }

    /** The connections to the store. */
    method Deliver(signal: Signal)
      requires Valid()
      modifies this`rows, this`clearEnabled, this`current, this`onNote, this`editRow, this`suppress
      ensures Valid() && suppress == old(suppress)
      ensures !visible || signal.Silent? ==> unchanged(this)
      ensures visible && signal.AnchorsReset? ==> RefreshedFrom(old(Shown()), old(current), old(onNote))
      ensures visible && manager != null ==> Shown() == Delivered(old(Shown()), manager.anchors, signal)
    {
      match signal
      case Silent =>
      case AnchorChanged(key) => OnAnchorChanged(key);
      case AnchorNoteChanged(key) => OnAnchorNoteChanged(key);
      case AnchorsReset => Refresh();
    }

    method OnVisibilityChanged(nowVisible: bool)
      requires Valid()
      modifies this`visible, this`rows, this`clearEnabled, this`current, this`onNote, this`editRow, this`suppress
      ensures Valid() && suppress == old(suppress) && visible == nowVisible
      ensures nowVisible ==> RefreshedFrom(old(Shown()), old(current), old(onNote))
      ensures !nowVisible ==> Shown() == old(Shown()) && current == old(current) && editRow == old(editRow)
    {
      visible := nowVisible;
      if nowVisible {
        RefreshAlways();
      }
    }

    // ----- The user -----

    /** `QTreeWidget::itemChanged`. */
    method OnItemChanged(row: nat, column: Column)
      requires Valid() && row < |rows|
      modifies this`rows, this`clearEnabled, this`current, this`onNote, this`editRow, this`suppress, this`noteWrites
      modifies manager
      ensures Valid() && suppress == old(suppress)
      ensures old(suppress) > 0 || manager == null || column == ANCHOR ==>
                unchanged(this) && (manager != null ==> unchanged(manager))
      ensures old(suppress) == 0 && manager != null && column == NOTE ==>
                noteWrites == old(noteWrites) + 1
                && Stores(old(Shown()), old(manager.anchors), row, CellText(old(rows[row].note)))
    {
      hide Sanitise, CellText;
      if suppress > 0 || manager == null {
        return;
      }
      if column != NOTE {
        return;
      }
      ghost var v := Shown();
      var key := RowKey(rows[row]);
      var sanitised := WriteBack(row);
      CommittedTyped(v, manager.anchors, row, sanitised, sanitised, Sanitise(Encode(sanitised)), visible);
      StoreNote(row, key, sanitised);
    }

    /** The store and the view after the row's cell text went to the store. */
    ghost predicate Stores(v: View, m: AnchorMap, row: nat, text: Text)
      requires row < |v.rows| && manager != null
      reads this, manager
    {
      var note := Sanitise(Encode(text));
      && manager.anchors == WithNote(m, RowKey(v.rows[row]), note)
      && Shown() == Committed(v, m, row, text, note, visible)
    }

    /** Shows the sanitised form when it differs from what was typed. */
    method WriteBack(row: nat) returns (sanitised: Text)
      requires row < |rows|
      modifies this`rows, this`suppress
      ensures suppress == old(suppress) && sanitised == CellText(old(rows[row].note))
      ensures Shown() == Typed(old(Shown()), row, sanitised)
    {
      hide Sanitise, Encode, Decode;
      var bytes := SanitiseNote(Encode(rows[row].note));
      sanitised := Decode(bytes);
      if sanitised != rows[row].note {
        suppress := suppress + 1;
        SetNoteText(row, sanitised);
        suppress := suppress - 1;
      }
      assert rows == old(rows)[row := old(rows)[row].(note := sanitised)];
    }

    /** Hands the text to the store, which signals back. */
    method StoreNote(row: nat, key: Key, text: Text)
      requires Valid() && row < |rows| && manager != null && rows[row].note == text && RowKey(rows[row]) == key
      modifies this`rows, this`clearEnabled, this`current, this`onNote, this`editRow, this`suppress, this`noteWrites
      modifies manager
      ensures Valid() && suppress == old(suppress) && noteWrites == old(noteWrites) + 1
      ensures Stores(old(Shown()), old(manager.anchors), row, text)
    {
      hide Sanitise;
      var changed, signal := manager.SetAnchorNote(key, Encode(text));
      noteWrites := noteWrites + 1;
      assert Typed(Shown(), row, text).rows == rows;
      Deliver(signal);
    }

    /** The editor commits its text: the delegate writes the cell and Qt announces it.  A
        suppressed or unbound dock keeps the text in the cell and nothing else; otherwise
        there is one write to the store. */
    method CommitEditor()
      requires Valid() && editRow >= 0
      modifies this`rows, this`clearEnabled, this`current, this`onNote, this`editRow, this`suppress, this`noteWrites
      modifies manager
      ensures Valid() && suppress == old(suppress)
      ensures old(suppress) > 0 || manager == null ==>
                && Shown() == Typed(old(Shown()), old(editRow), old(editText)) && noteWrites == old(noteWrites)
                && (manager != null ==> unchanged(manager))
      ensures old(suppress) == 0 && manager != null ==>
                && noteWrites == old(noteWrites) + 1
                && Stores(old(Shown()), old(manager.anchors), old(editRow), CellText(old(editText)))
      ensures old(suppress) == 0 && manager != null && visible && !MarkFirst(old(editText))
              && old(Faithful(manager.anchors) && Mirrors(Shown(), manager.anchors)) ==>
                Converged(old(Shown()), old(editRow), Sanitise(Encode(old(editText))))
    {
      hide Sanitise, CellText, Clean, Faithful, Mirrors, Committed, WithNote, Encode, Decode, MarkFirst;
      var row, typed := editRow, editText;
      ghost var v := Shown();
      editRow := -1;
      rows := rows[row := rows[row].(note := typed)];
      assert Shown() == Typed(v, row, typed);
      if suppress == 0 && manager != null {
        ghost var m := manager.anchors;
        CommittedTyped(v, m, row, typed, CellText(typed), Sanitise(Encode(CellText(typed))), visible);
        OnItemChanged(row, NOTE);
        if visible && !MarkFirst(typed) && old(Faithful(manager.anchors) && Mirrors(Shown(), manager.anchors)) {
          EditConverges(v, m, row, typed);
        }
      } else {
        OnItemChanged(row, NOTE);
      }
    }

    /** Cell, store and sanitised text agree, the other rows are as before, and the dock
        mirrors the store. */
    ghost predicate Converged(was: View, row: nat, note: Bytes)
      requires row < |was.rows| && manager != null
      reads this, manager
    {
      var key := RowKey(was.rows[row]);
      && key in manager.anchors && manager.anchors[key].note == note
      && |rows| == |was.rows| && rows[row].note == Decode(note) && Encode(rows[row].note) == note
      && (forall j :: 0 <= j < |rows| && j != row ==> rows[j] == was.rows[j])
      && Mirrors(Shown(), manager.anchors)
    }

    /** Losing the focus makes an open editor commit; the raised counter keeps the text out
        of the store. */
    method CloseInPlaceEditors()
      requires Valid()
      modifies this`rows, this`current, this`editRow, this`suppress
      ensures Valid() && current == -1 && editRow == -1 && suppress == old(suppress)
      ensures Shown() == if old(editRow) >= 0 then Typed(old(Shown()), old(editRow), old(editText)) else old(Shown())
    {
      suppress := suppress + 1;
      current := -1;
      if editRow >= 0 {
        SetNoteText(editRow, editText);
        editRow := -1;
      }
      suppress := suppress - 1;
    }

    /** The key of the current row; the null key when there is none. */
    function CurrentKey(): Key
      requires -1 <= current < |rows|
      reads this
    {
      if current >= 0 then RowKey(rows[current]) else Key([], 0)
    }

    /** A switch of tabs.  The frame leaves both stores out: no note in flight gets into
        either of them. */
    method Bind(session: Session?, anchors: AnchorManager?)
      requires Valid() && (anchors != null ==> anchors.Valid())
      modifies this`manager, this`bound
      modifies this`rows, this`clearEnabled, this`current, this`onNote, this`editRow, this`suppress
      modifies bound
      ensures Valid() && suppress == old(suppress) && bound == session && manager == anchors
      ensures old(SameBinding(session, anchors)) ==> unchanged(this)
      ensures !old(SameBinding(session, anchors)) ==>
                && (old(bound) != null ==> Key(old(bound).keyLocator, old(bound).keyLineId) == old(CurrentKey()))
                && (if visible && anchors != null then Mirrors(Shown(), anchors.anchors) else rows == [])
                && CurrentRestored()
    {
      hide Clean, Mirrors, Encode, Decode;
      if bound == session && session != null && manager == anchors {
        return;
      }
      if bound != null {
        var saved := CurrentKey();
        bound.keyLocator, bound.keyLineId := saved.locator, saved.lineId;
      }
      CloseInPlaceEditors();
      suppress := suppress + 1;
      rows := [];
      suppress := suppress - 1;
      manager := anchors;
      bound := session;
      PopulateAgain();
      if session != null {
        ghost var v := Shown();
        RestoreCurrent(Key(session.keyLocator, session.keyLineId));
        if visible && anchors != null {
          MirrorsUnselected(v, Shown(), anchors.anchors);
        }
      }
    }

    method PopulateAgain()
      requires Valid() && rows == [] && current == -1
      modifies this`rows, this`clearEnabled, this`current, this`onNote, this`editRow, this`suppress
      ensures Valid() && suppress == old(suppress) && current == -1 && OnlySelected(-1)
      ensures if visible && manager != null then Mirrors(Shown(), manager.anchors) else rows == []
    {
      Refresh();
      if visible && manager != null {
        RebuiltMirrors(old(Shown()), manager.anchors);
      }
    }

    predicate SameBinding(session: Session?, anchors: AnchorManager?)
      reads this
    {
      bound == session && session != null && manager == anchors
    }

    /** The key that the bound tab remembers is current exactly when it is a key and a row
        has it. */
    ghost predicate CurrentRestored()
      reads this, bound
    {
      if bound != null && (bound.keyLocator != [] || bound.keyLineId != 0)
         && IsShown(rows, (Decode(bound.keyLocator), bound.keyLineId))
      then
        && 0 <= current < |rows| && SameKey(rows[current], Decode(bound.keyLocator), bound.keyLineId)
        && OnlySelected(current)
      else current == -1 && OnlySelected(-1)
    }

    /** The row, and no other, is selected. */
    predicate OnlySelected(row: int)
      reads this
    {
      forall i :: 0 <= i < |rows| ==> (rows[i].selected <==> i == row)
    }

    method RestoreCurrent(wanted: Key)
      requires current == -1 && OnlySelected(-1)
      modifies this`rows, this`current, this`onNote
      ensures |rows| == |old(rows)| && -1 <= current < |rows| && OnlySelected(current)
      ensures forall i :: 0 <= i < |rows| ==> Unselected(rows[i]) == Unselected(old(rows)[i])
      ensures if (wanted.locator != [] || wanted.lineId != 0)
                 && IsShown(rows, (Decode(wanted.locator), wanted.lineId))
              then 0 <= current < |rows| && SameKey(rows[current], Decode(wanted.locator), wanted.lineId)
              else current == -1
    {
      if wanted.locator != [] || wanted.lineId != 0 {
        var at := RowOf(wanted);
        if at >= 0 {
          rows := rows[at := rows[at].(selected := true)];
          current, onNote := at, false;
          assert SameKey(rows[at], Decode(wanted.locator), wanted.lineId);
        }
      }
    }

    /** A mutation of the store with its signal delivered: one step of the runs of `Mirror`. */
    method Mutate(op: Op)
      requires Valid() && manager != null
      modifies this`rows, this`clearEnabled, this`current, this`onNote, this`editRow, this`suppress, manager
      ensures Valid() && suppress == old(suppress)
      ensures Pair(Shown(), manager.anchors, visible) ==
              Step(old(Pair(Shown(), manager.anchors, visible)), Event.Mutate(op))
    {
      ghost var m := manager.anchors;
      var signal := Perform(manager, op);
      SignalUnique(m, op, signal, Signalled(m, op));
      Deliver(signal);
    }

    static method Perform(manager: AnchorManager, op: Op) returns (signal: Signal)
      requires manager.Valid()
      modifies manager
      ensures manager.Valid() && manager.anchors == Apply(old(manager.anchors), op)
      ensures SignalFits(old(manager.anchors), op, signal)
    {
      var changed;
      match op {
        case SetAnchor(k, c) => changed, signal := manager.SetAnchor(k, c);
        case SetAnchors(ks, c) => changed, signal := manager.SetAnchors(ks, c);
        case SetAnchorNote(k, note) => changed, signal := manager.SetAnchorNote(k, note);
        case RemoveAnchor(k) => changed, signal := manager.RemoveAnchor(k);
        case RemoveAnchors(ks) => changed, signal := manager.RemoveAnchors(ks);
        case ClearAll => changed, signal := manager.ClearAll();
        case Replace(es) => var clamped; clamped, signal := manager.Replace(es);
      }
    }
  }
}
