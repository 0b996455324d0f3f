/** The one-line form of an anchor note: `AnchorManager::SanitiseNote`.

  `SanitiseNote` is the byte loop of the program; `Sanitise` says what it computes on
  bytes, and `SanitiseText` says what it means for text, code point by code point. */
module Notes {
  import opened Utf8

  const MAX_NOTE_BYTES: nat := 1024
  const SPACE: Byte := 0x20

  /** C0 controls and DEL. */
  predicate IsControl(b: Byte) { b <= 0x1F || b == 0x7F }

  /** U+2028 or U+2029 in UTF-8: `E2 80 A8` or `E2 80 A9`. */
  predicate SeparatorAt(s: Bytes, i: nat) {
    i + 2 < |s| && s[i] == 0xE2 && s[i + 1] == 0x80 && (s[i + 2] == 0xA8 || s[i + 2] == 0xA9)
  }

  predicate CrLfAt(s: Bytes, i: nat) {
    i + 1 < |s| && s[i] == 0x0D && s[i + 1] == 0x0A
  }

  // ----- What the byte loop computes -----

  function Collapse(s: Bytes): Bytes {
    if s == [] then []
    else if CrLfAt(s, 0) then [SPACE] + Collapse(s[2..])
    else if IsControl(s[0]) then [SPACE] + Collapse(s[1..])
    else if SeparatorAt(s, 0) then [SPACE] + Collapse(s[3..])
    else [s[0]] + Collapse(s[1..])
  }

  function TrimLeft<T(==)>(s: seq<T>, space: T): (r: seq<T>)
    ensures |r| <= |s| && r == s[|s| - |r|..]
    ensures r != [] ==> r[0] != space
    ensures forall i :: 0 <= i < |s| - |r| ==> s[i] == space
  {
    if s != [] && s[0] == space then TrimLeft(s[1..], space) else s
  }

  function TrimRight<T(==)>(s: seq<T>, space: T): (r: seq<T>)
    ensures |r| <= |s| && r == s[..|r|]
    ensures r != [] ==> r[|r| - 1] != space
    ensures forall i :: |r| <= i < |s| ==> s[i] == space
  {
    if s != [] && s[|s| - 1] == space then TrimRight(s[..|s| - 1], space) else s
  }

  function Trim<T(==)>(s: seq<T>, space: T): seq<T> {
    TrimRight(TrimLeft(s, space), space)
  }

  /** Steps from `at` back over continuation bytes. */
  function WalkBack(s: Bytes, at: nat): (r: nat)
    requires at < |s|
    ensures r <= at && (r == 0 || !IsContinuation(s[r]))
    ensures forall i :: r < i <= at ==> IsContinuation(s[i])
  {
    if at > 0 && IsContinuation(s[at]) then WalkBack(s, at - 1) else at
  }

  /** Where an over-long note is cut. */
  function CutPoint(s: Bytes): (r: nat)
    requires |s| > MAX_NOTE_BYTES
    ensures r <= MAX_NOTE_BYTES
  {
    var at := WalkBack(s, MAX_NOTE_BYTES);
    if at > 0 && IsLead(s[at - 1]) then at - 1 else at
  }

  function Cap(s: Bytes): Bytes {
    if |s| > MAX_NOTE_BYTES then TrimRight(s[..CutPoint(s)], SPACE) else s
  }

  function Sanitise(note: Bytes): Bytes {
    Cap(Trim(Collapse(note), SPACE))
  }

  // ----- The byte loop -----

  method SanitiseNote(note: Bytes) returns (out: Bytes)
    ensures out == Sanitise(note)
  {
    out := CollapseBreaks(note);
    out := EraseLeadingSpaces(out);
    out := EraseTrailingSpaces(out);
    if |out| > MAX_NOTE_BYTES {
      out := Truncate(out);
      out := EraseTrailingSpaces(out);
    }
  }

  /** The length cap: walk back to a boundary, then drop a lone lead byte. */
  method Truncate(s: Bytes) returns (r: Bytes)
    requires |s| > MAX_NOTE_BYTES
    ensures r == s[..CutPoint(s)]
  {
    var truncateAt := MAX_NOTE_BYTES;
    while truncateAt > 0 && IsContinuation(s[truncateAt])
      invariant 0 <= truncateAt <= MAX_NOTE_BYTES
      invariant WalkBack(s, truncateAt) == WalkBack(s, MAX_NOTE_BYTES)
    {
      truncateAt := truncateAt - 1;
    }
    if truncateAt > 0 && IsLead(s[truncateAt - 1]) {
      truncateAt := truncateAt - 1;
    }
    r := s[..truncateAt];
  }

  /** One turn of the rewrite at position `i`. */
  lemma CollapseTurn(s: Bytes, i: nat)
    requires i < |s|
    ensures Collapse(s[i..]) ==
            if CrLfAt(s, i) then [SPACE] + Collapse(s[i + 2..])
            else if IsControl(s[i]) then [SPACE] + Collapse(s[i + 1..])
            else if SeparatorAt(s, i) then [SPACE] + Collapse(s[i + 3..])
            else [s[i]] + Collapse(s[i + 1..])
  {
    var rest := s[i..];
    assert rest[0] == s[i] && rest[1..] == s[i + 1..];
    assert CrLfAt(rest, 0) <==> CrLfAt(s, i);
    assert SeparatorAt(rest, 0) <==> SeparatorAt(s, i);
    assert i + 2 <= |s| ==> rest[2..] == s[i + 2..];
    assert i + 3 <= |s| ==> rest[3..] == s[i + 3..];
  }

  /** The single-pass rewrite. */
  method CollapseBreaks(note: Bytes) returns (out: Bytes)
    ensures out == Collapse(note)
  {
    out := [];
    var i := 0;
    while i < |note|
      invariant 0 <= i <= |note|
      invariant out + Collapse(note[i..]) == Collapse(note)
    {
      CollapseTurn(note, i);
      var c := SPACE;
      if CrLfAt(note, i) {
        i := i + 1;
      } else if IsControl(note[i]) {
      } else if SeparatorAt(note, i) {
        i := i + 2;
      } else {
        c := note[i];
      }
      i := i + 1;
      AppendShift(out, c, Collapse(note[i..]));
      out := out + [c];
    }
  }

  lemma AppendShift(a: Bytes, c: Byte, b: Bytes)
    ensures a + ([c] + b) == (a + [c]) + b
  {
  }

  method EraseLeadingSpaces(s: Bytes) returns (r: Bytes)
    ensures r == TrimLeft(s, SPACE)
  {
    var first := 0;
    while first < |s| && s[first] == SPACE
      invariant first <= |s| && TrimLeft(s[first..], SPACE) == TrimLeft(s, SPACE)
    {
      assert s[first..][1..] == s[first + 1..];
      first := first + 1;
    }
    r := s[first..];
  }

  method EraseTrailingSpaces(s: Bytes) returns (r: Bytes)
    ensures r == TrimRight(s, SPACE)
  {
    var last := |s|;
    assert s[..last] == s;
    while last > 0 && s[last - 1] == SPACE
      invariant 0 <= last <= |s| && TrimRight(s[..last], SPACE) == TrimRight(s, SPACE)
    {
      assert s[..last][..last - 1] == s[..last - 1];
      last := last - 1;
    }
    r := s[..last];
  }

  // ----- Every byte string: the result is clean, and clean strings are the fixpoints -----

  predicate NoBreaks(s: Bytes) {
    && (forall i :: 0 <= i < |s| ==> !IsControl(s[i]))
    && (forall i :: 0 <= i < |s| ==> !SeparatorAt(s, i))
  }

  predicate Clean(s: Bytes) {
    && |s| <= MAX_NOTE_BYTES
    && NoBreaks(s)
    && (s != [] ==> s[0] != SPACE && s[|s| - 1] != SPACE)
  }

  lemma NoBreaksSlice(s: Bytes, from: nat, to: nat)
    requires NoBreaks(s) && from <= to <= |s|
    ensures NoBreaks(s[from..to])
  {
    var r := s[from..to];
    forall i | 0 <= i < |r| ensures !SeparatorAt(r, i) {
      assert !SeparatorAt(s, from + i);
    }
  }

  /** A byte of the output that is not a space was copied, and the scan went on behind it. */
  lemma CollapseCopies(s: Bytes)
    requires Collapse(s) != [] && Collapse(s)[0] != SPACE
    ensures s != [] && s[0] == Collapse(s)[0] && Collapse(s)[1..] == Collapse(s[1..])
  {
  }

  /** Rewriting never brings the bytes of a separator together. */
  lemma {:induction false} CollapseLeavesNoBreaks(s: Bytes)
    ensures NoBreaks(Collapse(s))
    decreases |s|
  {
    if s != [] {
      var out := Collapse(s);
      var rest := if CrLfAt(s, 0) then s[2..]
                  else if !IsControl(s[0]) && SeparatorAt(s, 0) then s[3..]
                  else s[1..];
      CollapseLeavesNoBreaks(rest);
      assert out[1..] == Collapse(rest);
      if SeparatorAt(out, 0) {
        CollapseCopies(s);
        CollapseCopies(s[1..]);
        CollapseCopies(s[1..][1..]);
        assert false;
      }
      forall i | 0 <= i < |out| ensures !SeparatorAt(out, i) {
        if i > 0 {
          assert !SeparatorAt(Collapse(rest), i - 1);
        }
      }
    }
  }

  lemma {:induction false} CollapseKeeps(s: Bytes)
    requires NoBreaks(s)
    ensures Collapse(s) == s
  {
    if s != [] {
      assert !SeparatorAt(s, 0);
      NoBreaksSlice(s, 1, |s|);
      assert s[1..|s|] == s[1..];
      CollapseKeeps(s[1..]);
    }
  }

  lemma TrimKeepsNoBreaks(s: Bytes)
    requires NoBreaks(s)
    ensures NoBreaks(Trim(s, SPACE))
    ensures var t := Trim(s, SPACE); t != [] ==> t[0] != SPACE && t[|t| - 1] != SPACE
  {
    var l := TrimLeft(s, SPACE);
    NoBreaksSlice(s, |s| - |l|, |s|);
    assert l == s[|s| - |l|..|s|];
    var t := TrimRight(l, SPACE);
    NoBreaksSlice(l, 0, |t|);
    assert t == l[0..|t|];
  }

  lemma CapIsClean(t: Bytes)
    requires NoBreaks(t)
    requires t != [] ==> t[0] != SPACE && t[|t| - 1] != SPACE
    ensures Clean(Cap(t))
  {
    if |t| > MAX_NOTE_BYTES {
      var cut := t[..CutPoint(t)];
      var r := TrimRight(cut, SPACE);
      NoBreaksSlice(t, 0, |r|);
      assert r == cut[..|r|] == t[0..|r|];
    }
  }

  /** Every result is clean: no control byte, no line or paragraph separator, no space at
      either edge, at most 1024 bytes.  `note` is any byte string, valid UTF-8 or not. */
  lemma SanitiseIsClean(note: Bytes)
    ensures Clean(Sanitise(note))
  {
    CollapseLeavesNoBreaks(note);
    TrimKeepsNoBreaks(Collapse(note));
    CapIsClean(Trim(Collapse(note), SPACE));
  }

  /** The fixpoints are exactly the clean strings. */
  lemma FixpointIffClean(s: Bytes)
    ensures Sanitise(s) == s <==> Clean(s)
  {
    SanitiseIsClean(s);
    if Clean(s) {
      CollapseKeeps(s);
    }
  }

  lemma SanitiseIdempotent(note: Bytes)
    ensures Sanitise(Sanitise(note)) == Sanitise(note)
  {
    SanitiseIsClean(note);
    FixpointIffClean(Sanitise(note));
  }

  // ----- Valid UTF-8: the same function, told code point by code point -----

  predicate IsBreak(c: CodePoint) {
    c <= 0x1F || c == 0x7F || c == 0x2028 || c == 0x2029
  }

  const TEXT_SPACE: CodePoint := 0x20

  function CollapseText(t: Text): Text {
    if t == [] then []
    else if |t| >= 2 && t[0] == 0x0D && t[1] == 0x0A then [TEXT_SPACE] + CollapseText(t[2..])
    else if IsBreak(t[0]) then [TEXT_SPACE] + CollapseText(t[1..])
    else [t[0]] + CollapseText(t[1..])
  }

  /** The same, said of each code point by the one before it: a line feed behind a carriage
      return is dropped, every other break becomes a space. */
  function FoldedText(t: Text): Text {
    if t == [] then []
    else
      var n := |t| - 1;
      if t[n] == 0x0A && n > 0 && t[n - 1] == 0x0D then FoldedText(t[..n])
      else if t[n] < 0x20 || t[n] in {0x7F, 0x2028, 0x2029} then FoldedText(t[..n]) + [0x20]
      else FoldedText(t[..n]) + [t[n]]
  }

  lemma {:induction false} CollapseSnoc(t: Text, c: CodePoint)
    ensures CollapseText(t + [c]) ==
            if c == 0x0A && t != [] && t[|t| - 1] == 0x0D then CollapseText(t)
            else CollapseText(t) + [if IsBreak(c) then TEXT_SPACE else c]
    decreases |t|
  {
    var s := t + [c];
    if t == [] {
      assert s[1..] == [];
    } else if |t| >= 2 && t[0] == 0x0D && t[1] == 0x0A {
      assert s[2..] == t[2..] + [c];
      CollapseSnoc(t[2..], c);
      if |t| == 2 {
        assert t[2..] == [];
      }
    } else {
      assert s[1..] == t[1..] + [c];
      CollapseSnoc(t[1..], c);
      if |t| == 1 {
        assert t[1..] == [] && s[2..] == [];
      }
    }
  }

  lemma {:induction false} CollapseIsFolded(t: Text)
    ensures CollapseText(t) == FoldedText(t)
  {
    if t != [] {
      hide CollapseText;
      var n := |t| - 1;
      assert t == t[..n] + [t[n]];
      CollapseIsFolded(t[..n]);
      CollapseSnoc(t[..n], t[n]);
    }
  }

  /** How many code points fit into `room` bytes. */
  function Fitting(t: Text, room: nat): (n: nat)
    ensures n <= |t|
  {
    if t == [] || |EncodeOne(t[0])| > room then 0
    else 1 + Fitting(t[1..], room - |EncodeOne(t[0])|)
  }

  function SanitiseText(t: Text): Text {
    var s := Trim(CollapseText(t), TEXT_SPACE);
    if |Encode(s)| > MAX_NOTE_BYTES
    then TrimRight(s[..Fitting(s, MAX_NOTE_BYTES)], TEXT_SPACE)
    else s
  }

  /** `Fitting` is the longest prefix within the room. */
  lemma {:induction false} FittingIsLongest(t: Text, room: nat)
    ensures var n := Fitting(t, room);
            && |Encode(t[..n])| <= room
            && (n < |t| ==> |Encode(t[..n])| + |EncodeOne(t[n])| > room)
  {
    if t != [] && |EncodeOne(t[0])| <= room {
      var n := Fitting(t, room);
      FittingIsLongest(t[1..], room - |EncodeOne(t[0])|);
      assert t[..n][1..] == t[1..][..n - 1];
    }
  }

  lemma EncodeCons(c: CodePoint, t: Text)
    ensures Encode([c] + t) == EncodeOne(c) + Encode(t)
  {
    assert ([c] + t)[1..] == t;
  }

  lemma SplitAt<T>(t: seq<T>, n: nat)
    requires n < |t|
    ensures t == t[..n] + ([t[n]] + t[n + 1..])
  {
  }

  lemma EncodeSplit(t: Text, n: nat)
    requires n < |t|
    ensures Encode(t) == Encode(t[..n]) + (EncodeOne(t[n]) + Encode(t[n + 1..]))
  {
    SplitAt(t, n);
    EncodeAppend(t[..n], [t[n]] + t[n + 1..]);
    EncodeCons(t[n], t[n + 1..]);
  }

  /** Bytes above ASCII other than a separator's are copied as they are. */
  lemma {:induction false} CollapseCopiesSequence(e: Bytes, rest: Bytes)
    requires forall i :: 0 <= i < |e| ==> e[i] >= 0x80 && !SeparatorAt(e + rest, i)
    ensures Collapse(e + rest) == e + Collapse(rest)
  {
    if e == [] {
      assert e + rest == rest;
    } else {
      var s := e + rest;
      assert s[1..] == e[1..] + rest;
      forall i | 0 <= i < |e[1..]| ensures !SeparatorAt(e[1..] + rest, i) {
        assert !SeparatorAt(s, i + 1);
      }
      assert !SeparatorAt(s, 0);
      CollapseCopiesSequence(e[1..], rest);
      assert [e[0]] + (e[1..] + Collapse(rest)) == e + Collapse(rest);
    }
  }

  /** One code point that is no break is copied whole. */
  lemma CollapseCopiesPoint(c: CodePoint, rest: Bytes)
    requires !IsBreak(c)
    ensures Collapse(EncodeOne(c) + rest) == EncodeOne(c) + Collapse(rest)
  {
    var e := EncodeOne(c);
    var s := e + rest;
    assert s[0] == e[0];
    if c < 0x80 {
      assert s[1..] == rest;
    } else {
      forall i | 0 <= i < |e| ensures e[i] >= 0x80 && !SeparatorAt(s, i) {
        if SeparatorAt(s, i) {
          assert i == 0 && |e| == 3;
          assert s[1] == e[1] && s[2] == e[2];
          AssembleEncodeOne(c, s);
          assert false;
        }
      }
      CollapseCopiesSequence(e, rest);
    }
  }

  lemma CrLfEncoded(t: Text)
    requires |t| >= 2 && t[0] == 0x0D && t[1] == 0x0A
    ensures var s := Encode(t); CrLfAt(s, 0) && s[2..] == Encode(t[2..])
  {
    assert Encode(t[1..]) == EncodeOne(t[1]) + Encode(t[1..][1..]) && t[1..][1..] == t[2..];
    assert Encode(t) == [0x0D, 0x0A] + Encode(t[2..]);
  }

  lemma {:induction false} CollapseEncoded(t: Text)
    ensures Collapse(Encode(t)) == Encode(CollapseText(t))
    decreases |t|
  {
    if t != [] {
      var e := EncodeOne(t[0]);
      var rest := Encode(t[1..]);
      var s := e + rest;
      assert s[0] == e[0] && s[|e|..] == rest;
      CollapseEncoded(t[1..]);
      if |t| >= 2 && t[0] == 0x0D && t[1] == 0x0A {
        CollapseEncoded(t[2..]);
        CrLfEncoded(t);
        EncodeCons(TEXT_SPACE, CollapseText(t[2..]));
      } else if IsBreak(t[0]) {
        if t[0] == 0x0D && |t| >= 2 {
          assert rest == EncodeOne(t[1]) + Encode(t[1..][1..]);
          assert s[1] == EncodeOne(t[1])[0];
        }
        if t[0] >= 0x80 {
          assert e == [0xE2, 0x80, 0xA8] || e == [0xE2, 0x80, 0xA9];
          assert s[1] == e[1] && s[2] == e[2];
        }
        EncodeCons(TEXT_SPACE, CollapseText(t[1..]));
      } else {
        CollapseCopiesPoint(t[0], rest);
        EncodeCons(t[0], CollapseText(t[1..]));
      }
    }
  }

  lemma {:induction false} TrimLeftEncoded(t: Text)
    ensures TrimLeft(Encode(t), SPACE) == Encode(TrimLeft(t, TEXT_SPACE))
  {
    if t != [] {
      var s := Encode(t);
      assert s[0] == EncodeOne(t[0])[0];
      if t[0] == TEXT_SPACE {
        assert s[1..] == Encode(t[1..]);
        TrimLeftEncoded(t[1..]);
      }
    }
  }

  lemma EncodeLast(t: Text)
    requires t != []
    ensures var s, n := Encode(t), |t| - 1; var e := EncodeOne(t[n]);
            s == Encode(t[..n]) + e && s[|s| - 1] == e[|e| - 1] && (e[|e| - 1] == SPACE <==> t[n] == TEXT_SPACE)
  {
    EncodeSplit(t, |t| - 1);
  }

  lemma {:induction false} TrimRightEncoded(t: Text)
    ensures TrimRight(Encode(t), SPACE) == Encode(TrimRight(t, TEXT_SPACE))
  {
    if t != [] {
      hide Encode;
      var n := |t| - 1;
      var s := Encode(t);
      EncodeLast(t);
      if t[n] == TEXT_SPACE {
        assert s[..|s| - 1] == Encode(t[..n]);
        TrimRightEncoded(t[..n]);
      }
    }
  }

  /** A sequence that straddles the cap stops the walk-back at its first byte. */
  lemma WalkBackFinds(s: Bytes, at: nat, p: nat)
    requires p <= at < |s| && !IsContinuation(s[p])
    requires forall i :: p < i <= at ==> IsContinuation(s[i])
    ensures WalkBack(s, at) == p
  {
  }

  /** The last byte of an encoding is no lead byte. */
  lemma LastIsNoLead(t: Text)
    ensures var s := Encode(t); s != [] ==> !IsLead(s[|s| - 1])
  {
    if t != [] {
      var n := |t| - 1;
      EncodeSplit(t, n);
      var s, last := Encode(t), EncodeOne(t[n]);
      assert t[n + 1..] == [] && s[|s| - 1] == last[|last| - 1];
    }
  }

  /** On an encoding the cut falls between code points: the walk-back stops at the first
      byte of the code point that does not fit, within three bytes of the cap, and the
      byte before it is never a lead byte. */
  lemma CutOnEncoding(t: Text)
    requires |Encode(t)| > MAX_NOTE_BYTES
    ensures var s, n := Encode(t), Fitting(t, MAX_NOTE_BYTES);
            && s[..CutPoint(s)] == Encode(t[..n])
            && CutPoint(s) == WalkBack(s, MAX_NOTE_BYTES) >= MAX_NOTE_BYTES - 3
  {
    var s, n := Encode(t), Fitting(t, MAX_NOTE_BYTES);
    assert t[..|t|] == t;
    FittingIsLongest(t, MAX_NOTE_BYTES);
    EncodeSplit(t, n);
    var head, e := Encode(t[..n]), EncodeOne(t[n]);
    var p := |head|;
    assert s == head + (e + Encode(t[n + 1..]));
    assert forall i :: p <= i < p + |e| ==> s[i] == e[i - p];
    WalkBackFinds(s, MAX_NOTE_BYTES, p);
    LastIsNoLead(t[..n]);
    assert s[..p] == head;
    assert p > 0 ==> s[p - 1] == head[p - 1];
  }

  /** On valid UTF-8 the byte loop does what it says of the text: CR LF and every control
      or separator becomes one space, the edges are trimmed, and an over-long note keeps its
      longest prefix of whole code points within 1024 bytes, trimmed again. */
  lemma SanitiseEncoded(t: Text)
    ensures Sanitise(Encode(t)) == Encode(SanitiseText(t))
  {
    CollapseEncoded(t);
    var c := CollapseText(t);
    TrimLeftEncoded(c);
    var l := TrimLeft(c, TEXT_SPACE);
    TrimRightEncoded(l);
    var s := TrimRight(l, TEXT_SPACE);
    if |Encode(s)| > MAX_NOTE_BYTES {
      CutOnEncoding(s);
      TrimRightEncoded(s[..Fitting(s, MAX_NOTE_BYTES)]);
    }
  }

  /** A note in UTF-8 stays in UTF-8. */
  lemma SanitiseKeepsUtf8(note: Bytes)
    requires WellFormed(note)
    ensures WellFormed(Sanitise(note))
  {
    SanitiseEncoded(Points(note));
    WellFormedIffEncoding(Sanitise(note));
  }

  /** Does the text start with a byte order mark once leading spaces and breaks are gone? */
  predicate MarkFirst(t: Text) {
    t != [] && (t[0] == BOM || ((t[0] == TEXT_SPACE || IsBreak(t[0])) && MarkFirst(t[1..])))
  }

  lemma LeadingSpace(rest: Text)
    ensures TrimLeft([TEXT_SPACE] + rest, TEXT_SPACE) == TrimLeft(rest, TEXT_SPACE)
  {
    assert ([TEXT_SPACE] + rest)[1..] == rest;
  }

  /** How the collapsed text begins, and what is left of the text behind that. */
  lemma CollapsedHead(t: Text)
    requires t != []
    ensures var crlf := |t| >= 2 && t[0] == 0x0D && t[1] == 0x0A;
            var rest := if crlf then t[2..] else t[1..];
            CollapseText(t) == [if IsBreak(t[0]) then TEXT_SPACE else t[0]] + CollapseText(rest)
            && (IsBreak(t[0]) || t[0] == TEXT_SPACE ==> (MarkFirst(t) <==> MarkFirst(rest)))
  {
    if |t| >= 2 && t[0] == 0x0D && t[1] == 0x0A {
      assert t[1..][1..] == t[2..] && t[1..][0] == 0x0A;
    }
  }

  lemma {:induction false} MarkFirstCollapsed(t: Text)
    ensures StartsWithBom(TrimLeft(CollapseText(t), TEXT_SPACE)) <==> MarkFirst(t)
    decreases |t|
  {
    if t != [] {
      var rest := if |t| >= 2 && t[0] == 0x0D && t[1] == 0x0A then t[2..] else t[1..];
      CollapsedHead(t);
      if IsBreak(t[0]) || t[0] == TEXT_SPACE {
        LeadingSpace(CollapseText(rest));
        MarkFirstCollapsed(rest);
      }
    }
  }

  /** The sanitised text starts with a mark exactly when the text does behind its leading
      spaces and breaks: trimming behind it and the cap never reach it. */
  lemma MarkFirstSanitised(t: Text)
    ensures StartsWithBom(SanitiseText(t)) <==> MarkFirst(t)
  {
    MarkFirstCollapsed(t);
    var l := TrimLeft(CollapseText(t), TEXT_SPACE);
    var s := TrimRight(l, TEXT_SPACE);
    FirstStays(l);
    if |Encode(s)| > MAX_NOTE_BYTES {
      var cut := s[..Fitting(s, MAX_NOTE_BYTES)];
      FirstStays(cut);
      assert s != [] && cut != [] && cut[0] == s[0];
    }
  }

  lemma FirstStays(t: Text)
    requires t != [] ==> t[0] != TEXT_SPACE
    ensures var r := TrimRight(t, TEXT_SPACE); (r == [] <==> t == []) && (t != [] ==> r[0] == t[0])
  {
  }

  /** The walk-back takes at most three steps exactly when one of the four bytes it looks at
      is no continuation byte. */
  lemma WalkBackBoundedIff(s: Bytes)
    requires |s| > MAX_NOTE_BYTES
    ensures WalkBack(s, MAX_NOTE_BYTES) >= MAX_NOTE_BYTES - 3 <==>
            exists i :: MAX_NOTE_BYTES - 3 <= i <= MAX_NOTE_BYTES && !IsContinuation(s[i])
  {
    var r := WalkBack(s, MAX_NOTE_BYTES);
    assert r >= MAX_NOTE_BYTES - 3 ==> !IsContinuation(s[r]);
  }

  /** On bytes that are not UTF-8 the walk-back has no three-byte bound: a note of
      continuation bytes one longer than the cap is dropped whole. */
  lemma WalkBackUnboundedOffUtf8()
    ensures var s: Bytes := seq(MAX_NOTE_BYTES + 1, _ => 0x80);
            CutPoint(s) == 0 && Sanitise(s) == []
  {
    var s: Bytes := seq(MAX_NOTE_BYTES + 1, _ => 0x80);
    CollapseKeeps(s);
    assert CutPoint(s) == 0;
  }
}
