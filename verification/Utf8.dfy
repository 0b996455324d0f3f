/** Bytes, Unicode text and the UTF-8 codec of RFC 3629, section 3 and section 4.

  A `std::string` is `Bytes`; a well-formed `QString` is `Text`.  `Encode` is
  `QString::toStdString`; `Decode` is `QString::fromStdString`, which skips one byte order
  mark in front and replaces every byte that does not start a well-formed sequence by
  U+FFFD. */
module Utf8 {

  type Byte = b: int | 0 <= b < 0x100
  type Bytes = seq<Byte>

  /** A Unicode scalar value: a code point that is not a surrogate. */
  type CodePoint = c: int | 0 <= c < 0xD800 || 0xE000 <= c < 0x11_0000
  type Text = seq<CodePoint>

  const REPLACEMENT: CodePoint := 0xFFFD

  /** The top two bits are `10`. */
  predicate IsContinuation(b: Byte) { b / 0x40 == 2 }

  /** The top two bits are `11`. */
  predicate IsLead(b: Byte) { b / 0x40 == 3 }

  function EncodeOne(c: CodePoint): (r: Bytes)
    ensures 1 <= |r| <= 4
    ensures !IsContinuation(r[0]) && (IsLead(r[0]) <==> |r| > 1)
    ensures forall i :: 1 <= i < |r| ==> IsContinuation(r[i])
  {
    if c < 0x80 then
      [c]
    else if c < 0x800 then
      [0xC0 + c / 0x40, 0x80 + c % 0x40]
    else if c < 0x1_0000 then
      [0xE0 + c / 0x1000, 0x80 + c / 0x40 % 0x40, 0x80 + c % 0x40]
    else
      [0xF0 + c / 0x4_0000, 0x80 + c / 0x1000 % 0x40, 0x80 + c / 0x40 % 0x40, 0x80 + c % 0x40]
  }

  function Encode(t: Text): Bytes {
    if t == [] then [] else EncodeOne(t[0]) + Encode(t[1..])
  }

  /** The value carried by a sequence of `n` bytes at the start of `s`, well formed or not. */
  function Assemble(s: Bytes, n: nat): int
    requires 2 <= n <= 4 && n <= |s|
  {
    var b0: int, b1: int := s[0], s[1];
    if n == 2 then
      (b0 - 0xC0) * 0x40 + (b1 - 0x80)
    else
      var b2: int := s[2];
      if n == 3 then
        (b0 - 0xE0) * 0x1000 + (b1 - 0x80) * 0x40 + (b2 - 0x80)
      else
        var b3: int := s[3];
        (b0 - 0xF0) * 0x4_0000 + (b1 - 0x80) * 0x1000 + (b2 - 0x80) * 0x40 + (b3 - 0x80)
  }

  /** The length that the lead byte announces; 0 for a byte that cannot start a sequence. */
  function Announced(b: Byte): nat {
    if b < 0x80 then 1
    else if b < 0xC0 then 0
    else if b < 0xE0 then 2
    else if b < 0xF0 then 3
    else if b < 0xF8 then 4
    else 0
  }

  /** A complete multi-byte sequence at the start of `s`: continuation bytes in place,
      shortest form, no surrogate, nothing above U+10FFFF. */
  predicate WellFormedHead(s: Bytes)
    requires |s| > 0
  {
    var n := Announced(s[0]);
    && 2 <= n <= |s|
    && (forall i :: 1 <= i < n ==> IsContinuation(s[i]))
    && var c := Assemble(s, n);
       && (n == 2 ==> 0x80 <= c)
       && (n == 3 ==> 0x800 <= c && !(0xD800 <= c < 0xE000))
       && (n == 4 ==> 0x1_0000 <= c < 0x11_0000)
  }

  function HeadLength(s: Bytes): (n: nat)
    requires |s| > 0
    ensures 1 <= n <= |s|
  {
    if s[0] >= 0x80 && WellFormedHead(s) then Announced(s[0]) else 1
  }

  function HeadPoint(s: Bytes): CodePoint
    requires |s| > 0
  {
    if s[0] < 0x80 then s[0]
    else if WellFormedHead(s) then Assemble(s, Announced(s[0]))
    else REPLACEMENT
  }

  /** The examples of section 7 of RFC 3629. */
  lemma Examples()
    ensures EncodeOne(0x41) == [0x41] && EncodeOne(0x0391) == [0xCE, 0x91]
    ensures EncodeOne(0x2262) == [0xE2, 0x89, 0xA2] && EncodeOne(0x233B4) == [0xF0, 0xA3, 0x8E, 0xB4]
  {
  }

  function Points(s: Bytes): Text {
    if s == [] then [] else [HeadPoint(s)] + Points(s[HeadLength(s)..])
  }

  /** U+FEFF, and its encoding. */
  const BOM: CodePoint := 0xFEFF
  const BOM_BYTES: Bytes := [0xEF, 0xBB, 0xBF]

  predicate StartsWithBom(t: Text) { t != [] && t[0] == BOM }

  function Decode(s: Bytes): Text {
    if BOM_BYTES <= s then Points(s[3..]) else Points(s)
  }

  lemma Digits(c: nat)
    ensures c == c / 0x40 * 0x40 + c % 0x40
    ensures c / 0x40 / 0x40 == c / 0x1000
    ensures c / 0x1000 / 0x40 == c / 0x4_0000
  {
  }

  /** Assembling the encoding of a multi-byte code point gives the code point back. */
  lemma AssembleEncodeOne(c: CodePoint, s: Bytes)
    requires c >= 0x80 && EncodeOne(c) <= s
    ensures Announced(s[0]) == |EncodeOne(c)| && Assemble(s, |EncodeOne(c)|) == c
  {
    var e := EncodeOne(c);
    assert forall i :: 0 <= i < |e| ==> s[i] == e[i];
    Digits(c);
    Digits(c / 0x40);
    Digits(c / 0x1000);
  }

  lemma DecodeHead(c: CodePoint, rest: Bytes)
    ensures var s := EncodeOne(c) + rest;
            HeadPoint(s) == c && HeadLength(s) == |EncodeOne(c)|
  {
    var e := EncodeOne(c);
    var s := e + rest;
    assert s[0] == e[0];
    if c >= 0x80 {
      AssembleEncodeOne(c, s);
      assert forall i :: 1 <= i < |e| ==> s[i] == e[i];
      assert WellFormedHead(s);
    }
  }

  lemma {:induction false} PointsEncode(t: Text)
    ensures Points(Encode(t)) == t
  {
    if t != [] {
      var rest := Encode(t[1..]);
      DecodeHead(t[0], rest);
      assert (EncodeOne(t[0]) + rest)[|EncodeOne(t[0])|..] == rest;
      PointsEncode(t[1..]);
    }
  }

  lemma EncodeInjective(t: Text, u: Text)
    requires Encode(t) == Encode(u)
    ensures t == u
  {
    PointsEncode(t);
    PointsEncode(u);
  }

  /** The bytes of the mark start an encoding exactly when the mark starts the text. */
  lemma BomEncoded(t: Text)
    ensures BOM_BYTES <= Encode(t) <==> StartsWithBom(t)
    ensures StartsWithBom(t) ==> Encode(t) == BOM_BYTES + Encode(t[1..])
  {
    var s := Encode(t);
    if t != [] && BOM_BYTES <= s {
      assert s == BOM_BYTES + s[3..];
      assert EncodeOne(BOM) == BOM_BYTES;
      DecodeHead(BOM, s[3..]);
      DecodeHead(t[0], Encode(t[1..]));
    }
  }

  /** The way into a `std::string` and back loses a leading mark and nothing else. */
  lemma DecodeEncode(t: Text)
    ensures Decode(Encode(t)) == if StartsWithBom(t) then t[1..] else t
    ensures Decode(Encode(t)) == t <==> !StartsWithBom(t)
  {
    BomEncoded(t);
    PointsEncode(t);
    if StartsWithBom(t) {
      assert Encode(t)[3..] == Encode(t[1..]);
      PointsEncode(t[1..]);
    }
  }

  /** UTF-8: the encoding of some text. */
  predicate WellFormed(s: Bytes) { Encode(Points(s)) == s }

  lemma WellFormedIffEncoding(s: Bytes)
    ensures WellFormed(s) <==> exists t :: Encode(t) == s
  {
    if t :| Encode(t) == s {
      PointsEncode(t);
    }
  }

  /** The string survives the trip through `QString` and back. */
  predicate Valid(s: Bytes) { Encode(Decode(s)) == s }

  /** No string is the encoding of what follows its mark: it would start with marks
      without end. */
  lemma {:induction false} MarkIsLost(rest: Bytes)
    ensures Encode(Points(rest)) != BOM_BYTES + rest
    decreases |rest|
  {
    if Encode(Points(rest)) == BOM_BYTES + rest {
      BomEncoded(Points(rest));
      assert HeadPoint(rest) == BOM && rest[0] >= 0x80 && WellFormedHead(rest);
      BomHead(rest);
      assert Points(rest)[1..] == Points(rest[3..]);
      assert Encode(Points(rest[3..])) == (BOM_BYTES + rest)[3..];
      assert rest == BOM_BYTES + rest[3..];
      MarkIsLost(rest[3..]);
      assert false;
    }
  }

  lemma BomHead(s: Bytes)
    requires s != [] && s[0] >= 0x80 && WellFormedHead(s) && HeadPoint(s) == BOM
    ensures HeadLength(s) == 3 && BOM_BYTES <= s
  {
  }

  /** The strings that survive are exactly those in UTF-8 that do not start with the mark. */
  lemma ValidIff(s: Bytes)
    ensures Valid(s) <==> WellFormed(s) && !(BOM_BYTES <= s)
  {
    if BOM_BYTES <= s {
      MarkIsLost(s[3..]);
      assert s == BOM_BYTES + s[3..];
    }
  }

  /** ... the encodings of the texts that do not start with U+FEFF. */
  lemma ValidIffEncoding(s: Bytes)
    ensures Valid(s) <==> exists t :: Encode(t) == s && !StartsWithBom(t)
  {
    ValidIff(s);
    WellFormedIffEncoding(s);
    if Valid(s) {
      BomEncoded(Points(s));
    }
    if t :| Encode(t) == s && !StartsWithBom(t) {
      BomEncoded(t);
    }
  }

  lemma {:induction false} EncodeAppend(a: Text, b: Text)
    ensures Encode(a + b) == Encode(a) + Encode(b)
  {
    if a == [] {
      assert a + b == b;
    } else {
      assert (a + b)[1..] == a[1..] + b;
      EncodeAppend(a[1..], b);
    }
  }
}
