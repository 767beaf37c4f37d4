/** UTF-8 as in section 3 of RFC 3629, and what Rust's `str` says about byte offsets. */
module Utf8 {
  import opened Common

  function Utf8Len(c: char): (n: nat)
    ensures 1 <= n <= 4
  {
    var v := c as int;
    if v < 0x80 then 1 else if v < 0x800 then 2 else if v < 0x1_0000 then 3 else 4
  }

  function EncodeChar(c: char): (bs: seq<byte>)
    ensures |bs| == Utf8Len(c)
  {
    var v := c as int;
    if v < 0x80 then [v]
    else if v < 0x800 then [0xC0 + v / 0x40, 0x80 + v % 0x40]
    else if v < 0x1_0000 then [0xE0 + v / 0x1000, 0x80 + v / 0x40 % 0x40, 0x80 + v % 0x40]
    else [0xF0 + v / 0x4_0000, 0x80 + v / 0x1000 % 0x40, 0x80 + v / 0x40 % 0x40, 0x80 + v % 0x40]
  }

  function Encode(s: string): (bs: seq<byte>)
    ensures |bs| == ByteLen(s)
  {
    if s == [] then [] else EncodeChar(s[0]) + Encode(s[1..])
  }

  /** `str::len`. */
  function ByteLen(s: string): nat {
    if s == [] then 0 else Utf8Len(s[0]) + ByteLen(s[1..])
  }

  /** UTF-16 code units, the characters Telegram counts. */
  function Utf16Len(s: string): nat {
    if s == [] then 0 else (if s[0] as int < 0x1_0000 then 1 else 2) + Utf16Len(s[1..])
  }

  predicate IsContinuation(b: byte) {
    0x80 <= b < 0xC0
  }

  /** `str::is_char_boundary`, as the byte test Rust makes. */
  predicate IsCharBoundary(bs: seq<byte>, i: nat) {
    i == 0 || i == |bs| || (i < |bs| && !IsContinuation(bs[i]))
  }

  lemma {:induction false} ByteLenAppend(a: string, b: string)
    ensures ByteLen(a + b) == ByteLen(a) + ByteLen(b)
  {
    if a == [] {
      assert a + b == b;
    } else {
      assert (a + b)[1..] == a[1..] + b;
      ByteLenAppend(a[1..], b);
    }
  }

  lemma {:induction false} Utf16Fits(s: string)
    ensures Utf16Len(s) <= ByteLen(s)
  {
    if s != [] {
      Utf16Fits(s[1..]);
    }
  }

  /** The byte test finds exactly the offsets between characters. */
  lemma {:induction false} BoundaryIsPrefix(s: string, i: nat)
    requires i <= ByteLen(s)
    ensures IsCharBoundary(Encode(s), i) <==> exists k: nat :: k <= |s| && ByteLen(s[..k]) == i
  {
    if i == 0 {
      assert s[..0] == [];
    } else if s != [] {
      var n, bs := Utf8Len(s[0]), Encode(s);
      if i < n {
        assert bs[i] == EncodeChar(s[0])[i] && IsContinuation(bs[i]);
        forall k: nat | k <= |s| ensures ByteLen(s[..k]) != i {
          if k > 0 { assert s[..k] == [s[0]] + s[1..][..k - 1]; ByteLenAppend([s[0]], s[1..][..k - 1]); }
        }
      } else {
        BoundaryIsPrefix(s[1..], i - n);
        ShiftBoundary(s, i);
        ShiftPrefix(s, i);
      }
    }
  }

  lemma {:induction false} ShiftBoundary(s: string, i: nat)
    requires s != [] && Utf8Len(s[0]) <= i <= ByteLen(s)
    ensures IsCharBoundary(Encode(s), i) <==> IsCharBoundary(Encode(s[1..]), i - Utf8Len(s[0]))
  {
    var n, rest := Utf8Len(s[0]), Encode(s[1..]);
    assert Encode(s) == EncodeChar(s[0]) + rest;
    if i == n && rest != [] {
      FirstByteLeads(s[1..]);
    }
  }

  lemma {:induction false} FirstByteLeads(s: string)
    requires s != []
    ensures !IsContinuation(Encode(s)[0])
  {
    assert Encode(s)[0] == EncodeChar(s[0])[0];
  }

  lemma ShiftPrefix(s: string, i: nat)
    requires s != [] && Utf8Len(s[0]) <= i
    ensures (exists k: nat :: k <= |s| && ByteLen(s[..k]) == i) <==>
            (exists k: nat :: k <= |s[1..]| && ByteLen(s[1..][..k]) == i - Utf8Len(s[0]))
  {
    if k: nat :| k <= |s| && ByteLen(s[..k]) == i {
      assert k > 0 && s[..k][1..] == s[1..][..k - 1];
      assert ByteLen(s[1..][..k - 1]) == i - Utf8Len(s[0]);
    }
    if k: nat :| k <= |s[1..]| && ByteLen(s[1..][..k]) == i - Utf8Len(s[0]) {
      assert s[..k + 1][1..] == s[1..][..k];
      assert ByteLen(s[..k + 1]) == i;
    }
  }

  // -- validity of byte strings, the grammar of section 4 of RFC 3629 -----------------------------

  /** Length of the well-formed character at the front of `bs`, or 0 if there is none. */
  function CharWidth(bs: seq<byte>): (n: nat)
    ensures n <= |bs|
  {
    if bs == [] then 0
    else if bs[0] < 0x80 then 1
    else if 0xC2 <= bs[0] <= 0xDF && |bs| >= 2 && IsContinuation(bs[1]) then 2
    else if |bs| >= 3 && IsContinuation(bs[1]) && IsContinuation(bs[2])
            && ((bs[0] == 0xE0 && bs[1] >= 0xA0) || 0xE1 <= bs[0] <= 0xEC || (bs[0] == 0xED && bs[1] <= 0x9F)
                || 0xEE <= bs[0] <= 0xEF) then 3
    else if |bs| >= 4 && IsContinuation(bs[1]) && IsContinuation(bs[2]) && IsContinuation(bs[3])
            && ((bs[0] == 0xF0 && bs[1] >= 0x90) || 0xF1 <= bs[0] <= 0xF3 || (bs[0] == 0xF4 && bs[1] <= 0x8F)) then 4
    else 0
  }

  /** `str::from_utf8` succeeds. */
  predicate IsUtf8(bs: seq<byte>) {
    bs == [] || (CharWidth(bs) > 0 && IsUtf8(bs[CharWidth(bs)..]))
  }

  lemma WidthOfEncoded(c: char, rest: seq<byte>)
    ensures CharWidth(EncodeChar(c) + rest) == Utf8Len(c)
  {
    var v, bs := c as int, EncodeChar(c) + rest;
    assert bs[..Utf8Len(c)] == EncodeChar(c);
    assert forall i :: 0 <= i < Utf8Len(c) ==> bs[i] == EncodeChar(c)[i];
  }

  /** Every string's encoding is valid. */
  lemma {:induction false} EncodedIsUtf8(s: string)
    ensures IsUtf8(Encode(s))
  {
    if s != [] {
      EncodedIsUtf8(s[1..]);
      WidthOfEncoded(s[0], Encode(s[1..]));
      assert Encode(s)[Utf8Len(s[0])..] == Encode(s[1..]);
    }
  }

  /** ASCII in front of valid text is valid text. */
  lemma {:induction false} AsciiPrefix(a: seq<byte>, bs: seq<byte>)
    requires forall i :: 0 <= i < |a| ==> a[i] < 0x80
    requires IsUtf8(bs)
    ensures IsUtf8(a + bs)
  {
    if a == [] {
      assert a + bs == bs;
    } else {
      AsciiPrefix(a[1..], bs);
      assert (a + bs)[1..] == a[1..] + bs;
    }
  }

  // -- and back: valid bytes are the encoding of some text -------------------------------------------

  lemma TwoBytes(a: byte, b: byte) returns (c: char)
    requires 0xC2 <= a <= 0xDF && IsContinuation(b)
    ensures EncodeChar(c) == [a, b]
  {
    var v: int := 0x40 * (a as int - 0xC0) + (b as int - 0x80);
    assert v / 0x40 == a - 0xC0 && v % 0x40 == b - 0x80;
    c := v as char;
  }

  lemma ThreeBytes(a: byte, b: byte, d: byte) returns (c: char)
    requires IsContinuation(b) && IsContinuation(d)
    requires (a == 0xE0 && b >= 0xA0) || 0xE1 <= a <= 0xEC || (a == 0xED && b <= 0x9F) || 0xEE <= a <= 0xEF
    ensures EncodeChar(c) == [a, b, d]
  {
    var v: int := 0x1000 * (a as int - 0xE0) + 0x40 * (b as int - 0x80) + (d as int - 0x80);
    assert v / 0x40 == 0x40 * (a as int - 0xE0) + (b as int - 0x80) && v % 0x40 == d as int - 0x80;
    assert v / 0x1000 == a as int - 0xE0;
    c := v as char;
  }

  lemma FourBytes(a: byte, b: byte, d: byte, f: byte) returns (c: char)
    requires IsContinuation(b) && IsContinuation(d) && IsContinuation(f)
    requires (a == 0xF0 && b >= 0x90) || 0xF1 <= a <= 0xF3 || (a == 0xF4 && b <= 0x8F)
    ensures EncodeChar(c) == [a, b, d, f]
  {
    var v: int := 0x4_0000 * (a as int - 0xF0) + 0x1000 * (b as int - 0x80) + 0x40 * (d as int - 0x80)
                  + (f as int - 0x80);
    assert v / 0x40 == 0x1000 * (a as int - 0xF0) + 0x40 * (b as int - 0x80) + (d as int - 0x80);
    assert v % 0x40 == f as int - 0x80;
    assert v / 0x1000 == 0x40 * (a as int - 0xF0) + (b as int - 0x80);
    assert v / 0x4_0000 == a as int - 0xF0;
    c := v as char;
  }

  /** The character a well-formed front of `bs` encodes. */
  lemma FirstCharacter(bs: seq<byte>) returns (c: char)
    requires CharWidth(bs) > 0
    ensures EncodeChar(c) == bs[..CharWidth(bs)]
  {
    hide EncodeChar;
    var n := CharWidth(bs);
    if n == 1 {
      c := OneByte(bs[0]);
      assert bs[..1] == [bs[0]];
    } else if n == 2 {
      c := TwoBytes(bs[0], bs[1]);
      assert bs[..2] == [bs[0], bs[1]];
    } else if n == 3 {
      c := ThreeBytes(bs[0], bs[1], bs[2]);
      assert bs[..3] == [bs[0], bs[1], bs[2]];
    } else {
      c := FourBytes(bs[0], bs[1], bs[2], bs[3]);
      assert bs[..4] == [bs[0], bs[1], bs[2], bs[3]];
    }
  }

  lemma OneByte(a: byte) returns (c: char)
    requires a < 0x80
    ensures EncodeChar(c) == [a]
  {
    c := a as char;
  }

  lemma {:induction false} EncodeCons(c: char, rest: string)
    ensures Encode([c] + rest) == EncodeChar(c) + Encode(rest)
  {
    assert ([c] + rest)[1..] == rest;
  }

  lemma {:induction false} Decodes(bs: seq<byte>) returns (s: string)
    requires IsUtf8(bs)
    ensures Encode(s) == bs
    decreases |bs|
  {
    s := [];
    if bs != [] {
      hide EncodeChar, Encode, CharWidth;
      var n := CharWidth(bs);
      var c := FirstCharacter(bs);
      var rest := Decodes(bs[n..]);
      EncodeCons(c, rest);
      s := [c] + rest;
    }
  }

  /** Bytes are accepted exactly when they are the encoding of some text. */
  lemma {:induction false} Utf8Exactly(bs: seq<byte>)
    ensures IsUtf8(bs) <==> exists s :: bs == Encode(s)
  {
    if s :| bs == Encode(s) {
      EncodedIsUtf8(s);
    }
    if IsUtf8(bs) {
      var s := Decodes(bs);
    }
  }
}
