/** UTF-8 (sections 3 and 4 of RFC 3629): strings as bytes, and the characters they spell. */
module Utf8 {

  type byte = x: int | 0 <= x < 0x100

  /** A Unicode scalar value. */
  type scalar = x: int | 0 <= x < 0xD800 || 0xE000 <= x < 0x11_0000

  function EncodeChar(c: scalar): (r: seq<byte>)
    ensures 1 <= |r| <= 4
  {
    if c < 0x80 then [c]
    else if c < 0x800 then [0xC0 + c / 0x40, 0x80 + c % 0x40]
    else if c < 0x1_0000 then [0xE0 + c / 0x40 / 0x40, 0x80 + c / 0x40 % 0x40, 0x80 + c % 0x40]
    else [0xF0 + c / 0x40 / 0x40 / 0x40, 0x80 + c / 0x40 / 0x40 % 0x40, 0x80 + c / 0x40 % 0x40, 0x80 + c % 0x40]
  }

  function Encode(cs: seq<scalar>): seq<byte> {
    if cs == [] then [] else EncodeChar(cs[0]) + Encode(cs[1..])
  }

  predicate IsContinuation(b: byte) {
    0x80 <= b < 0xC0
  }

  /** How many bytes the character starting with this byte takes; 0 if none starts with it. */
  function Width(b: byte): (w: nat)
    ensures w <= 4
  {
    if b < 0x80 then 1
    else if b < 0xC0 then 0
    else if b < 0xE0 then 2
    else if b < 0xF0 then 3
    else if b < 0xF8 then 4
    else 0
  }

  /** Append the six payload bits of a continuation byte. */
  function Push6(bits: int, b: int): int {
    bits * 0x40 + (b - 0x80)
  }

  /** The payload bits of the first character. */
  function HeadBits(s: seq<byte>): int
    requires |s| > 0 && 0 < Width(s[0]) <= |s|
  {
    var b: int := s[0];
    match Width(s[0])
    case 1 => b
    case 2 => Push6(b - 0xC0, s[1])
    case 3 => Push6(Push6(b - 0xE0, s[1]), s[2])
    case _ => Push6(Push6(Push6(b - 0xF0, s[1]), s[2]), s[3])
  }

  predicate IsScalar(x: int) {
    0 <= x < 0xD800 || 0xE000 <= x < 0x11_0000
  }

  /** `s` starts with one well-formed character: continuation bytes where they belong, a scalar value,
      and the shortest form. */
  predicate HeadOk(s: seq<byte>)
    ensures HeadOk(s) ==> |s| > 0 && 0 < Width(s[0]) <= |s|
  {
    && |s| > 0
    && 0 < Width(s[0]) <= |s|
    && (forall i :: 1 <= i < Width(s[0]) ==> IsContinuation(s[i]))
    && IsScalar(HeadBits(s))
    && HeadBits(s) >= [0, 0, 0x80, 0x800, 0x1_0000][Width(s[0])]
  }

  predicate IsUtf8(s: seq<byte>) {
    s == [] || (HeadOk(s) && IsUtf8(s[Width(s[0])..]))
  }

  /** The characters a string spells. */
  function Chars(s: seq<byte>): (r: seq<scalar>)
    requires IsUtf8(s)
    ensures |r| <= |s|
    ensures s != [] ==> r != []
  {
    if s == [] then [] else [HeadBits(s) as scalar] + Chars(s[Width(s[0])..])
  }

  lemma PushSplit(c: nat)
    ensures Push6(c / 0x40, 0x80 + c % 0x40) == c
    ensures IsContinuation(0x80 + c % 0x40)
  {
  }

  lemma SplitPush(bits: nat, b: byte)
    requires IsContinuation(b)
    ensures Push6(bits, b) / 0x40 == bits && 0x80 + Push6(bits, b) % 0x40 == b
  {
  }

  /** Decoding inverts encoding, whatever follows. */
  lemma HeadOfEncoded(c: scalar, t: seq<byte>)
    ensures var s := EncodeChar(c) + t;
      HeadOk(s) && HeadBits(s) == c && Width(s[0]) == |EncodeChar(c)| && s[Width(s[0])..] == t
  {
    var e := EncodeChar(c);
    EncodedHead(c);
    HeadOfConcat(e, t);
    assert e[|e|..] + t == t;
  }

  lemma EncodedHead(c: scalar)
    ensures var e := EncodeChar(c); HeadOk(e) && HeadBits(e) == c && Width(e[0]) == |e|
  {
    PushSplit(c);
    if c >= 0x800 {
      PushSplit(c / 0x40);
    }
    if c >= 0x1_0000 {
      PushSplit(c / 0x40 / 0x40);
    }
  }

  lemma HeadIsEncoded(s: seq<byte>)
    requires HeadOk(s)
    ensures s[..Width(s[0])] == EncodeChar(HeadBits(s) as scalar)
  {
    var w, c := Width(s[0]), HeadBits(s);
    match w
    case 1 =>
      assert s[..w] == [s[0]];
    case 2 =>
      assert s[..w] == [s[0], s[1]];
      EncodeTwo(s[0], s[1]);
    case 3 =>
      assert s[..w] == [s[0], s[1], s[2]];
      EncodeThree(s[0], s[1], s[2]);
    case _ =>
      assert s[..w] == [s[0], s[1], s[2], s[3]];
      EncodeFour(s[0], s[1], s[2], s[3]);
  }

  lemma EncodeTwo(b0: int, b1: byte)
    requires 0xC0 <= b0 < 0xE0 && IsContinuation(b1) && Push6(b0 - 0xC0, b1) >= 0x80
    ensures EncodeChar(Push6(b0 - 0xC0, b1)) == [b0, b1]
  {
    SplitPush(b0 - 0xC0, b1);
  }

  lemma EncodeThree(b0: int, b1: byte, b2: byte)
    requires 0xE0 <= b0 < 0xF0 && IsContinuation(b1) && IsContinuation(b2)
    requires IsScalar(Push6(Push6(b0 - 0xE0, b1), b2)) && Push6(Push6(b0 - 0xE0, b1), b2) >= 0x800
    ensures EncodeChar(Push6(Push6(b0 - 0xE0, b1), b2)) == [b0, b1, b2]
  {
    SplitPush(b0 - 0xE0, b1);
    SplitPush(Push6(b0 - 0xE0, b1), b2);
  }

  lemma EncodeFour(b0: int, b1: byte, b2: byte, b3: byte)
    requires 0xF0 <= b0 < 0xF8 && IsContinuation(b1) && IsContinuation(b2) && IsContinuation(b3)
    requires IsScalar(Push6(Push6(Push6(b0 - 0xF0, b1), b2), b3))
    requires Push6(Push6(Push6(b0 - 0xF0, b1), b2), b3) >= 0x1_0000
    ensures EncodeChar(Push6(Push6(Push6(b0 - 0xF0, b1), b2), b3)) == [b0, b1, b2, b3]
  {
    SplitPush(b0 - 0xF0, b1);
    SplitPush(Push6(b0 - 0xF0, b1), b2);
    SplitPush(Push6(Push6(b0 - 0xF0, b1), b2), b3);
  }

  lemma {:induction false} CharsOfEncoded(cs: seq<scalar>)
    ensures IsUtf8(Encode(cs)) && Chars(Encode(cs)) == cs
  {
    if cs != [] {
      CharsOfEncoded(cs[1..]);
      HeadOfEncoded(cs[0], Encode(cs[1..]));
    }
  }

  lemma HeadOfConcat(a: seq<byte>, b: seq<byte>)
    requires HeadOk(a)
    ensures HeadOk(a + b) && HeadBits(a + b) == HeadBits(a) && (a + b)[Width(a[0])..] == a[Width(a[0])..] + b
  {
    assert forall i :: 0 <= i < |a| ==> (a + b)[i] == a[i];
  }

  /** One character on its own. */
  predicate OneChar(h: seq<byte>) {
    HeadOk(h) && |h| == Width(h[0])
  }

  lemma Prepend(h: seq<byte>, t: seq<byte>)
    requires OneChar(h) && IsUtf8(t)
    ensures IsUtf8(h) && Chars(h) == [HeadBits(h) as scalar]
    ensures IsUtf8(h + t) && Chars(h + t) == Chars(h) + Chars(t)
  {
    HeadOfConcat(h, t);
    hide HeadOk, HeadBits, Width;
    assert h[Width(h[0])..] == [] && [] + t == t;
    assert (h + t)[0] == h[0];
  }

  lemma SplitHead(s: seq<byte>) returns (h: seq<byte>, t: seq<byte>)
    requires IsUtf8(s) && s != []
    ensures s == h + t && OneChar(h) && |h| > 0 && IsUtf8(h) && IsUtf8(t)
    ensures Chars(s) == Chars(h) + Chars(t) && h == EncodeChar(Chars(s)[0]) && Chars(t) == Chars(s)[1..]
  {
    var w := Width(s[0]);
    h, t := s[..w], s[w..];
    HeadIsEncoded(s);
    HeadAlone(s);
    Prepend(h, t);
  }

  lemma HeadAlone(s: seq<byte>)
    requires HeadOk(s)
    ensures OneChar(s[..Width(s[0])]) && HeadBits(s[..Width(s[0])]) == HeadBits(s)
  {
    var h := s[..Width(s[0])];
    assert forall j :: 0 <= j < |h| ==> h[j] == s[j];
  }

  lemma {:induction false} EncodedChars(s: seq<byte>)
    requires IsUtf8(s)
    ensures Encode(Chars(s)) == s
    decreases |s|
  {
    hide IsUtf8, Chars, OneChar, EncodeChar;
    if s == [] {
      EmptyChars();
    } else {
      var h, t := SplitHead(s);
      EncodedChars(t);
    }
  }

  lemma EmptyChars()
    ensures IsUtf8([]) && Chars([]) == []
  {
  }

  lemma {:induction false} CharsConcat(a: seq<byte>, b: seq<byte>)
    requires IsUtf8(a) && IsUtf8(b)
    ensures IsUtf8(a + b) && Chars(a + b) == Chars(a) + Chars(b)
    decreases |a|
  {
    hide IsUtf8, Chars, OneChar;
    if a == [] {
      EmptyChars();
      assert a + b == b;
    } else {
      var h, t := SplitHead(a);
      CharsConcat(t, b);
      Prepend(h, t + b);
      assert h + (t + b) == a + b;
    }
  }

  /** The offsets `str` may be cut at: those not in front of a continuation byte. */
  predicate IsBoundary(s: seq<byte>, i: nat) {
    i <= |s| && (i == |s| || !IsContinuation(s[i]))
  }

  /** Self-synchronisation: one byte tells whether an offset lies between two characters. */
  lemma CutAtBoundary(s: seq<byte>, i: nat)
    requires IsUtf8(s) && IsBoundary(s, i)
    ensures IsUtf8(s[..i]) && IsUtf8(s[i..])
    ensures Chars(s) == Chars(s[..i]) + Chars(s[i..])
  {
    var a, b := Cut(s, i);
    assert a == s[..i] && b == s[i..];
  }

  lemma {:induction false} Cut(s: seq<byte>, i: nat) returns (a: seq<byte>, b: seq<byte>)
    requires IsUtf8(s) && IsBoundary(s, i)
    ensures s == a + b && |a| == i && IsUtf8(a) && IsUtf8(b)
    ensures Chars(s) == Chars(a) + Chars(b)
    decreases |s|
  {
    hide IsUtf8, Chars, OneChar;
    if i == 0 {
      EmptyChars();
      a, b := [], s;
    } else {
      var h, t := SplitHead(s);
      NoBoundaryInside(s, h, t, i);
      var a', b' := Cut(t, i - |h|);
      Prepend(h, a');
      a, b := h + a', b';
    }
  }

  lemma NoBoundaryInside(s: seq<byte>, h: seq<byte>, t: seq<byte>, i: nat)
    requires s == h + t && OneChar(h) && 0 < i && IsBoundary(s, i)
    ensures i >= |h| && IsBoundary(t, i - |h|)
  {
    assert forall j :: 0 <= j < |h| ==> s[j] == h[j];
    assert i >= |h| && i < |s| ==> s[i] == t[i - |h|];
  }

  /** Conversely, a prefix of a string that is itself a string ends at a boundary. */
  lemma PrefixEndsAtBoundary(s: seq<byte>, i: nat)
    requires IsUtf8(s) && i <= |s| && IsUtf8(s[i..])
    ensures IsBoundary(s, i)
  {
    if i < |s| {
      assert HeadOk(s[i..]) && s[i..][0] == s[i];
    }
  }

  lemma CharsInjective(a: seq<byte>, b: seq<byte>)
    requires IsUtf8(a) && IsUtf8(b) && Chars(a) == Chars(b)
    ensures a == b
  {
    EncodedChars(a);
    EncodedChars(b);
  }

  predicate IsAscii(s: seq<byte>) {
    forall i :: 0 <= i < |s| ==> s[i] < 0x80
  }

  /** ASCII bytes are their own characters. */
  lemma {:induction false} AsciiChars(s: seq<byte>)
    requires IsAscii(s)
    ensures IsUtf8(s) && |Chars(s)| == |s| && forall i :: 0 <= i < |s| ==> Chars(s)[i] == s[i]
  {
    if s != [] {
      assert IsAscii(s[1..]);
      AsciiChars(s[1..]);
    }
  }

  /** A string has as many characters as bytes only if it is ASCII. */
  lemma {:induction false} CharCountIsByteCount(s: seq<byte>)
    requires IsUtf8(s)
    ensures |Chars(s)| == |s| <==> IsAscii(s)
  {
    if IsAscii(s) {
      AsciiChars(s);
    }
    if s != [] {
      var w := Width(s[0]);
      CharCountIsByteCount(s[w..]);
      if |Chars(s)| == |s| {
        assert w == 1;
        assert forall i :: 0 <= i < |s| ==> s[i] == if i == 0 then s[0] else s[1..][i - 1];
      }
    }
  }

  /** A string with an ASCII prefix cut off. */
  lemma CutAscii(s: seq<byte>, n: nat)
    requires IsUtf8(s) && n <= |s| && IsAscii(s[..n])
    ensures IsBoundary(s, n) && IsUtf8(s[..n]) && IsUtf8(s[n..]) && Chars(s) == Chars(s[..n]) + Chars(s[n..])
    ensures |Chars(s[..n])| == n && forall i :: 0 <= i < n ==> Chars(s)[i] == s[i]
  {
    AsciiChars(s[..n]);
    AsciiBoundary(s, n);
    CutAtBoundary(s, n);
    assert forall i :: 0 <= i < n ==> s[..n][i] == s[i];
  }

  lemma {:induction false} AsciiBoundary(s: seq<byte>, n: nat)
    requires IsUtf8(s) && n <= |s| && forall i :: 0 <= i < n ==> s[i] < 0x80
    ensures IsBoundary(s, n)
    decreases n
  {
    if n > 0 {
      AsciiBoundary(s[1..], n - 1);
    } else if |s| > 0 {
      assert HeadOk(s);
    }
  }

  /** Characters of one to four bytes among the examples of section 7 of RFC 3629. */
  lemma RfcExamples()
    ensures EncodeChar(0x41) == [0x41] && EncodeChar(0x2E) == [0x2E]
    ensures EncodeChar(0x391) == [0xCE, 0x91]
    ensures EncodeChar(0x2262) == [0xE2, 0x89, 0xA2] && EncodeChar(0xD55C) == [0xED, 0x95, 0x9C]
    ensures EncodeChar(0x65E5) == [0xE6, 0x97, 0xA5] && EncodeChar(0xFEFF) == [0xEF, 0xBB, 0xBF]
    ensures EncodeChar(0x233B4) == [0xF0, 0xA3, 0x8E, 0xB4]
  {
  }
}
