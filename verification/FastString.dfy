/** String operations that index by character and skip ASCII quickly (starlark_syntax/src/fast_string.rs,
    starlark_syntax/src/convert_indices.rs).  A `&str` is its UTF-8 bytes; the specification is its characters. */
module FastString {
  import opened Options
  import opened Utf8

  // ---- bit tests ----

  predicate Is1Byte(x: byte) {
    x as bv8 & 0x80 == 0
  }

  predicate Is1Bytes(x: bv64) {
    x & 0x8080_8080_8080_8080 == 0
  }

  /** Eight bytes read as one word, lowest first. */
  function Load64(s: seq<byte>): bv64
    requires |s| == 8
  {
    Pack(s[0] as bv8, s[1] as bv8, s[2] as bv8, s[3] as bv8, s[4] as bv8, s[5] as bv8, s[6] as bv8, s[7] as bv8)
  }

  function Pack(b0: bv8, b1: bv8, b2: bv8, b3: bv8, b4: bv8, b5: bv8, b6: bv8, b7: bv8): bv64 {
    (b0 as bv64) | ((b1 as bv64) << 8) | ((b2 as bv64) << 16) | ((b3 as bv64) << 24) |
    ((b4 as bv64) << 32) | ((b5 as bv64) << 40) | ((b6 as bv64) << 48) | ((b7 as bv64) << 56)
  }

  lemma PackTest(b0: bv8, b1: bv8, b2: bv8, b3: bv8, b4: bv8, b5: bv8, b6: bv8, b7: bv8)
    ensures Is1Bytes(Pack(b0, b1, b2, b3, b4, b5, b6, b7)) <==>
      && b0 & 0x80 == 0 && b1 & 0x80 == 0 && b2 & 0x80 == 0 && b3 & 0x80 == 0
      && b4 & 0x80 == 0 && b5 & 0x80 == 0 && b6 & 0x80 == 0 && b7 & 0x80 == 0
  {
  }

  lemma Is1ByteMeansAscii(b: byte)
    ensures Is1Byte(b) <==> b < 0x80
  {
  }

  /** One masked word test is eight byte tests. */
  lemma Is1BytesMeansAscii(s: seq<byte>)
    requires |s| == 8
    ensures Is1Bytes(Load64(s)) <==> IsAscii(s)
  {
    PackTest(s[0] as bv8, s[1] as bv8, s[2] as bv8, s[3] as bv8, s[4] as bv8, s[5] as bv8, s[6] as bv8, s[7] as bv8);
    forall i | 0 <= i < 8 ensures Is1Byte(s[i]) <==> s[i] < 0x80 {
      Is1ByteMeansAscii(s[i]);
    }
    assert IsAscii(s) <==>
      && s[0] < 0x80 && s[1] < 0x80 && s[2] < 0x80 && s[3] < 0x80
      && s[4] < 0x80 && s[5] < 0x80 && s[6] < 0x80 && s[7] < 0x80;
  }

  // ---- skipping ----

  function Min(a: nat, b: nat): nat {
    if a < b then a else b
  }

  /** Skip at most `n` one-byte characters; `alignOffset` is what `align_offset(8)` answers for the pointer.
      Single bytes up to the alignment, then eight at a time, then single bytes again. */
  method SkipAtMost1Byte(x: seq<byte>, n: nat, alignOffset: nat) returns (p: nat)
    requires n <= |x|
    ensures p <= n && IsAscii(x[..p])
  {
    p := 0;
    if n == 0 {
      return;
    }
    var leading := Min(alignOffset, n);
    var trailing := (n - leading) % 8;
    var loops := (n - leading) / 8;
    var done;
    p, done := SkipSingles(x, 0, leading);
    if !done {
      return;
    }
    var k := 0;
    while k < loops
      invariant k <= loops && p == leading + 8 * k && IsAscii(x[..p])
    {
      assert p + 8 <= n;
      Is1BytesMeansAscii(x[p..p + 8]);
      if !Is1Bytes(Load64(x[p..p + 8])) {
        return;
      }
      assert x[..p + 8] == x[..p] + x[p..p + 8];
      p := p + 8;
      k := k + 1;
    }
    assert p + trailing == n;
    p, done := SkipSingles(x, p, trailing);
  }

  /** Step over up to `count` single bytes from `start`; `done` if none of them stopped it. */
  method SkipSingles(x: seq<byte>, start: nat, count: nat) returns (p: nat, done: bool)
    requires start + count <= |x| && IsAscii(x[..start])
    ensures start <= p <= start + count && IsAscii(x[..p])
    ensures done ==> p == start + count
  {
    p := start;
    while p < start + count
      invariant start <= p <= start + count && IsAscii(x[..p])
    {
      Is1ByteMeansAscii(x[p]);
      if !Is1Byte(x[p]) {
        return p, false;
      }
      assert x[..p + 1] == x[..p] + [x[p]];
      p := p + 1;
    }
    done := true;
  }

  // ---- the standard library's character iterator ----

  /** `Chars::next`: the first character and what follows it. */
  function NextChar(s: seq<byte>): (r: Option<(scalar, seq<byte>)>)
    requires IsUtf8(s)
    ensures r == None <==> s == []
    ensures r.Some? ==> IsUtf8(r.value.1) && Chars(s) == [r.value.0] + Chars(r.value.1) && |r.value.1| < |s|
    ensures r.Some? ==> r.value.1 == s[|s| - |r.value.1|..]
  {
    if s == [] then None else Some((HeadBits(s) as scalar, s[Width(s[0])..]))
  }

  /** Advance an iterator `k` times, or until it ends. */
  method Advance(s: seq<byte>, k: nat) returns (rest: seq<byte>, ended: bool, ghost passed: seq<byte>)
    requires IsUtf8(s)
    ensures ended <==> |Chars(s)| < k
    ensures !ended ==> IsSplit(s, k, passed, rest)
  {
    hide IsUtf8, Chars;
    rest, ended, passed := s, false, [];
    EmptyChars();
    var i := 0;
    while i < k
      invariant i <= k && !ended && IsSplit(s, i, passed, rest)
    {
      var c := NextChar(rest);
      if c == None {
        EmptyChars();
        return rest, true, passed;
      }
      ghost var head := rest[..|rest| - |c.value.1|];
      PassOne(s, i, passed, rest, head, c.value.0, c.value.1);
      rest, passed := c.value.1, passed + head;
      i := i + 1;
    }
  }

  /** Moving one character across the split. */
  lemma PassOne(s: seq<byte>, i: nat, a: seq<byte>, b: seq<byte>, head: seq<byte>, c: scalar, t: seq<byte>)
    requires IsUtf8(s) && IsSplit(s, i, a, b) && b == head + t
    requires IsUtf8(t) && Chars(b) == [c] + Chars(t)
    ensures IsSplit(s, i + 1, a + head, t)
  {
    hide IsUtf8, Chars, IsBoundary;
    HeadByItself(b, head, t);
    CharsConcat(a, head);
    SplitLengths([c] + Chars(t), Chars(head), Chars(t), 1);
    NextSplit(Chars(s), i, Chars(a), Chars(b), c, Chars(t));
  }

  /** A prefix of a string is a string if the rest is. */
  lemma HeadByItself(b: seq<byte>, head: seq<byte>, t: seq<byte>)
    requires IsUtf8(b) && b == head + t && IsUtf8(t)
    ensures IsUtf8(head) && Chars(b) == Chars(head) + Chars(t)
  {
    hide IsUtf8, Chars, IsBoundary;
    assert b[|head|..] == t && b[..|head|] == head;
    PrefixEndsAtBoundary(b, |head|);
    CutAtBoundary(b, |head|);
  }

  lemma NextSplit<T>(s: seq<T>, i: nat, a: seq<T>, b: seq<T>, c: T, t: seq<T>)
    requires i <= |s| && a == s[..i] && b == s[i..] && b == [c] + t
    ensures i + 1 <= |s| && a + [c] == s[..i + 1] && t == s[i + 1..]
  {
    assert t == b[1..];
  }

  lemma SplitLengths<T>(all: seq<T>, a: seq<T>, b: seq<T>, i: nat)
    requires all == a + b && i <= |all| && b == all[i..]
    ensures a == all[..i]
  {
    assert |a| == i;
  }

  /** The two halves of `x` around character `i`. */
  ghost predicate IsSplit(x: seq<byte>, i: nat, before: seq<byte>, after: seq<byte>)
    requires IsUtf8(x)
  {
    && x == before + after
    && IsUtf8(before) && IsUtf8(after)
    && i <= |Chars(x)|
    && Chars(before) == Chars(x)[..i] && Chars(after) == Chars(x)[i..]
  }

  /** `chars().count()` */
  method CountChars(s: seq<byte>) returns (n: nat)
    requires IsUtf8(s)
    ensures n == |Chars(s)|
  {
    n := 0;
    var rest := s;
    while rest != []
      invariant IsUtf8(rest) && n + |Chars(rest)| == |Chars(s)|
      decreases |rest|
    {
      rest := NextChar(rest).value.1;
      n := n + 1;
    }
  }

  // ---- indexing ----

  /** The character at index `i`. */
  method At(x: seq<byte>, i: nat, alignOffset: nat) returns (r: Option<scalar>)
    requires IsUtf8(x)
    ensures r == if i < |Chars(x)| then Some(Chars(x)[i]) else None
  {
    hide IsUtf8, Chars;
    if i >= |x| {
      return None;
    }
    var n := SkipAtMost1Byte(x, i, alignOffset);
    CutAscii(x, n);
    var rest, ended, passed := Advance(x[n..], i - n);
    if ended {
      return None;
    }
    var c := NextChar(rest);
    match c {
      case None => return None;
      case Some(cr) =>
        assert Chars(rest)[0] == cr.0 == Chars(x[n..])[i - n];
        return Some(cr.0);
    }
  }

  /** The number of characters. */
  method Len(x: seq<byte>, alignOffset: nat) returns (r: nat)
    requires IsUtf8(x)
    ensures r == |Chars(x)|
  {
    var n := SkipAtMost1Byte(x, |x|, alignOffset);
    if n == |x| {
      assert x[..n] == x;
      AsciiChars(x);
      return n;
    }
    CutAscii(x, n);
    var c := CountChars(x[n..]);
    r := c + n;
  }

  /** Split at a character index; `None` if it is out of bounds. */
  method SplitAt(x: seq<byte>, i: nat, alignOffset: nat) returns (r: Option<(seq<byte>, seq<byte>)>)
    requires IsUtf8(x)
    ensures r.Some? <==> i <= |Chars(x)|
    ensures r.Some? ==> IsSplit(x, i, r.value.0, r.value.1)
  {
    hide IsUtf8, Chars;
    if i == 0 {
      EmptyChars();
      return Some(([], x));
    }
    if i > |x| {
      return None;
    }
    var n := SkipAtMost1Byte(x, i, alignOffset);
    CutAscii(x, n);
    var rest, ended, passed := Advance(x[n..], i - n);
    if ended {
      return None;
    }
    var cut := |x| - |rest|;
    JoinSplit(x, n, x[..n], x[n..], i - n, passed, rest);
    assert x[..cut] == x[..n] + passed && x[cut..] == rest;
    r := Some((x[..cut], x[cut..]));
  }

  /** A split of the part after an ASCII prefix is a split of the whole. */
  lemma JoinSplit(x: seq<byte>, n: nat, p: seq<byte>, t: seq<byte>, k: nat, a: seq<byte>, b: seq<byte>)
    requires IsUtf8(x) && IsUtf8(p) && IsUtf8(t) && x == p + t
    requires |Chars(p)| == n && Chars(x) == Chars(p) + Chars(t) && IsSplit(t, k, a, b)
    ensures IsSplit(x, n + k, p + a, b)
  {
    hide IsUtf8, Chars;
    CharsConcat(p, a);
    assert Chars(x)[n + k..] == Chars(t)[k..];
    assert Chars(x)[..n + k] == Chars(p) + Chars(t)[..k];
  }

  // ---- searching ----

  /** `n` occurs in `h` at `k`. */
  predicate OccursAt<T(==)>(h: seq<T>, n: seq<T>, k: nat) {
    k + |n| <= |h| && h[k..k + |n|] == n
  }

  ghost predicate Occurs<T>(h: seq<T>, n: seq<T>) {
    exists k :: OccursAt(h, n, k)
  }

  /** What follows a valid prefix of a valid string is valid. */
  lemma {:induction false} StripPrefix(n: seq<byte>, rest: seq<byte>)
    requires IsUtf8(n) && IsUtf8(n + rest)
    ensures IsUtf8(rest)
    decreases |n|
  {
    hide IsUtf8, Chars, OneChar;
    if n == [] {
      assert n + rest == rest;
    } else {
      var h, t := SplitHead(n);
      assert h + (t + rest) == n + rest;
      StripHead(h, t + rest);
      StripPrefix(t, rest);
    }
  }

  lemma StripHead(h: seq<byte>, x: seq<byte>)
    requires OneChar(h) && IsUtf8(h + x)
    ensures IsUtf8(x)
  {
    HeadOfConcat(h, x);
    hide HeadBits, Width;
    assert (h + x)[0] == h[0] && (h + x)[|h|..] == x;
  }

  /** Cut a string at a character index. */
  lemma SplitChars(s: seq<byte>, k: nat) returns (a: seq<byte>, b: seq<byte>)
    requires IsUtf8(s) && k <= |Chars(s)|
    ensures IsSplit(s, k, a, b)
  {
    hide IsUtf8, Chars;
    var cs := Chars(s);
    a, b := Encode(cs[..k]), Encode(cs[k..]);
    CharsOfEncoded(cs[..k]);
    CharsOfEncoded(cs[k..]);
    CharsConcat(a, b);
    assert cs == cs[..k] + cs[k..];
    CharsInjective(s, a + b);
  }

  /** A byte match of a string in a string starts and ends between characters. */
  lemma ByteMatchIsCharMatch(h: seq<byte>, n: seq<byte>, p: nat)
    requires IsUtf8(h) && IsUtf8(n) && n != [] && OccursAt(h, n, p)
    ensures Occurs(Chars(h), Chars(n))
  {
    hide IsUtf8, Chars;
    assert h[p] == n[0] by { assert h[p..p + |n|][0] == h[p]; }
    StartsNoContinuation(n);
    CutAtBoundary(h, p);
    var a, rest := h[..p], h[p + |n|..];
    assert h[p..] == n + rest;
    StripPrefix(n, rest);
    CharsConcat(n, rest);
    MatchBetween(Chars(h), Chars(a), Chars(n), Chars(rest));
  }

  lemma MatchBetween<T>(h: seq<T>, a: seq<T>, n: seq<T>, b: seq<T>)
    requires h == a + (n + b)
    ensures OccursAt(h, n, |a|)
  {
  }

  lemma StartsNoContinuation(n: seq<byte>)
    requires IsUtf8(n) && n != []
    ensures !IsContinuation(n[0])
  {
    assert HeadOk(n);
  }

  lemma CharMatchIsByteMatch(h: seq<byte>, n: seq<byte>, k: nat)
    requires IsUtf8(h) && IsUtf8(n) && OccursAt(Chars(h), Chars(n), k)
    ensures Occurs(h, n)
  {
    hide IsUtf8, Chars;
    var a, b := SplitChars(h, k);
    var m := |Chars(n)|;
    var c, d := SplitChars(b, m);
    assert Chars(h)[k..][..m] == Chars(h)[k..k + m];
    CharsInjective(c, n);
    MatchBetween(h, a, n, d);
  }

  /** Self-synchronisation of UTF-8: searching bytes is searching characters. */
  lemma SearchingBytesIsSearchingChars(h: seq<byte>, n: seq<byte>)
    requires IsUtf8(h) && IsUtf8(n)
    ensures Occurs(h, n) <==> Occurs(Chars(h), Chars(n))
  {
    if n == [] {
      assert OccursAt(h, n, 0) && OccursAt(Chars(h), Chars(n), 0);
    } else {
      if Occurs(h, n) {
        var p :| OccursAt(h, n, p);
        ByteMatchIsCharMatch(h, n, p);
      }
      if Occurs(Chars(h), Chars(n)) {
        var k :| OccursAt(Chars(h), Chars(n), k);
        CharMatchIsByteMatch(h, n, k);
      }
    }
  }

  lemma OccursSingle<T>(h: seq<T>, x: T)
    ensures Occurs(h, [x]) <==> x in h
  {
    if x in h {
      var k :| 0 <= k < |h| && h[k] == x;
      assert OccursAt(h, [x], k);
    }
    if Occurs(h, [x]) {
      var k: nat :| OccursAt(h, [x], k);
      assert h[k..k + 1][0] == h[k];
    }
  }

  method Contains(haystack: seq<byte>, needle: seq<byte>) returns (r: bool)
    requires IsUtf8(haystack) && IsUtf8(needle)
    ensures r <==> Occurs(Chars(haystack), Chars(needle))
  {
    SearchingBytesIsSearchingChars(haystack, needle);
    hide IsUtf8, Chars;
    if needle == [] {
      assert OccursAt(haystack, needle, 0);
      return true;
    } else if |needle| == 1 {
      r := ContainsByte(haystack, needle[0]);
      assert needle == [needle[0]];
      OccursSingle(haystack, needle[0]);
      return;
    } else if |haystack| < |needle| {
      return false;
    }
    r := ContainsQuadratic(haystack, needle);
  }

  /** The quadratic search: compare first bytes, then the rest. */
  method ContainsQuadratic(haystack: seq<byte>, needle: seq<byte>) returns (r: bool)
    requires 0 < |needle| <= |haystack|
    ensures r <==> Occurs(haystack, needle)
  {
    var start := 0;
    while start <= |haystack| - |needle|
      invariant start <= |haystack| - |needle| + 1
      invariant forall k :: 0 <= k < start ==> !OccursAt(haystack, needle, k)
    {
      PrefixMeansOccurs(haystack, needle, start);
      if haystack[start] == needle[0] && needle <= haystack[start..] {
        return true;
      }
      start := start + 1;
    }
    return false;
  }

  lemma PrefixMeansOccurs<T>(h: seq<T>, n: seq<T>, k: nat)
    requires 0 < |n| && k + |n| <= |h|
    ensures OccursAt(h, n, k) <==> h[k] == n[0] && n <= h[k..]
  {
    var w := h[k..k + |n|];
    assert w[0] == h[k];
    assert h[k..][..|n|] == w;
  }

  /** `memchr` */
  method ContainsByte(x: seq<byte>, b: byte) returns (r: bool)
    ensures r <==> b in x
  {
    var i := 0;
    while i < |x|
      invariant i <= |x| && b !in x[..i]
    {
      if x[i] == b {
        return true;
      }
      i := i + 1;
    }
    return false;
  }

  // ---- counting ----

  function CountOf<T(==)>(s: seq<T>, c: T): nat {
    if s == [] then 0 else (if s[0] == c then 1 else 0) + CountOf(s[1..], c)
  }

  lemma {:induction false} CountIsMultiplicity<T>(s: seq<T>, c: T)
    ensures CountOf(s, c) == multiset(s)[c]
  {
    if s != [] {
      CountIsMultiplicity(s[1..], c);
      assert s == [s[0]] + s[1..];
    }
  }

  /** Non-overlapping occurrences from the left: what `matches(needle).count()` counts. */
  function CountOccurrences<T(==)>(s: seq<T>, n: seq<T>): nat
    decreases |s|
  {
    if n == [] then |s| + 1
    else if |s| < |n| then 0
    else if s[..|n|] == n then 1 + CountOccurrences(s[|n|..], n)
    else CountOccurrences(s[1..], n)
  }

  /** `ks` are the places where the leftmost matches start, each search going on at the end of the match before:
      they do not overlap, and no match that starts elsewhere is clear of them. */
  ghost predicate LeftmostMatches<T>(s: seq<T>, n: seq<T>, ks: seq<nat>) {
    && (forall i :: 0 <= i < |ks| ==> OccursAt(s, n, ks[i]))
    && (forall i, j :: 0 <= i < j < |ks| ==> ks[i] + |n| <= ks[j])
    && (forall p: nat :: OccursAt(s, n, p) ==> Covered(n, ks, p))
  }

  /** `p` is inside one of the matches. */
  ghost predicate Covered<T>(n: seq<T>, ks: seq<nat>, p: nat) {
    exists i :: 0 <= i < |ks| && ks[i] <= p < ks[i] + |n|
  }

  /** The count is the number of leftmost matches. */
  lemma LeftmostAreCounted<T>(s: seq<T>, n: seq<T>) returns (ks: seq<nat>)
    requires n != []
    ensures |ks| == CountOccurrences(s, n) && LeftmostMatches(s, n, ks)
  {
    ks := LeftmostFrom(s, n, 0);
    assert s[0..] == s;
  }

  lemma {:induction false} LeftmostFrom<T>(s: seq<T>, n: seq<T>, from: nat) returns (ks: seq<nat>)
    requires n != [] && from <= |s|
    ensures |ks| == CountOccurrences(s[from..], n)
    ensures forall i :: 0 <= i < |ks| ==> from <= ks[i] && OccursAt(s, n, ks[i])
    ensures forall i, j :: 0 <= i < j < |ks| ==> ks[i] + |n| <= ks[j]
    ensures forall p: nat :: from <= p && OccursAt(s, n, p) ==> Covered(n, ks, p)
    decreases |s| - from
  {
    hide Covered, OccursAt;
    ks := [];
    NextCount(s, n, from);
    if OccursAt(s, n, from) {
      var rest := LeftmostFrom(s, n, from + |n|);
      ks := [from] + rest;
      forall p: nat | from <= p && OccursAt(s, n, p) ensures Covered(n, ks, p) {
        CoveredAfter(n, from, rest, p);
      }
    } else if from < |s| {
      ks := LeftmostFrom(s, n, from + 1);
    }
  }

  lemma NextCount<T>(s: seq<T>, n: seq<T>, from: nat)
    requires n != [] && from <= |s|
    ensures CountOccurrences(s[from..], n) ==
      if OccursAt(s, n, from) then 1 + CountOccurrences(s[from + |n|..], n)
      else if from < |s| then CountOccurrences(s[from + 1..], n) else 0
    ensures forall p: nat :: OccursAt(s, n, p) ==> p + |n| <= |s|
  {
    if from + |n| <= |s| {
      assert s[from..][..|n|] == s[from..from + |n|];
      assert s[from..][|n|..] == s[from + |n|..];
    }
    assert from < |s| ==> s[from..][1..] == s[from + 1..];
  }

  lemma CoveredAfter<T>(n: seq<T>, from: nat, rest: seq<nat>, p: nat)
    requires from <= p && (from + |n| <= p ==> Covered(n, rest, p))
    ensures Covered(n, [from] + rest, p)
  {
    var ks := [from] + rest;
    if p < from + |n| {
      assert ks[0] <= p < ks[0] + |n|;
    } else {
      var i :| 0 <= i < |rest| && rest[i] <= p < rest[i] + |n|;
      assert ks[i + 1] == rest[i];
    }
  }

  lemma {:induction false} CountConcat<T>(s: seq<T>, t: seq<T>, c: T)
    ensures CountOf(s + t, c) == CountOf(s, c) + CountOf(t, c)
    decreases |s|
  {
    if s == [] {
      assert s + t == t;
    } else {
      assert (s + t)[1..] == s[1..] + t;
      CountConcat(s[1..], t, c);
    }
  }

  lemma {:induction false} CountSingle<T>(s: seq<T>, c: T)
    ensures CountOccurrences(s, [c]) == CountOf(s, c)
  {
    if s != [] {
      assert s[..1] == [c] <==> s[0] == c;
      CountSingle(s[1..], c);
    }
  }

  lemma {:induction false} NoAsciiInside(h: seq<byte>, b: byte, i: nat)
    requires i <= |h| && b < 0x80 && forall j :: i <= j < |h| ==> h[j] >= 0x80
    ensures CountOf(h[i..], b) == 0
    decreases |h| - i
  {
    if i < |h| {
      assert h[i..][1..] == h[i + 1..];
      NoAsciiInside(h, b, i + 1);
    }
  }

  /** An ASCII byte occurs as often among the bytes as among the characters. */
  lemma {:induction false} CountingBytesIsCountingChars(x: seq<byte>, b: byte)
    requires IsUtf8(x) && b < 0x80
    ensures CountOf(x, b) == CountOf(Chars(x), b as scalar)
    decreases |x|
  {
    if x != [] {
      var h, t := SplitHead(x);
      CountingBytesIsCountingChars(t, b);
      CountConcat(h, t, b);
      var c := Chars(x)[0];
      assert CountOf(h, b) == if c == b then 1 else 0 by {
        if c < 0x80 {
          assert h[1..] == [];
        } else {
          NoAsciiInside(h, b, 0);
          assert h[0..] == h;
        }
      }
      assert Chars(x)[1..] == Chars(t);
    }
  }

  method CountMatchesByte(x: seq<byte>, needle: byte) returns (n: nat)
    ensures n == CountOf(x, needle)
  {
    n := 0;
    var i := 0;
    while i < |x|
      invariant i <= |x| && n == CountOf(x[..i], needle)
    {
      assert x[..i + 1] == x[..i] + [x[i]];
      CountConcat(x[..i], [x[i]], needle);
      if x[i] == needle {
        n := n + 1;
      }
      i := i + 1;
    }
    assert x[..i] == x;
  }

  /** Counting by bytes when the needle is one byte gives the count of character matches. */
  method CountMatches(x: seq<byte>, needle: seq<byte>) returns (n: nat)
    requires IsUtf8(x) && IsUtf8(needle)
    ensures n == CountOccurrences(Chars(x), Chars(needle))
    ensures needle == [] ==> n == |Chars(x)| + 1
    ensures needle != [] ==> exists ks :: |ks| == n && LeftmostMatches(Chars(x), Chars(needle), ks)
  {
    if needle != [] {
      ghost var _ := LeftmostAreCounted(Chars(x), Chars(needle));
    }
    hide LeftmostMatches;
    if |needle| == 1 {
      n := CountMatchesByte(x, needle[0]);
      assert HeadOk(needle) && needle[1..] == [];
      assert Chars(needle) == [needle[0] as scalar];
      CountingBytesIsCountingChars(x, needle[0]);
      CountSingle(Chars(x), needle[0] as scalar);
    } else {
      n := CountOccurrences(Chars(x), Chars(needle));
    }
  }

  // ---- slicing with signed indices ----

  type i32 = x: int | -0x8000_0000 <= x < 0x8000_0000

  function UnwrapOr(x: Option<i32>, default: i32): i32 {
    match x case None => default case Some(v) => v
  }

  function Distance(x: int, y: int): nat {
    if x < y then y - x else x - y
  }

  /** The number from 0 to `limit` that is nearest to `val`. */
  function Bound(val: i32, limit: i32): (r: nat)
    requires limit >= 0
    ensures r <= limit
    ensures forall k :: 0 <= k <= limit && k != r ==> Distance(val, r) < Distance(val, k)
  {
    if val <= 0 then 0 else if val >= limit then limit else val
  }

  function ConvertIndices(len: i32, start: Option<i32>, end: Option<i32>): (nat, nat)
    requires len >= 0
  {
    var start := UnwrapOr(start, 0);
    var end := UnwrapOr(end, len);
    var end: i32 := if end < 0 then end + len else end;
    var start: i32 := if start < 0 then start + len else start;
    (Bound(start, len), Bound(end, len))
  }

  /** Python's reading of a slice index: from the end if negative, then clamped to the string. */
  function PyIndex(len: nat, i: int): (r: nat)
    ensures r <= len
    ensures var wanted := if i < 0 then len + i else i;
      forall k :: 0 <= k <= len && k != r ==> Distance(wanted, r) < Distance(wanted, k)
  {
    var wanted := if i < 0 then len + i else i;
    if wanted < 0 then 0
    else if wanted < len then
      assert forall k: int :: k != wanted ==> Distance(wanted, k) > 0 == Distance(wanted, wanted);
      wanted
    else len
  }

  /** Where the slice starts and ends. */
  function SliceStart(len: nat, start: Option<i32>): nat {
    match start case None => 0 case Some(i) => PyIndex(len, i)
  }

  function SliceEnd(len: nat, end: Option<i32>): nat {
    match end case None => len case Some(i) => PyIndex(len, i)
  }

  lemma ConvertIndicesClamps(len: i32, start: Option<i32>, end: Option<i32>)
    requires len >= 0
    ensures ConvertIndices(len, start, end) == (SliceStart(len, start), SliceEnd(len, end))
  {
  }

  datatype StrIndices = StrIndices(start: nat, haystack: seq<byte>)

  /** `r` is the slice of `s` between two character indices. */
  ghost predicate IsSlice(s: seq<byte>, from: nat, to: nat, r: StrIndices)
    requires IsUtf8(s)
  {
    && from <= to <= |Chars(s)|
    && r.start == from
    && IsUtf8(r.haystack) && Chars(r.haystack) == Chars(s)[from..to]
  }

  /** The arguments that need the length of the string: some index is negative, and they are not refused outright. */
  predicate NeedsLength(start: Option<i32>, end: Option<i32>) {
    && ((start.Some? && start.value < 0) || (end.Some? && end.value < 0))
    && !(start.Some? && end.Some? && (start.value >= 0 <==> end.value >= 0) && start.value > end.value)
  }

  /** Exactly when there is no slice. */
  predicate NoSlice(len: nat, start: Option<i32>, end: Option<i32>) {
    || SliceStart(len, start) > SliceEnd(len, end)
    || (start.Some? && start.value > len && (end.Some? ==> end.value >= 0))
    || (start.Some? && end.Some? && (start.value >= 0 <==> end.value >= 0) && start.value > end.value)
  }

  /** Clamped indices that are in order are refused all the same in two cases: a start beyond the length whose
      end is absent or not below the length, and two negative indices out of order that both clamp to 0. */
  lemma RefusedAlthoughInOrder(len: nat, start: Option<i32>, end: Option<i32>)
    ensures NoSlice(len, start, end) && SliceStart(len, start) <= SliceEnd(len, end) <==>
      && start.Some?
      && (|| (start.value > len && (end.Some? ==> end.value >= len))
          || (end.Some? && end.value < start.value < 0 && start.value + len <= 0))
  {
  }

  /** A start beyond the length is refused, except in the empty string with a negative end. */
  lemma StartBeyondLength(len: nat, start: i32, end: Option<i32>)
    requires start > len
    ensures NoSlice(len, Some(start), end) <==> !(len == 0 && end.Some? && end.value < 0)
  {
  }

  /** One example of each: refused although nothing would be cut off, and not refused in the empty string. */
  lemma RefusalExamples()
    ensures NoSlice(0, Some(1), None) && SliceStart(0, Some(1)) == SliceEnd(0, None) == 0
    ensures NoSlice(3, Some(7), Some(5)) && SliceStart(3, Some(7)) == SliceEnd(3, Some(5)) == 3
    ensures NoSlice(3, Some(-4), Some(-5)) && SliceStart(3, Some(-4)) == SliceEnd(3, Some(-5)) == 0
    ensures NoSlice(3, Some(5), Some(-1))
    ensures !NoSlice(0, Some(1), Some(-1))
  {
  }

  /** `x[..i]` */
  method SplitAtEnd(x: seq<byte>, i: nat, alignOffset: nat) returns (r: seq<byte>)
    requires IsUtf8(x)
    ensures IsUtf8(r) && Chars(r) == Chars(x)[..Min(i, |Chars(x)|)]
  {
    var p := SplitAt(x, i, alignOffset);
    match p {
      case Some(ba) => r := ba.0;
      case None =>
        r := x;
        assert Chars(x)[..|Chars(x)|] == Chars(x);
    }
  }

  /** The path that computes the length, for strings whose character count fits an `i32`.
      Neither `unwrap` nor the unchecked slice can fail. */
  method ConvertStrIndicesSlow(s: seq<byte>, start: Option<i32>, end: Option<i32>, align: (nat, nat, nat))
    returns (r: Option<StrIndices>)
    requires IsUtf8(s) && |Chars(s)| < 0x8000_0000
    requires NeedsLength(start, end)
    ensures r == None <==> NoSlice(|Chars(s)|, start, end)
    ensures r.Some? ==> IsSlice(s, SliceStart(|Chars(s)|, start), SliceEnd(|Chars(s)|, end), r.value)
  {
    hide IsUtf8, Chars;
    var len := Len(s, align.0);
    ConvertIndicesClamps(len, start, end);
    SlowNoSlice(len, start, end);
    hide NoSlice, SliceStart, SliceEnd, NeedsLength;
    var (from, to) := ConvertIndices(len, start, end);
    if from > to {
      return None;
    }
    if len == |s| {
      CharCountIsByteCount(s);
      AsciiSlice(s, from, to);
      return Some(StrIndices(from, s[from..to]));
    }
    var p := SplitAt(s, from, align.1);
    var q := SplitAt(p.value.1, to - from, align.2);
    assert Chars(s)[from..][..to - from] == Chars(s)[from..to];
    r := Some(StrIndices(from, q.value.0));
  }

  /** On this path the clamped indices alone decide. */
  lemma SlowNoSlice(len: nat, start: Option<i32>, end: Option<i32>)
    requires NeedsLength(start, end)
    ensures NoSlice(len, start, end) <==> SliceStart(len, start) > SliceEnd(len, end)
    ensures SliceEnd(len, end) <= len
  {
  }

  lemma AsciiSlice(s: seq<byte>, from: nat, to: nat)
    requires IsAscii(s) && from <= to <= |s|
    ensures IsUtf8(s) && |Chars(s)| == |s|
    ensures IsUtf8(s[from..to]) && Chars(s[from..to]) == Chars(s)[from..to]
  {
    AsciiChars(s);
    AsciiChars(s[from..to]);
  }

  /** The start and the slice that Starlark's `str` functions mean by `start` and `end`. */
  method ConvertStrIndices(s: seq<byte>, start: Option<i32>, end: Option<i32>, align: (nat, nat, nat))
    returns (r: Option<StrIndices>)
    requires IsUtf8(s) && (NeedsLength(start, end) ==> |Chars(s)| < 0x8000_0000)
    ensures r == None <==> NoSlice(|Chars(s)|, start, end)
    ensures r.Some? ==> IsSlice(s, SliceStart(|Chars(s)|, start), SliceEnd(|Chars(s)|, end), r.value)
  {
    hide IsUtf8, Chars;
    match (start, end) {
      case (None, None) =>
        assert Chars(s)[0..|Chars(s)|] == Chars(s);
        return Some(StrIndices(0, s));
      case (Some(from), None) =>
        if from >= 0 {
          var p := SplitAt(s, from, align.0);
          if p == None {
            return None;
          }
          assert Chars(s)[from..|Chars(s)|] == Chars(s)[from..];
          return Some(StrIndices(from, p.value.1));
        }
      case (None, Some(to)) =>
        if to >= 0 {
          var h := SplitAtEnd(s, to, align.0);
          assert Chars(s)[0..Min(to, |Chars(s)|)] == Chars(s)[..Min(to, |Chars(s)|)];
          return Some(StrIndices(0, h));
        }
      case (Some(from), Some(to)) =>
        if from >= 0 && to >= from {
          var p := SplitAt(s, from, align.0);
          if p == None {
            return None;
          }
          var h := SplitAtEnd(p.value.1, to - from, align.1);
          SliceOfRest(Chars(s), from, to);
          return Some(StrIndices(from, h));
        }
        if (from >= 0 <==> to >= 0) && from > to {
          return None;
        }
    }
    r := ConvertStrIndicesSlow(s, start, end, align);
  }

  lemma SliceOfRest<T>(cs: seq<T>, from: nat, to: nat)
    requires from <= to && from <= |cs|
    ensures cs[from..][..Min(to - from, |cs[from..]|)] == cs[from..Min(to, |cs|)]
  {
  }
}
