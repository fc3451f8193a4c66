/** Byte positions of a source file, and their lines and columns (starlark_syntax/src/codemap.rs). */
module CodeMaps {
  import opened Integers
  import opened Options
  import opened Utf8
  import opened FastString

  const NEWLINE: byte := 0x0A
  const CARRIAGE_RETURN: byte := 0x0D

  datatype Span = Span(begin: u32, end: u32) {
    /** Both ends are inside. */
    predicate Contains(pos: u32) {
      begin <= pos && pos <= end
    }

    predicate Intersects(other: Span) {
      Contains(other.begin) || Contains(other.end) || other.Contains(begin)
    }

    function Merge(other: Span): Span {
      Span(if begin < other.begin then begin else other.begin, if end > other.end then end else other.end)
    }
  }

  datatype ResolvedPos = ResolvedPos(line: nat, column: nat)

  datatype ResolvedSpan = ResolvedSpan(begin: ResolvedPos, end: ResolvedPos) {
    predicate Contains(pos: ResolvedPos) {
      && (begin.line < pos.line || (begin.line == pos.line && begin.column <= pos.column))
      && (end.line > pos.line || (end.line == pos.line && end.column >= pos.column))
    }
  }

  /** Line, then column. */
  predicate Before(a: ResolvedPos, b: ResolvedPos) {
    a.line < b.line || (a.line == b.line && a.column < b.column)
  }

  datatype CodeMap = CodeMap(source: seq<byte>, lines: seq<u32>)

  /** Where lines begin, among the first `n` bytes. */
  function LineStarts(s: seq<byte>, n: nat): (r: seq<nat>)
    requires n <= |s|
    ensures |r| > 0 && forall i :: 0 <= i < |r| ==> r[i] <= n
  {
    if n == 0 then [0] else LineStarts(s, n - 1) + if s[n - 1] == NEWLINE then [n] else []
  }

  ghost predicate Valid(m: CodeMap) {
    && IsUtf8(m.source)
    && |m.source| < 0x1_0000_0000
    && m.lines == LineStarts(m.source, |m.source|)
  }

  /** `CodeMap::new`, for sources below 4 GiB. */
  method New(source: seq<byte>) returns (m: CodeMap)
    requires IsUtf8(source) && |source| < 0x1_0000_0000
    ensures Valid(m) && m.source == source
  {
    var lines: seq<u32> := [0];
    var p := 0;
    while p < |source|
      invariant p <= |source| && lines == LineStarts(source, p)
    {
      if source[p] == NEWLINE {
        lines := lines + [p + 1];
      }
      p := p + 1;
    }
    m := CodeMap(source, lines);
  }

  // ---- finding lines ----

  function LineOf(s: seq<byte>, pos: nat): nat
    requires pos <= |s|
  {
    |LineStarts(s, pos)| - 1
  }

  function StartOf(s: seq<byte>, pos: nat): nat
    requires pos <= |s|
  {
    LineStarts(s, pos)[LineOf(s, pos)]
  }

  /** Reading on only adds later line starts. */
  lemma {:induction false} LineStartsExtend(s: seq<byte>, n: nat, m: nat)
    requires n <= m <= |s|
    ensures LineStarts(s, n) <= LineStarts(s, m)
    ensures forall i :: |LineStarts(s, n)| <= i < |LineStarts(s, m)| ==> LineStarts(s, m)[i] > n
    decreases m
  {
    if m > n {
      LineStartsExtend(s, n, m - 1);
    }
  }

  lemma {:induction false} LineStartsSorted(s: seq<byte>, n: nat)
    requires n <= |s|
    ensures forall i, j :: 0 <= i < j < |LineStarts(s, n)| ==> LineStarts(s, n)[i] < LineStarts(s, n)[j]
  {
    if n > 0 {
      LineStartsSorted(s, n - 1);
    }
  }

  datatype SearchResult = Found(index: nat) | InsertAt(index: nat)

  /** The standard library's `binary_search` on a sorted vector. */
  method BinarySearch(v: seq<u32>, x: u32) returns (r: SearchResult)
    requires forall i, j :: 0 <= i < j < |v| ==> v[i] < v[j]
    ensures r.Found? ==> r.index < |v| && v[r.index] == x
    ensures r.InsertAt? ==> r.index <= |v|
    ensures r.InsertAt? ==> forall i :: 0 <= i < |v| ==> if i < r.index then v[i] < x else x < v[i]
  {
    var lo, hi := 0, |v|;
    while lo < hi
      invariant lo <= hi <= |v|
      invariant forall i :: 0 <= i < lo ==> v[i] < x
      invariant forall i :: hi <= i < |v| ==> x < v[i]
    {
      var mid := lo + (hi - lo) / 2;
      if v[mid] == x {
        return Found(mid);
      } else if v[mid] < x {
        lo := mid + 1;
      } else {
        hi := mid;
      }
    }
    r := InsertAt(lo);
  }

  /** The line of a position: the number of newlines before it. */
  method FindLine(m: CodeMap, pos: u32) returns (line: nat)
    requires Valid(m) && pos <= |m.source|
    ensures line == LineOf(m.source, pos) < |m.lines|
    ensures m.lines[line] == StartOf(m.source, pos)
    ensures line == CountOf(m.source[..pos], NEWLINE)
  {
    LineStartsSorted(m.source, |m.source|);
    LineStartsExtend(m.source, pos, |m.source|);
    LineIsCount(m.source, pos);
    var r := BinarySearch(m.lines, pos);
    match r {
      case Found(i) =>
        LastStart(m.source, pos, m.lines, i);
        line := i;
      case InsertAt(i) =>
        assert m.lines[0] == LineStarts(m.source, pos)[0] <= pos;
        LastStart(m.source, pos, m.lines, i - 1);
        line := i - 1;
    }
  }

  /** The last start at or before `pos` is the last one seen when reading up to `pos`. */
  lemma LastStart(s: seq<byte>, pos: nat, lines: seq<nat>, i: nat)
    requires pos <= |s| && lines == LineStarts(s, |s|)
    requires i < |lines| && lines[i] <= pos && (i + 1 < |lines| ==> pos < lines[i + 1])
    ensures i == LineOf(s, pos) && lines[i] == StartOf(s, pos)
  {
    LineStartsExtend(s, pos, |s|);
    var seen := LineStarts(s, pos);
    assert forall j :: 0 <= j < |seen| ==> lines[j] == seen[j];
  }

  lemma {:induction false} LineIsCount(s: seq<byte>, pos: nat)
    requires pos <= |s|
    ensures LineOf(s, pos) == CountOf(s[..pos], NEWLINE)
  {
    if pos > 0 {
      LineIsCount(s, pos - 1);
      assert s[..pos] == s[..pos - 1] + [s[pos - 1]];
      CountConcat(s[..pos - 1], [s[pos - 1]], NEWLINE);
    }
  }

  function FullSpan(m: CodeMap): Span
    requires |m.source| < 0x1_0000_0000
  {
    Span(0, |m.source|)
  }

  /** The span of a line with its terminator; `None` past the last line. */
  function LineSpanOpt(m: CodeMap, line: nat): Option<Span>
    requires |m.source| < 0x1_0000_0000
  {
    if line < |m.lines| then
      Some(Span(m.lines[line], if line + 1 < |m.lines| then m.lines[line + 1] else FullSpan(m).end))
    else None
  }

  /** The span of the line of `pos` reaches from its start to beyond `pos`, or to the end of the source. */
  lemma LineSpanCovers(m: CodeMap, pos: nat)
    requires Valid(m) && pos <= |m.source|
    ensures LineOf(m.source, pos) < |m.lines|
    ensures var r := LineSpanOpt(m, LineOf(m.source, pos));
      && r.Some? && r.value.begin == StartOf(m.source, pos) <= pos <= r.value.end <= |m.source|
      && (pos < r.value.end || pos == |m.source|)
  {
    LineStartsExtend(m.source, pos, |m.source|);
    var line := LineOf(m.source, pos);
    assert m.lines[line] == LineStarts(m.source, pos)[line];
  }

  /** Line and column of a position between two characters. */
  method FindLineCol(m: CodeMap, pos: u32, alignOffset: nat) returns (r: ResolvedPos)
    requires Valid(m) && IsBoundary(m.source, pos)
    ensures r == Resolve(m.source, pos)
  {
    hide IsUtf8, Chars, LineStarts, Resolve;
    var line := FindLine(m, pos);
    LineSpanCovers(m, pos);
    var lineSpan := LineSpanOpt(m, line).value;
    var byteCol := pos - lineSpan.begin;
    LineText(m.source, pos);
    assert m.source[lineSpan.begin..lineSpan.end][..byteCol] == m.source[lineSpan.begin..pos];
    var column := Len(m.source[lineSpan.begin..lineSpan.end][..byteCol], alignOffset);
    r := ResolvedPos(line, column);
    WalkPrefix(m.source, pos);
  }

  method ResolveSpan(m: CodeMap, span: Span, align: (nat, nat)) returns (r: ResolvedSpan)
    requires Valid(m) && IsBoundary(m.source, span.begin) && IsBoundary(m.source, span.end)
    ensures r == ResolvedSpan(Resolve(m.source, span.begin), Resolve(m.source, span.end))
  {
    var begin := FindLineCol(m, span.begin, align.0);
    var end := FindLineCol(m, span.end, align.1);
    r := ResolvedSpan(begin, end);
  }

  // ---- the reference: walking over characters ----

  /** Walk over characters from a position: a newline starts the next line, anything else is one column. */
  function Walk(p: ResolvedPos, cs: seq<scalar>): ResolvedPos
    decreases |cs|
  {
    if cs == [] then p
    else Walk(if cs[0] == NEWLINE then ResolvedPos(p.line + 1, 0) else ResolvedPos(p.line, p.column + 1), cs[1..])
  }

  /** The line and column of `pos`: walk over all characters before it. */
  ghost function Resolve(s: seq<byte>, pos: nat): ResolvedPos
    requires IsUtf8(s) && IsBoundary(s, pos)
  {
    CutAtBoundary(s, pos);
    Walk(ResolvedPos(0, 0), Chars(s[..pos]))
  }

  lemma {:induction false} WalkConcat(p: ResolvedPos, a: seq<scalar>, b: seq<scalar>)
    ensures Walk(p, a + b) == Walk(Walk(p, a), b)
    decreases |a|
  {
    if a == [] {
      assert a + b == b;
    } else {
      assert (a + b)[1..] == a[1..] + b;
      WalkConcat(if a[0] == NEWLINE then ResolvedPos(p.line + 1, 0) else ResolvedPos(p.line, p.column + 1), a[1..], b);
    }
  }

  lemma {:induction false} WalkWithinLine(p: ResolvedPos, cs: seq<scalar>)
    requires NEWLINE as scalar !in cs
    ensures Walk(p, cs) == ResolvedPos(p.line, p.column + |cs|)
    decreases |cs|
  {
    if cs != [] {
      WalkWithinLine(ResolvedPos(p.line, p.column + 1), cs[1..]);
    }
  }

  lemma {:induction false} WalkForward(p: ResolvedPos, cs: seq<scalar>)
    ensures cs != [] ==> Before(p, Walk(p, cs))
    decreases |cs|
  {
    if |cs| > 0 {
      WalkForward(if cs[0] == NEWLINE then ResolvedPos(p.line + 1, 0) else ResolvedPos(p.line, p.column + 1), cs[1..]);
    }
  }

  /** Bytes without a newline spell characters without one. */
  lemma NoNewlineChar(s: seq<byte>)
    requires IsUtf8(s) && NEWLINE !in s
    ensures NEWLINE as scalar !in Chars(s)
  {
    CountingBytesIsCountingChars(s, NEWLINE);
    CountZero(s, NEWLINE);
    CountZero(Chars(s), NEWLINE as scalar);
  }

  lemma {:induction false} CountZero<T>(s: seq<T>, c: T)
    ensures CountOf(s, c) == 0 <==> c !in s
  {
    if s != [] {
      CountZero(s[1..], c);
    }
  }

  /** Between the start of its line and `pos` there is no newline; and the line starts at 0 or after one. */
  lemma {:induction false} LineHasNoNewline(s: seq<byte>, pos: nat)
    requires pos <= |s|
    ensures StartOf(s, pos) <= pos && NEWLINE !in s[StartOf(s, pos)..pos]
    ensures StartOf(s, pos) > 0 ==> s[StartOf(s, pos) - 1] == NEWLINE
    ensures StartOf(s, pos) > 0 ==> LineOf(s, pos) == LineOf(s, StartOf(s, pos) - 1) + 1
    ensures StartOf(s, pos) == 0 ==> LineOf(s, pos) == 0
  {
    if pos > 0 {
      LineHasNoNewline(s, pos - 1);
      if s[pos - 1] == NEWLINE {
        assert StartOf(s, pos) == pos;
      } else {
        assert StartOf(s, pos) == StartOf(s, pos - 1);
        assert s[StartOf(s, pos)..pos] == s[StartOf(s, pos)..pos - 1] + [s[pos - 1]];
      }
    }
  }

  /** The part of the line before `pos` is text of its own. */
  lemma LineText(s: seq<byte>, pos: nat)
    requires IsUtf8(s) && IsBoundary(s, pos)
    ensures var start := StartOf(s, pos);
      && start <= pos && IsBoundary(s, start)
      && IsUtf8(s[..pos]) && IsUtf8(s[..start]) && IsUtf8(s[start..pos])
      && Chars(s[..pos]) == Chars(s[..start]) + Chars(s[start..pos])
  {
    hide IsUtf8, Chars;
    var start := StartOf(s, pos);
    LineHasNoNewline(s, pos);
    if start == 0 {
      StartIsBoundary(s);
    } else {
      AfterAsciiIsBoundary(s, start - 1);
    }
    CutAtBoundary(s, pos);
    assert s[..pos][..start] == s[..start] && s[..pos][start..] == s[start..pos];
    CutAtBoundary(s[..pos], start);
  }

  lemma StartIsBoundary(s: seq<byte>)
    requires IsUtf8(s)
    ensures IsBoundary(s, 0)
  {
  }

  /** An ASCII byte is a character on its own. */
  lemma AfterAsciiIsBoundary(s: seq<byte>, q: nat)
    requires IsUtf8(s) && q < |s| && s[q] < 0x80
    ensures IsBoundary(s, q) && IsBoundary(s, q + 1)
    ensures IsUtf8(s[..q]) && IsUtf8(s[..q + 1]) && Chars(s[..q + 1]) == Chars(s[..q]) + [s[q] as scalar]
  {
    hide IsUtf8, Chars;
    CutAtBoundary(s, q);
    NextBoundary(s, q, s[q..]);
    CutAtBoundary(s, q + 1);
    PlusAscii(s[..q], s[q], s[..q + 1]);
  }

  lemma NextBoundary(s: seq<byte>, q: nat, t: seq<byte>)
    requires q < |s| && t == s[q..] && IsUtf8(t) && s[q] < 0x80
    ensures IsBoundary(s, q + 1)
  {
    AsciiBoundary(t, 1);
    assert q + 1 < |s| ==> t[1] == s[q + 1];
  }

  lemma PlusAscii(a: seq<byte>, b: byte, ab: seq<byte>)
    requires IsUtf8(a) && b < 0x80 && ab == a + [b]
    ensures IsUtf8(ab) && Chars(ab) == Chars(a) + [b as scalar]
  {
    hide IsUtf8, Chars;
    AsciiChars([b]);
    assert Chars([b]) == [b as scalar];
    CharsConcat(a, [b]);
  }

  /** The line number and the character count from the start of the line are what walking from the beginning gives. */
  lemma {:induction false} WalkPrefix(s: seq<byte>, pos: nat)
    requires IsUtf8(s) && IsBoundary(s, pos)
    ensures StartOf(s, pos) <= pos && IsUtf8(s[StartOf(s, pos)..pos])
    ensures Resolve(s, pos) == ResolvedPos(LineOf(s, pos), |Chars(s[StartOf(s, pos)..pos])|)
    decreases pos
  {
    hide IsUtf8, Chars;
    var start := StartOf(s, pos);
    LineText(s, pos);
    LineHasNoNewline(s, pos);
    NoNewlineChar(s[start..pos]);
    var origin := ResolvedPos(0, 0);
    assert Walk(origin, Chars(s[..start])) == ResolvedPos(LineOf(s, pos), 0) by {
      if start == 0 {
        EmptyChars();
        assert s[..0] == [];
      } else {
        AfterAsciiIsBoundary(s, start - 1);
        WalkPrefix(s, start - 1);
        WalkConcat(origin, Chars(s[..start - 1]), [NEWLINE as scalar]);
      }
    }
    WalkConcat(origin, Chars(s[..start]), Chars(s[start..pos]));
    WalkWithinLine(ResolvedPos(LineOf(s, pos), 0), Chars(s[start..pos]));
  }

  // ---- order ----

  /** Resolving positions keeps their order, strictly. */
  lemma ResolveMonotone(s: seq<byte>, p: nat, q: nat)
    requires IsUtf8(s) && IsBoundary(s, p) && IsBoundary(s, q)
    ensures p < q <==> Before(Resolve(s, p), Resolve(s, q))
    ensures p == q <==> Resolve(s, p) == Resolve(s, q)
  {
    if p < q {
      ResolveForward(s, p, q);
    } else if q < p {
      ResolveForward(s, q, p);
    }
  }

  lemma ResolveForward(s: seq<byte>, p: nat, q: nat)
    requires IsUtf8(s) && IsBoundary(s, p) && IsBoundary(s, q) && p < q
    ensures Before(Resolve(s, p), Resolve(s, q))
  {
    hide IsUtf8, Chars;
    CutAtBoundary(s, q);
    var t := s[..q];
    assert IsBoundary(t, p) && t[..p] == s[..p];
    CutAtBoundary(t, p);
    WalkConcat(ResolvedPos(0, 0), Chars(t[..p]), Chars(t[p..]));
    CharsNonEmpty(t[p..]);
    WalkForward(Walk(ResolvedPos(0, 0), Chars(t[..p])), Chars(t[p..]));
  }

  lemma CharsNonEmpty(s: seq<byte>)
    requires IsUtf8(s) && s != []
    ensures Chars(s) != []
  {
  }

  /** A span holds both its ends and what is between them, and nothing before or after. */
  lemma SpanHoldsItsEnds(a: Span, p: u32)
    requires a.begin <= a.end
    ensures a.Contains(a.begin) && a.Contains(a.end)
    ensures a.Contains(p) <==> !(p < a.begin) && !(a.end < p)
  {
  }

  lemma ResolvedSpanHoldsItsEnds(a: ResolvedSpan, p: ResolvedPos)
    requires !Before(a.end, a.begin)
    ensures a.Contains(a.begin) && a.Contains(a.end)
    ensures a.Contains(p) <==> !Before(p, a.begin) && !Before(a.end, p)
  {
  }

  /** Containment on resolved positions is containment on raw positions. */
  lemma ResolvedContainment(m: CodeMap, span: Span, pos: u32)
    requires Valid(m)
    requires IsBoundary(m.source, span.begin) && IsBoundary(m.source, span.end) && IsBoundary(m.source, pos)
    ensures var r := ResolvedSpan(Resolve(m.source, span.begin), Resolve(m.source, span.end));
      r.Contains(Resolve(m.source, pos)) <==> span.Contains(pos)
  {
    hide Resolve, IsUtf8, Chars;
    ResolveMonotone(m.source, span.begin, pos);
    ResolveMonotone(m.source, pos, span.end);
  }

  /** Two spans intersect exactly when they share a position. */
  lemma IntersectsMeansShared(a: Span, b: Span)
    requires a.begin <= a.end && b.begin <= b.end
    ensures a.Intersects(b) <==> exists p: u32 :: a.Contains(p) && b.Contains(p)
    ensures forall p: u32 :: a.Contains(p) || b.Contains(p) ==> a.Merge(b).Contains(p)
    ensures a.Merge(b).begin in {a.begin, b.begin} && a.Merge(b).end in {a.end, b.end}
  {
    if a.Intersects(b) {
      var p := if a.Contains(b.begin) then b.begin else if a.Contains(b.end) then b.end else a.begin;
      assert a.Contains(p) && b.Contains(p);
    }
  }

  // ---- going back from line and column ----

  /** How the language server turns a line and column into a position. */
  function PositionAt(m: CodeMap, line: nat, col: nat): Option<nat>
    requires |m.source| < 0x1_0000_0000
  {
    match LineSpanOpt(m, line)
    case None => None
    case Some(span) => Some(Min(span.begin + col, span.end))
  }

  /** There is a position for every line and no other; it is the column's, or the end of the line if that
      comes first. */
  lemma PositionClips(m: CodeMap, line: nat, col: nat)
    requires Valid(m)
    ensures PositionAt(m, line, col) == None <==> line > CountOf(m.source, NEWLINE)
    ensures PositionAt(m, line, col).Some? ==>
      var begin, pos := m.lines[line], PositionAt(m, line, col).value;
      && line == LineOf(m.source, begin) && begin == StartOf(m.source, begin)
      && begin <= pos <= begin + col && pos <= |m.source|
      && (begin < pos ==> NEWLINE !in m.source[begin..pos - 1])
      && (pos < begin + col ==> pos == |m.source| || (begin < pos && m.source[pos - 1] == NEWLINE))
  {
    hide IsUtf8, LineStarts;
    LineIsCount(m.source, |m.source|);
    assert m.source[..|m.source|] == m.source;
    if line < |m.lines| {
      var span := LineSpanOpt(m, line).value;
      var pos := PositionAt(m, line, col).value;
      LineIsOneLine(m, line);
      LineStartsSorted(m.source, |m.source|);
      LastStart(m.source, span.begin, m.lines, line);
      NothingIn(m.source, span.begin, pos, span.end, NEWLINE);
      if line + 1 < |m.lines| {
        LastStart(m.source, span.end, m.lines, line + 1);
        LineHasNoNewline(m.source, span.end);
      }
    }
  }

  lemma NothingIn(s: seq<byte>, a: nat, b: nat, c: nat, x: byte)
    requires a <= b <= c <= |s| && (a < c ==> x !in s[a..c - 1])
    ensures a < b ==> x !in s[a..b - 1]
  {
    if a < b {
      assert s[a..c - 1][..b - 1 - a] == s[a..b - 1];
    }
  }

  /** Columns count characters but are added to bytes: the position is recovered exactly if the line
      is ASCII up to it, and is otherwise too early. */
  lemma PositionRecovered(m: CodeMap, pos: u32)
    requires Valid(m) && IsBoundary(m.source, pos)
    ensures var r := Resolve(m.source, pos);
      var back := PositionAt(m, r.line, r.column);
      && back.Some? && back.value <= pos
      && (back == Some(pos as nat) <==> IsAscii(m.source[StartOf(m.source, pos)..pos]))
  {
    WalkPrefix(m.source, pos);
    LineSpanCovers(m, pos);
    CharCountIsByteCount(m.source[StartOf(m.source, pos)..pos]);
  }

  /** On an ASCII source every position is recovered. */
  lemma PositionRecoveredOnAscii(m: CodeMap, pos: u32)
    requires Valid(m) && IsAscii(m.source) && pos <= |m.source|
    ensures IsBoundary(m.source, pos)
    ensures var r := Resolve(m.source, pos); PositionAt(m, r.line, r.column) == Some(pos as nat)
  {
    PositionRecovered(m, pos);
  }

  /** After one two-byte character the position found is inside it. */
  lemma PositionNotRecovered()
    ensures var m := CodeMap([0xC3, 0xA9], [0]);
      && Valid(m) && IsBoundary(m.source, 2)
      && Resolve(m.source, 2) == ResolvedPos(0, 1)
      && PositionAt(m, 0, 1) == Some(1) && !IsBoundary(m.source, 1)
  {
    var m := CodeMap([0xC3, 0xA9], [0]);
    assert LineStarts(m.source, 1) == [0];
    assert m.source[2..] == [];
    assert m.source[..2] == m.source;
    assert Chars(m.source) == [0xE9] + Chars([]);
  }

  /** The span of a line without its terminator, `\n` or `\r\n`; a final `\r` alone is taken off too. */
  method LineSpanTrimNewline(m: CodeMap, line: nat) returns (r: Span)
    requires Valid(m) && line < |m.lines|
    ensures var full := LineSpanOpt(m, line).value;
      && r.begin == full.begin <= r.end <= full.end <= |m.source|
      && (var t := m.source[r.end..full.end];
          t == [] || t == [NEWLINE] || t == [CARRIAGE_RETURN] || t == [CARRIAGE_RETURN, NEWLINE])
      && NEWLINE !in m.source[r.begin..r.end]
      && (CARRIAGE_RETURN !in m.source[r.end..full.end] ==>
            r.begin == r.end || m.source[r.end - 1] != CARRIAGE_RETURN)
  {
    hide IsUtf8, LineStarts;
    var full := LineSpanOpt(m, line).value;
    LineIsOneLine(m, line);
    r := full;
    if r.begin < r.end && m.source[r.end - 1] == NEWLINE {
      r := r.(end := r.end - 1);
      assert m.source[r.end..full.end] == [NEWLINE];
    } else if r.begin < r.end {
      assert m.source[r.begin..r.end] == m.source[full.begin..full.end - 1] + [m.source[r.end - 1]];
    }
    assert NEWLINE !in m.source[r.begin..r.end];
    if r.begin < r.end && m.source[r.end - 1] == CARRIAGE_RETURN {
      ghost var end := r.end;
      SplitFirst(m.source, end - 1, full.end);
      SplitLast(m.source, r.begin, end);
      r := r.(end := r.end - 1);
    }
  }

  lemma SplitFirst(s: seq<byte>, a: nat, b: nat)
    requires a < b <= |s|
    ensures s[a..b] == [s[a]] + s[a + 1..b]
  {
  }

  lemma SplitLast(s: seq<byte>, a: nat, b: nat)
    requires a < b <= |s|
    ensures s[a..b] == s[a..b - 1] + [s[b - 1]]
  {
  }

  /** A line's span holds at most one newline, at its end. */
  lemma LineIsOneLine(m: CodeMap, line: nat)
    requires Valid(m) && line < |m.lines|
    ensures var span := LineSpanOpt(m, line).value;
      && span.begin <= span.end <= |m.source|
      && (span.begin < span.end ==> NEWLINE !in m.source[span.begin..span.end - 1])
  {
    var span := LineSpanOpt(m, line).value;
    LineStartsSorted(m.source, |m.source|);
    if span.begin < span.end {
      var last := span.end - 1;
      LastStart(m.source, last, m.lines, line);
      LineHasNoNewline(m.source, last);
    }
  }
}
