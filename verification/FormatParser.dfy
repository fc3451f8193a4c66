/** The tokenizer for `.format()` strings (starlark_syntax/src/dot_format_parser.rs), against a grammar. */
module FormatParsers {
  import opened Utf8
  import opened Options
  import opened Sequences

  const OPEN: byte := 0x7B
  const CLOSE: byte := 0x7D
  const BANG: byte := 0x21
  const LOWER_R: byte := 0x72
  const LOWER_S: byte := 0x73

  datatype FormatConv = Str | Repr

  datatype EscapeCurlyBrace = Open | Close

  datatype FormatToken =
    | Text(text: seq<byte>)
    | Capture(capture: seq<byte>, pos: nat, conv: FormatConv)
    | Escape(brace: EscapeCurlyBrace)

  datatype Reason = MissingConversion | InvalidConversion | Unmatched | Standalone

  datatype Result<T> = Ok(value: T) | Err(reason: Reason)

  // ---- the grammar ----

  datatype Spelling = Bare | WithS | WithR

  /** What a format string is made of. */
  datatype Piece = Plain(text: seq<byte>) | Doubled(brace: EscapeCurlyBrace) | Field(capture: seq<byte>, spelling: Spelling)

  predicate IsBrace(b: byte) {
    b == OPEN || b == CLOSE
  }

  predicate Ends(b: byte) {
    IsBrace(b) || b == BANG
  }

  predicate WellFormed(p: Piece) {
    match p
    case Plain(t) => forall i :: 0 <= i < |t| ==> !IsBrace(t[i])
    case Doubled(_) => true
    case Field(c, _) => forall i :: 0 <= i < |c| ==> !Ends(c[i])
  }

  function Tail(spelling: Spelling): (r: seq<byte>)
    ensures r != []
  {
    match spelling
    case Bare => [CLOSE]
    case WithS => [BANG, LOWER_S, CLOSE]
    case WithR => [BANG, LOWER_R, CLOSE]
  }

  function Print(p: Piece): seq<byte> {
    match p
    case Plain(t) => t
    case Doubled(b) => if b == Open then [OPEN, OPEN] else [CLOSE, CLOSE]
    case Field(c, spelling) => [OPEN] + c + Tail(spelling)
  }

  function PrintAll(ps: seq<Piece>): seq<byte> {
    if ps == [] then [] else Print(ps[0]) + PrintAll(ps[1..])
  }

  predicate AllWellFormed(ps: seq<Piece>) {
    forall k :: 0 <= k < |ps| ==> WellFormed(ps[k])
  }

  /** Text is neither empty nor next to text. */
  predicate Normal(ps: seq<Piece>) {
    ps == [] || (
      && WellFormed(ps[0])
      && Normal(ps[1..])
      && (ps[0].Plain? ==> ps[0].text != [] && (ps[1..] == [] || !ps[1].Plain?)))
  }

  function TokenOf(p: Piece, pos: nat): FormatToken {
    match p
    case Plain(t) => Text(t)
    case Doubled(b) => Escape(b)
    case Field(c, spelling) => Capture(c, pos + 1, if spelling == WithR then Repr else Str)
  }

  /** The tokens of pieces printed from offset `pos` on. */
  function Tokens(ps: seq<Piece>, pos: nat): seq<FormatToken> {
    if ps == [] then [] else [TokenOf(ps[0], pos)] + Tokens(ps[1..], pos + |Print(ps[0])|)
  }

  /** `rest` is `p`, as long as it can be, and then `t`. */
  predicate Starts(rest: seq<byte>, p: Piece, t: seq<byte>) {
    && WellFormed(p)
    && rest == Print(p) + t
    && (p.Plain? ==> p.text != [] && (t == [] || IsBrace(t[0])))
  }

  /** `c` runs from an opening brace up to a brace, an exclamation mark or the end. */
  predicate Captures(rest: seq<byte>, c: seq<byte>) {
    && |rest| > |c| && rest[0] == OPEN && rest[1..1 + |c|] == c
    && (forall i :: 0 <= i < |c| ==> !Ends(c[i]))
    && (|rest| == 1 + |c| || Ends(rest[1 + |c|]))
  }

  /** Why no piece starts `rest`. */
  ghost predicate Blames(rest: seq<byte>, e: Reason) {
    if e == Standalone then
      ByteAt(rest, 0) == CLOSE && ByteAt(rest, 1) != CLOSE
    else
      exists c :: Captures(rest, c) && BadTail(e, c, rest[1 + |c|..])
  }

  /** What is wrong with the text after a capture. */
  predicate BadTail(e: Reason, c: seq<byte>, after: seq<byte>) {
    var b0, b1, b2 := ByteAt(after, 0), ByteAt(after, 1), ByteAt(after, 2);
    match e
    case MissingConversion => b0 == BANG && b1 == CLOSE
    case InvalidConversion => b0 == BANG && b1 != LOWER_R && b1 != LOWER_S && b1 != CLOSE
    case Unmatched =>
      || b0 < 0
      || (b0 == OPEN && c != [])
      || (b0 == BANG && (b1 == LOWER_R || b1 == LOWER_S) && b2 != CLOSE)
    case Standalone => false
  }

  /** A byte, or -1 past the end. */
  function ByteAt(s: seq<byte>, k: nat): int {
    if k < |s| then s[k] else -1
  }

  /** These bytes, at offset `pos` of the string, are a spelling of the token. */
  predicate Spells(token: FormatToken, pos: nat, bytes: seq<byte>) {
    match token
    case Text(text) => bytes == text != [] && forall i :: 0 <= i < |text| ==> !IsBrace(text[i])
    case Escape(Open) => bytes == [OPEN, OPEN]
    case Escape(Close) => bytes == [CLOSE, CLOSE]
    case Capture(c, at, conv) =>
      && at == pos + 1
      && |bytes| > 1 + |c| && bytes[0] == OPEN && bytes[1..1 + |c|] == c
      && (forall i :: 0 <= i < |c| ==> !Ends(c[i]))
      && (if conv == Repr then bytes[1 + |c|..] == [BANG, LOWER_R, CLOSE]
          else bytes[1 + |c|..] in [[CLOSE], [BANG, LOWER_S, CLOSE]])
  }

  /** Printing a piece spells its token. */
  lemma PrintSpells(p: Piece, pos: nat)
    requires WellFormed(p) && p != Plain([])
    ensures Spells(TokenOf(p, pos), pos, Print(p))
  {
    if p.Field? {
      Associate([OPEN], p.capture, Tail(p.spelling));
      SliceInside(Print(p), [OPEN], p.capture, Tail(p.spelling));
      Behind([OPEN] + p.capture, Tail(p.spelling), Print(p));
    }
  }

  lemma StartSpells(rest: seq<byte>, p: Piece, t: seq<byte>, pos: nat)
    requires Starts(rest, p, t)
    ensures |t| < |rest| && rest[..|rest| - |t|] == Print(p) && Spells(TokenOf(p, pos), pos, Print(p))
  {
    PrintSpells(p, pos);
    assert Print(p) != [];
    hide Print;
    Behind(Print(p), t, rest);
  }

  // ---- the grammar is unambiguous ----

  lemma CapturesOnce(rest: seq<byte>, c: seq<byte>, d: seq<byte>)
    requires Captures(rest, c) && Captures(rest, d)
    ensures c == d
  {
    assert forall i :: 0 <= i < |c| ==> rest[1 + i] == c[i];
    assert forall i :: 0 <= i < |d| ==> rest[1 + i] == d[i];
    assert |c| == |d|;
  }

  lemma FieldCaptures(rest: seq<byte>, c: seq<byte>, spelling: Spelling, t: seq<byte>)
    requires WellFormed(Field(c, spelling)) && rest == Print(Field(c, spelling)) + t
    ensures Captures(rest, c) && rest[1 + |c|..] == Tail(spelling) + t
    ensures rest[0] == OPEN && rest[1] != OPEN
  {
    Associate([OPEN] + c, Tail(spelling), t);
    Behind([OPEN] + c, Tail(spelling) + t, rest);
    assert rest[1 + |c|] == Tail(spelling)[0];
    assert c != [] ==> rest[1] == c[0];
  }

  lemma Behind(a: seq<byte>, b: seq<byte>, s: seq<byte>)
    requires s == a + b
    ensures s[|a|..] == b && s[..|a|] == a && forall k :: 0 <= k < |b| ==> s[|a| + k] == b[k]
  {
  }

  /** The first two bytes tell what kind of piece starts. */
  lemma KindOfStart(rest: seq<byte>, p: Piece, t: seq<byte>)
    requires Starts(rest, p, t)
    ensures match p
      case Plain(_) => rest != [] && !IsBrace(rest[0])
      case Doubled(Open) => |rest| > 1 && rest[0] == rest[1] == OPEN && t == rest[2..]
      case Doubled(Close) => |rest| > 1 && rest[0] == rest[1] == CLOSE && t == rest[2..]
      case Field(c, spelling) =>
        && |rest| > 1 && rest[0] == OPEN && rest[1] != OPEN
        && Captures(rest, c) && rest[1 + |c|..] == Tail(spelling) + t
  {
    match p
    case Plain(a) => assert rest[0] == a[0];
    case Doubled(_) =>
    case Field(c, spelling) => FieldCaptures(rest, c, spelling, t);
  }

  /** Only one piece can start a string. */
  lemma StartsOnce(rest: seq<byte>, p: Piece, t: seq<byte>, q: Piece, u: seq<byte>)
    requires Starts(rest, p, t) && Starts(rest, q, u)
    ensures p == q && t == u
  {
    KindOfStart(rest, p, t);
    KindOfStart(rest, q, u);
    if p.Plain? {
      PlainOnce(rest, p.text, t, q.text, u);
    } else if p.Field? {
      CapturesOnce(rest, p.capture, q.capture);
      TailOnce(rest[1 + |p.capture|..], p.spelling, t, q.spelling, u);
    }
  }

  lemma TailOnce(after: seq<byte>, a: Spelling, t: seq<byte>, b: Spelling, u: seq<byte>)
    requires after == Tail(a) + t && after == Tail(b) + u
    ensures a == b && t == u
  {
    assert after[0] == Tail(a)[0] == Tail(b)[0];
    assert a != Bare ==> after[1] == Tail(a)[1];
    assert b != Bare ==> after[1] == Tail(b)[1];
    assert t == after[|Tail(a)|..] && u == after[|Tail(b)|..];
  }

  lemma PlainOnce(rest: seq<byte>, a: seq<byte>, t: seq<byte>, b: seq<byte>, u: seq<byte>)
    requires Starts(rest, Plain(a), t) && Starts(rest, Plain(b), u)
    ensures a == b && t == u
  {
    assert forall i :: 0 <= i < |a| ==> rest[i] == a[i];
    assert forall i :: 0 <= i < |b| ==> rest[i] == b[i];
    assert t != [] ==> rest[|a|] == t[0];
    assert u != [] ==> rest[|b|] == u[0];
    assert |a| == |b|;
    assert a == rest[..|a|] && b == rest[..|b|] && t == rest[|a|..] && u == rest[|b|..];
  }

  /** Where a piece starts, nothing is to blame. */
  lemma StartedIsBlameless(rest: seq<byte>, p: Piece, t: seq<byte>, e: Reason)
    requires Starts(rest, p, t)
    ensures !Blames(rest, e)
  {
    KindOfStart(rest, p, t);
    forall c | Captures(rest, c) ensures !BadTail(e, c, rest[1 + |c|..]) {
      GoodTail(rest, p, t, e, c);
    }
  }

  lemma GoodTail(rest: seq<byte>, p: Piece, t: seq<byte>, e: Reason, c: seq<byte>)
    requires Starts(rest, p, t) && Captures(rest, c)
    ensures !BadTail(e, c, rest[1 + |c|..])
  {
    KindOfStart(rest, p, t);
    if p.Field? {
      CapturesOnce(rest, c, p.capture);
    } else {
      FirstCaptured(rest, c);
    }
  }

  lemma FirstCaptured(rest: seq<byte>, c: seq<byte>)
    requires Captures(rest, c)
    ensures c == [] || (rest[1] == c[0] && !Ends(rest[1]))
  {
  }

  /** At most one reason applies. */
  lemma BlamesOnce(rest: seq<byte>, e: Reason, f: Reason)
    requires Blames(rest, e) && Blames(rest, f)
    ensures e == f
  {
    if e != Standalone && f != Standalone {
      var c :| Captures(rest, c) && BadTail(e, c, rest[1 + |c|..]);
      var d :| Captures(rest, d) && BadTail(f, d, rest[1 + |d|..]);
      CapturesOnce(rest, c, d);
      BadTailOnce(e, f, c, rest[1 + |c|..]);
    }
  }

  lemma BadTailOnce(e: Reason, f: Reason, c: seq<byte>, after: seq<byte>)
    requires BadTail(e, c, after) && BadTail(f, c, after)
    ensures e == f
  {
  }

  // ---- normal form ----

  lemma {:induction false} NormalIsWellFormed(ps: seq<Piece>)
    requires Normal(ps)
    ensures AllWellFormed(ps)
  {
    if ps != [] {
      NormalIsWellFormed(ps[1..]);
      assert forall k :: 0 < k < |ps| ==> ps[k] == ps[1..][k - 1];
    }
  }

  /** Put a piece in front, merging text with text. */
  function Cons(p: Piece, ps: seq<Piece>): (r: seq<Piece>)
    requires WellFormed(p) && Normal(ps)
    ensures Normal(r) && PrintAll(r) == Print(p) + PrintAll(ps)
  {
    if p == Plain([]) then
      ps
    else if p.Plain? && ps != [] && ps[0].Plain? then
      var merged := Plain(p.text + ps[0].text);
      ConsTail(merged, ps[1..]);
      Associate(p.text, ps[0].text, PrintAll(ps[1..]));
      [merged] + ps[1..]
    else
      ConsTail(p, ps);
      [p] + ps
  }

  lemma ConsTail(p: Piece, ps: seq<Piece>)
    ensures ([p] + ps)[0] == p && ([p] + ps)[1..] == ps
    ensures PrintAll([p] + ps) == Print(p) + PrintAll(ps)
  {
    assert ([p] + ps)[1..] == ps;
  }

  /** The normal form of a list of pieces. */
  function Normalise(ps: seq<Piece>): (r: seq<Piece>)
    requires AllWellFormed(ps)
    ensures Normal(r) && PrintAll(r) == PrintAll(ps)
  {
    if ps == [] then [] else Cons(ps[0], Normalise(ps[1..]))
  }

  /** In a normal list the first piece is what the printed string starts with. */
  lemma NormalStarts(ps: seq<Piece>)
    requires Normal(ps) && ps != []
    ensures Starts(PrintAll(ps), ps[0], PrintAll(ps[1..]))
  {
    var qs := ps[1..];
    if qs != [] && !qs[0].Plain? {
      assert IsBrace(Print(qs[0])[0]);
    }
  }

  /** Printing is injective on normal lists. */
  lemma {:induction false} PrintOnce(ps: seq<Piece>, qs: seq<Piece>)
    requires Normal(ps) && Normal(qs) && PrintAll(ps) == PrintAll(qs)
    ensures ps == qs
  {
    if ps != [] {
      NormalStarts(ps);
      PrintedIsEmpty(qs);
      NormalStarts(qs);
      StartsOnce(PrintAll(ps), ps[0], PrintAll(ps[1..]), qs[0], PrintAll(qs[1..]));
      PrintOnce(ps[1..], qs[1..]);
      assert ps == [ps[0]] + ps[1..] && qs == [qs[0]] + qs[1..];
    } else {
      PrintedIsEmpty(qs);
    }
  }

  lemma PrintedIsEmpty(ps: seq<Piece>)
    requires Normal(ps)
    ensures PrintAll(ps) == [] <==> ps == []
  {
    if ps != [] {
      NormalStarts(ps);
      assert Print(ps[0]) != [];
    }
  }

  lemma {:induction false} PrintConcat(ps: seq<Piece>, qs: seq<Piece>)
    ensures PrintAll(ps + qs) == PrintAll(ps) + PrintAll(qs)
  {
    hide Print;
    if ps == [] {
      assert ps + qs == qs;
    } else {
      PrintConcat(ps[1..], qs);
      assert (ps + qs)[1..] == ps[1..] + qs;
      Associate(Print(ps[0]), PrintAll(ps[1..]), PrintAll(qs));
    }
  }

  lemma PrintAround(before: seq<Piece>, p: Piece, after: seq<Piece>)
    ensures PrintAll(before + ([p] + after)) == PrintAll(before) + (Print(p) + PrintAll(after))
  {
    hide Print;
    PrintConcat(before, [p] + after);
    ConsTail(p, after);
  }

  /** Tokens tile the string: each covers its own piece, and a capture's `pos` is where its text is. */
  lemma TokensTile(ps: seq<Piece>, k: nat)
    requires k < |ps|
    ensures |Tokens(ps, 0)| == |ps|
    ensures PrintAll(ps) == PrintAll(ps[..k]) + (Print(ps[k]) + PrintAll(ps[k + 1..]))
    ensures Tokens(ps, 0)[k] == TokenOf(ps[k], |PrintAll(ps[..k])|)
    ensures ps[k].Field? ==>
      var pos := Tokens(ps, 0)[k].pos;
      && 0 < pos <= pos + |ps[k].capture| < |PrintAll(ps)|
      && PrintAll(ps)[pos - 1] == OPEN && PrintAll(ps)[pos..pos + |ps[k].capture|] == ps[k].capture
  {
    hide Print, PrintAll, Tokens;
    TokenAt(ps, 0, k);
    PrintAround(ps[..k], ps[k], ps[k + 1..]);
    assert ps == ps[..k] + ([ps[k]] + ps[k + 1..]);
    if ps[k].Field? {
      CaptureInside(PrintAll(ps), PrintAll(ps[..k]), ps[k].capture, ps[k].spelling, PrintAll(ps[k + 1..]));
    }
  }

  lemma CaptureInside(s: seq<byte>, a: seq<byte>, c: seq<byte>, spelling: Spelling, z: seq<byte>)
    requires s == a + (Print(Field(c, spelling)) + z)
    ensures var pos := |a| + 1; pos + |c| < |s| && s[pos - 1] == OPEN && s[pos..pos + |c|] == c
  {
    hide Tail;
    Associate([OPEN] + c, Tail(spelling), z);
    Associate([OPEN], c, Tail(spelling) + z);
    Associate(a, [OPEN], c + (Tail(spelling) + z));
    SliceInside(s, a + [OPEN], c, Tail(spelling) + z);
  }

  lemma SliceInside(s: seq<byte>, a: seq<byte>, c: seq<byte>, z: seq<byte>)
    requires s == a + (c + z)
    ensures s[|a|..|a| + |c|] == c && (a != [] ==> s[|a| - 1] == a[|a| - 1])
  {
  }

  lemma {:induction false} TokenAt(ps: seq<Piece>, pos: nat, k: nat)
    requires k < |ps|
    ensures |Tokens(ps, pos)| == |ps|
    ensures Tokens(ps, pos)[k] == TokenOf(ps[k], pos + |PrintAll(ps[..k])|)
    decreases |ps|
  {
    hide Print, TokenOf;
    if k > 0 {
      TokenAt(ps[1..], pos + |Print(ps[0])|, k - 1);
      assert ps[..k][1..] == ps[1..][..k - 1];
    } else if |ps| > 1 {
      TokenAt(ps[1..], pos + |Print(ps[0])|, 0);
    }
  }

  // ---- the parser ----

  /** `&t[a..b]`, which needs both ends between characters. */
  method Slice(t: seq<byte>, a: nat, b: nat) returns (r: seq<byte>)
    requires IsUtf8(t) && a <= b && IsBoundary(t, a) && IsBoundary(t, b)
    ensures r == t[a..b] && IsUtf8(r)
  {
    SliceIsUtf8(t, a, b);
    r := t[a..b];
  }

  lemma SliceIsUtf8(t: seq<byte>, a: nat, b: nat)
    requires IsUtf8(t) && a <= b && IsBoundary(t, a) && IsBoundary(t, b)
    ensures IsUtf8(t[a..b]) && IsUtf8(t[b..])
  {
    hide IsUtf8;
    CutAtBoundary(t, b);
    CutAtBoundary(t[..b], a);
    assert t[..b][a..] == t[a..b];
  }

  /** An ASCII byte has a boundary on either side. */
  lemma AroundAscii(t: seq<byte>, k: nat)
    requires IsUtf8(t) && k < |t| && t[k] < 0x80
    ensures IsBoundary(t, k) && IsBoundary(t, k + 1)
  {
    hide IsUtf8;
    CutAtBoundary(t, k);
    AsciiBoundary(t[k..], 1);
    assert k + 1 < |t| ==> t[k..][1] == t[k + 1];
  }

  /** The bytes at a stop, when what is left after it is known. */
  lemma AfterStop(rest: seq<byte>, k: nat, t: seq<byte>)
    requires k < |rest| && t == rest[k + 1..]
    ensures ByteAt(rest[k..], 0) == rest[k]
    ensures ByteAt(rest[k..], 1) == ByteAt(t, 0) && ByteAt(rest[k..], 2) == ByteAt(t, 1)
  {
  }

  /** What reading one token off `rest`, at offset `pos`, may give: that of the piece `rest` starts with,
      leaving `t`, which the bytes read spell; nothing at the end; or the reason why no piece starts there. */
  ghost predicate TokenRead(rest: seq<byte>, pos: nat, r: Result<Option<FormatToken>>, piece: Piece, t: seq<byte>) {
    match r
    case Ok(None) => rest == [] && t == []
    case Ok(Some(token)) =>
      && Starts(rest, piece, t) && token == TokenOf(piece, pos)
      && |t| < |rest| && Spells(token, pos, rest[..|rest| - |t|])
    case Err(e) => Blames(rest, e)
  }

  lemma TextRead(rest: seq<byte>, k: nat, pos: nat)
    requires 0 < k <= |rest| && (k == |rest| || IsBrace(rest[k]))
    requires forall j :: 0 <= j < k ==> !IsBrace(rest[j])
    ensures TokenRead(rest, pos, Ok(Some(Text(rest[..k]))), Plain(rest[..k]), rest[k..])
  {
    assert rest == rest[..k] + rest[k..];
    StartSpells(rest, Plain(rest[..k]), rest[k..], pos);
  }

  lemma DoubledRead(rest: seq<byte>, brace: EscapeCurlyBrace, pos: nat)
    requires |rest| > 1 && rest[0] == rest[1] == (if brace == Open then OPEN else CLOSE)
    ensures TokenRead(rest, pos, Ok(Some(Escape(brace))), Doubled(brace), rest[2..])
  {
    assert rest == [rest[0], rest[1]] + rest[2..];
    StartSpells(rest, Doubled(brace), rest[2..], pos);
  }

  lemma FieldRead(rest: seq<byte>, k: nat, p: Piece, t: seq<byte>, pos: nat)
    requires 0 < k < |rest| && rest[0] == OPEN && p.Field? && p.capture == rest[1..k]
    requires forall j :: 1 <= j < k ==> !Ends(rest[j])
    requires rest[k..] == Tail(p.spelling) + t
    ensures Starts(rest, p, t) && |Print(p)| == k + |Tail(p.spelling)|
    ensures TokenRead(rest, pos, Ok(Some(TokenOf(p, pos))), p, t)
  {
    FieldPrinted(rest, p.capture, Tail(p.spelling), t);
    StartSpells(rest, p, t, pos);
  }

  lemma FieldPrinted(rest: seq<byte>, c: seq<byte>, tail: seq<byte>, t: seq<byte>)
    requires |rest| > |c| && rest[0] == OPEN && rest[1..1 + |c|] == c && rest[1 + |c|..] == tail + t
    ensures rest == [OPEN] + c + tail + t
  {
    assert rest == [OPEN] + c + rest[1 + |c|..];
  }

  lemma ConversionRead(rest: seq<byte>, k: nat, conv: FormatConv, pos: nat) returns (p: Piece)
    requires 0 < k && k + 2 < |rest| && rest[0] == OPEN && rest[k] == BANG
    requires rest[k + 1] == (if conv == Repr then LOWER_R else LOWER_S) && rest[k + 2] == CLOSE
    requires forall j :: 1 <= j < k ==> !Ends(rest[j])
    ensures p == Field(rest[1..k], if conv == Repr then WithR else WithS) && |Print(p)| == k + 3
    ensures TokenRead(rest, pos, Ok(Some(Capture(rest[1..k], pos + 1, conv))), p, rest[k + 3..])
  {
    p := Field(rest[1..k], if conv == Repr then WithR else WithS);
    assert rest[k..] == Tail(p.spelling) + rest[k + 3..];
    FieldRead(rest, k, p, rest[k + 3..], pos);
  }

  lemma FailedAt(rest: seq<byte>, k: nat, e: Reason)
    requires 0 < k <= |rest| && rest[0] == OPEN && (k == |rest| || Ends(rest[k]))
    requires forall j :: 1 <= j < k ==> !Ends(rest[j])
    requires BadTail(e, rest[1..k], rest[k..])
    ensures forall p, t, pos :: TokenRead(rest, pos, Err(e), p, t)
  {
    assert Captures(rest, rest[1..k]);
  }

  lemma StandaloneRead(rest: seq<byte>, pos: nat, t: seq<byte>)
    requires rest != [] && rest[0] == CLOSE && (|rest| == 1 || rest[1] != CLOSE)
    ensures forall p :: TokenRead(rest, pos, Err(Standalone), p, t)
  {
  }

  lemma NothingRead(rest: seq<byte>, pos: nat, t: seq<byte>)
    requires rest == [] && t == []
    ensures forall p :: TokenRead(rest, pos, Ok(None), p, t)
  {
  }

  /** The view `(s, i)` behaves as the string `s[i..]`. */
  class FormatParser {
    var s: seq<byte>
    var i: nat

    ghost predicate Valid()
      reads this
    {
      i <= |s| && IsUtf8(s[i..])
    }

    constructor (s: seq<byte>)
      requires IsUtf8(s)
      ensures Valid() && this.s == s && i == 0
    {
      this.s, i := s, 0;
      new;
      assert s[0..] == s;
    }

    function Rem(): seq<byte>
      reads this
      requires i <= |s|
    {
      s[i..]
    }

    method Eat(n: nat) returns (r: seq<byte>)
      requires Valid() && IsBoundary(Rem(), n)
      modifies this
      ensures Valid() && s == old(s) && i == old(i) + n
      ensures r == old(Rem())[..n] && Rem() == old(Rem())[n..] && IsUtf8(r)
    {
      CutAtBoundary(Rem(), n);
      r := s[i..i + n];
      i := i + n;
      assert r == old(Rem())[..n] && Rem() == old(Rem())[n..];
    }

    /** Reads one token and consumes its piece; the view is emptied by text at the end. */
    method Next() returns (r: Result<Option<FormatToken>>, ghost piece: Piece)
      requires Valid()
      modifies this
      ensures Valid()
      ensures TokenRead(old(Rem()), old(i), r, piece, Rem())
      ensures r.Ok? && r.value.Some? && Rem() != [] ==> s == old(s) && i == old(i) + |Print(piece)|
    {
      hide IsUtf8, HeadOk, TokenRead;
      ghost var rest := Rem();
      piece := Plain([]);
      var k := 0;
      while k < |Rem()|
        invariant s == old(s) && i == old(i) && k <= |Rem()|
        invariant forall j :: 0 <= j < k ==> !IsBrace(rest[j])
      {
        var b := Rem()[k];
        if IsBrace(b) && k != 0 {
          AroundAscii(Rem(), k);
          TextRead(rest, k, i);
          var text := Eat(k);
          return Ok(Some(Text(text))), Plain(text);
        } else if b == OPEN {
          r, piece := NextAfterOpen();
          return;
        } else if b == CLOSE {
          if |Rem()| > 1 && Rem()[1] == CLOSE {
            AroundAscii(Rem(), 1);
            DoubledRead(rest, Close, i);
            var _ := Eat(2);
            return Ok(Some(Escape(Close))), Doubled(Close);
          }
          StandaloneRead(rest, i, Rem());
          return Err(Standalone), piece;
        } else {
          k := k + 1;
        }
      }
      if k == 0 {
        NothingRead(rest, i, Rem());
        return Ok(None), piece;
      }
      TextRead(rest, k, i);
      var text := Rem();
      s, i := [], 0;
      EmptyChars();
      assert rest[..k] == text && rest[k..] == [] == s[i..];
      return Ok(Some(Text(text))), Plain(text);
    }

    /** `next` at an opening brace. */
    method NextAfterOpen() returns (r: Result<Option<FormatToken>>, ghost piece: Piece)
      requires Valid() && Rem() != [] && Rem()[0] == OPEN
      modifies this
      ensures Valid()
      ensures TokenRead(old(Rem()), old(i), r, piece, Rem())
      ensures r.Ok? && r.value.Some? ==> s == old(s) && i == old(i) + |Print(piece)|
    {
      hide IsUtf8, HeadOk, TokenRead;
      ghost var rest := Rem();
      piece := Plain([]);
      var pos := i + 1;
      var k := 1;
      while k < |Rem()|
        invariant s == old(s) && i == old(i) && 1 <= k <= |Rem()|
        invariant forall j :: 1 <= j < k ==> !Ends(rest[j])
      {
        var b := Rem()[k];
        if b == CLOSE {
          var capture := EatCapture(k);
          piece := Field(capture, Bare);
          assert rest[k..] == [CLOSE] + rest[k + 1..];
          FieldRead(rest, k, piece, rest[k + 1..], pos - 1);
          return Ok(Some(Capture(capture, pos, Str))), piece;
        } else if b == BANG {
          r, piece := NextConversion(k);
          return;
        } else if b == OPEN {
          if k == 1 {
            AroundAscii(Rem(), 1);
            DoubledRead(rest, Open, i);
            var _ := Eat(2);
            return Ok(Some(Escape(Open))), Doubled(Open);
          }
          break;
        } else {
          k := k + 1;
        }
      }
      FailedAt(rest, k, Unmatched);
      return Err(Unmatched), piece;
    }

    /** `next` at the exclamation mark of a capture. */
    method NextConversion(k: nat) returns (r: Result<Option<FormatToken>>, ghost piece: Piece)
      requires Valid() && 0 < k < |Rem()| && Rem()[0] == OPEN && Rem()[k] == BANG
      requires forall j :: 1 <= j < k ==> !Ends(Rem()[j])
      modifies this
      ensures Valid()
      ensures TokenRead(old(Rem()), old(i), r, piece, Rem())
      ensures r.Ok? ==> s == old(s) && i == old(i) + |Print(piece)|
    {
      hide IsUtf8, HeadOk, TokenRead, Print;
      ghost var rest := Rem();
      piece := Plain([]);
      var pos := i + 1;
      var capture := EatCapture(k);
      AfterStop(rest, k, rest[k + 1..]);
      var conv;
      if |Rem()| > 0 && Rem()[0] == LOWER_R {
        conv := Repr;
      } else if |Rem()| > 0 && Rem()[0] == LOWER_S {
        conv := Str;
      } else if |Rem()| > 0 && Rem()[0] == CLOSE {
        FailedAt(rest, k, MissingConversion);
        return Err(MissingConversion), piece;
      } else {
        FailedAt(rest, k, InvalidConversion);
        return Err(InvalidConversion), piece;
      }
      AroundAscii(Rem(), 0);
      var _ := Eat(1);
      assert Rem() == rest[k + 2..];
      if |Rem()| == 0 || Rem()[0] != CLOSE {
        FailedAt(rest, k, Unmatched);
        return Err(Unmatched), piece;
      }
      AroundAscii(Rem(), 0);
      var _ := Eat(1);
      assert Rem() == rest[k + 3..];
      piece := ConversionRead(rest, k, conv, pos - 1);
      return Ok(Some(Capture(capture, pos, conv))), piece;
    }

    /** `&self.view.eat(k + 1)[1..k]` */
    method EatCapture(k: nat) returns (capture: seq<byte>)
      requires Valid() && 0 < k < |Rem()| && Rem()[0] == OPEN && Ends(Rem()[k])
      modifies this
      ensures Valid() && s == old(s) && i == old(i) + k + 1
      ensures capture == old(Rem())[1..k] && Rem() == old(Rem())[k + 1..] && IsUtf8(capture)
    {
      ghost var rest := Rem();
      AroundAscii(rest, 0);
      AroundAscii(rest, k);
      var eaten := Eat(k + 1);
      assert IsBoundary(eaten, 1) && IsBoundary(eaten, k);
      capture := Slice(eaten, 1, k);
      assert capture == rest[1..k];
    }
  }

  // ---- whole strings ----

  /** The pieces read so far, `rest` being next, are in normal form. */
  predicate NormalBefore(done: seq<Piece>, rest: seq<byte>) {
    && Normal(done)
    && (done != [] && done[|done| - 1].Plain? ==> rest == [] || IsBrace(rest[0]))
  }

  lemma {:induction false} NormalSnoc(ps: seq<Piece>, p: Piece)
    requires Normal(ps) && WellFormed(p)
    requires p.Plain? ==> p.text != [] && (ps == [] || !ps[|ps| - 1].Plain?)
    ensures Normal(ps + [p])
  {
    if ps == [] {
      assert ps + [p] == [p] && [p][1..] == [];
    } else {
      NormalSnoc(ps[1..], p);
      assert (ps + [p])[1..] == ps[1..] + [p];
    }
  }

  lemma {:induction false} TokensSnoc(ps: seq<Piece>, p: Piece, pos: nat)
    ensures Tokens(ps + [p], pos) == Tokens(ps, pos) + [TokenOf(p, pos + |PrintAll(ps)|)]
  {
    hide Print;
    if ps == [] {
      assert ps + [p] == [p] && [p][1..] == [];
    } else {
      TokensSnoc(ps[1..], p, pos + |Print(ps[0])|);
      assert (ps + [p])[1..] == ps[1..] + [p];
    }
  }

  lemma ReadOne(done: seq<Piece>, rest: seq<byte>, p: Piece, t: seq<byte>)
    requires NormalBefore(done, rest) && Starts(rest, p, t)
    ensures NormalBefore(done + [p], t)
    ensures PrintAll(done) + rest == PrintAll(done + [p]) + t
    ensures Tokens(done + [p], 0) == Tokens(done, 0) + [TokenOf(p, |PrintAll(done)|)]
    ensures |PrintAll(done + [p])| == |PrintAll(done)| + |Print(p)| && |t| < |rest|
  {
    hide Starts, NormalBefore, Normal, Print, PrintAll, Tokens;
    NormalStep(done, rest, p, t);
    TokensSnoc(done, p, 0);
    PrintStep(done, rest, p, t);
  }

  lemma NormalStep(done: seq<Piece>, rest: seq<byte>, p: Piece, t: seq<byte>)
    requires NormalBefore(done, rest) && Starts(rest, p, t)
    ensures NormalBefore(done + [p], t)
  {
    KindOfStart(rest, p, t);
    NormalSnoc(done, p);
    LastAppended(done, p);
    hide Normal, Print;
  }

  lemma PrintStep(done: seq<Piece>, rest: seq<byte>, p: Piece, t: seq<byte>)
    requires Starts(rest, p, t)
    ensures PrintAll(done) + rest == PrintAll(done + [p]) + t
    ensures |PrintAll(done + [p])| == |PrintAll(done)| + |Print(p)| && |t| < |rest|
  {
    assert |Print(p)| > 0;
    PrintSnoc(done, p);
    hide Print, PrintAll;
    Associate(PrintAll(done), Print(p), t);
  }

  lemma LastAppended(ps: seq<Piece>, p: Piece)
    ensures (ps + [p])[|ps + [p]| - 1] == p
  {
  }

  lemma PrintSnoc(ps: seq<Piece>, p: Piece)
    ensures PrintAll(ps + [p]) == PrintAll(ps) + Print(p)
  {
    hide Print;
    PrintConcat(ps, [p]);
    assert [p][1..] == [];
  }

  /** Pieces already read are the only beginning; a string stuck after them is no concatenation. */
  lemma {:induction false} StuckIsNotPrinted(done: seq<Piece>, rest: seq<byte>, e: Reason, ps: seq<Piece>)
    requires NormalBefore(done, rest) && Blames(rest, e) && Normal(ps)
    ensures PrintAll(ps) != PrintAll(done) + rest
    decreases |done|
  {
    if PrintAll(ps) == PrintAll(done) + rest {
      if done == [] {
        PrintedIsEmpty(ps);
        NormalStarts(ps);
        StartedIsBlameless(rest, ps[0], PrintAll(ps[1..]), e);
      } else {
        DoneStarts(done, rest);
        PrintedIsEmpty(ps);
        NormalStarts(ps);
        StartsOnce(PrintAll(ps), ps[0], PrintAll(ps[1..]), done[0], PrintAll(done[1..]) + rest);
        StuckIsNotPrinted(done[1..], rest, e, ps[1..]);
      }
    }
  }

  lemma DoneStarts(done: seq<Piece>, rest: seq<byte>)
    requires NormalBefore(done, rest) && done != []
    ensures NormalBefore(done[1..], rest)
    ensures Starts(PrintAll(done) + rest, done[0], PrintAll(done[1..]) + rest)
  {
    var qs := done[1..];
    assert PrintAll(done) + rest == Print(done[0]) + (PrintAll(qs) + rest);
    if qs != [] {
      PrintedIsEmpty(qs);
      NormalStarts(qs);
      assert !qs[0].Plain? ==> IsBrace(Print(qs[0])[0]);
    }
  }

  /** The tokens cover the string from one cut to the next, text as far as it goes. */
  ghost predicate Tiles(s: seq<byte>, tokens: seq<FormatToken>, cuts: seq<nat>)
    ensures Tiles(s, tokens, cuts) ==> |cuts| == |tokens| + 1
  {
    && |cuts| == |tokens| + 1 && cuts[0] == 0
    && (forall k :: 0 <= k < |tokens| ==> Covers(s, tokens[k], cuts[k], cuts[k + 1]))
  }

  predicate Covers(s: seq<byte>, token: FormatToken, from: nat, to: nat) {
    && from < to <= |s| && Spells(token, from, s[from..to])
    && (token.Text? ==> to == |s| || IsBrace(s[to]))
  }

  lemma TileOf(s: seq<byte>, tokens: seq<FormatToken>, cuts: seq<nat>, k: nat)
    requires Tiles(s, tokens, cuts) && k < |tokens|
    ensures Covers(s, tokens[k], cuts[k], cuts[k + 1])
  {
  }

  lemma NothingReadYet(s: seq<byte>)
    ensures Tiles(s, [], [0]) && NormalBefore([], s)
    ensures PrintAll([]) + s == s && |PrintAll([])| == 0 && Tokens([], 0) == []
  {
  }

  lemma ReadTiles(s: seq<byte>, tokens: seq<FormatToken>, cuts: seq<nat>, done: seq<Piece>,
                  rest: seq<byte>, p: Piece, t: seq<byte>) returns (cuts': seq<nat>)
    requires s == PrintAll(done) + rest && Starts(rest, p, t)
    requires Tiles(s, tokens, cuts) && cuts[|tokens|] == |PrintAll(done)|
    ensures Tiles(s, tokens + [TokenOf(p, |PrintAll(done)|)], cuts')
    ensures cuts'[|tokens| + 1] == |PrintAll(done + [p])|
  {
    hide Starts, Tiles, Covers, TokenOf, Print, PrintAll;
    ReadCovers(s, PrintAll(done), rest, p, t);
    PrintStep(done, rest, p, t);
    cuts' := cuts + [|PrintAll(done + [p])|];
    TilesSnoc(s, tokens, cuts, TokenOf(p, |PrintAll(done)|), |PrintAll(done + [p])|);
  }

  /** A capture stands where it says, and the bytes behind it tell its conversion. */
  ghost predicate Stands(s: seq<byte>, token: FormatToken) {
    token.Capture? ==>
      var at := token.pos + |token.capture|;
      && 0 < token.pos <= at < |s| && s[token.pos - 1] == OPEN && s[token.pos..at] == token.capture
      && (token.conv == Repr <==> ByteAt(s, at) == BANG && ByteAt(s, at + 1) == LOWER_R && ByteAt(s, at + 2) == CLOSE)
      && (token.conv == Str <==>
            || ByteAt(s, at) == CLOSE
            || (ByteAt(s, at) == BANG && ByteAt(s, at + 1) == LOWER_S && ByteAt(s, at + 2) == CLOSE))
  }

  lemma CaptureStands(s: seq<byte>, token: FormatToken, from: nat, to: nat)
    requires Covers(s, token, from, to)
    ensures Stands(s, token)
    ensures token.Capture? ==>
      var at := token.pos + |token.capture|;
      && at < |s| && s[token.pos..at] == token.capture
      && (token.conv == Repr <==> ByteAt(s, at) == BANG && ByteAt(s, at + 1) == LOWER_R && ByteAt(s, at + 2) == CLOSE)
  {
    if token.Capture? {
      var k := 1 + |token.capture|;
      SliceOfSlice(s, from, to, 1, k);
      SliceOfSlice(s, from, to, k, to - from);
      assert s[from] == s[from..to][0];
      ByteOfSlice(s, from + k, to, 0);
      ByteOfSlice(s, from + k, to, 1);
      ByteOfSlice(s, from + k, to, 2);
    }
  }

  lemma ByteOfSlice(s: seq<byte>, a: nat, b: nat, i: nat)
    requires a <= b <= |s|
    ensures a + i < b ==> ByteAt(s[a..b], i) == ByteAt(s, a + i)
  {
  }

  lemma TiledStand(s: seq<byte>, tokens: seq<FormatToken>, cuts: seq<nat>)
    requires Tiles(s, tokens, cuts)
    ensures forall k :: 0 <= k < |tokens| ==> Stands(s, tokens[k])
  {
    hide Stands, Covers;
    forall k | 0 <= k < |tokens| ensures Stands(s, tokens[k]) {
      TileOf(s, tokens, cuts, k);
      CaptureStands(s, tokens[k], cuts[k], cuts[k + 1]);
    }
  }

  lemma TilesSnoc(s: seq<byte>, tokens: seq<FormatToken>, cuts: seq<nat>, token: FormatToken, to: nat)
    requires Tiles(s, tokens, cuts) && Covers(s, token, cuts[|tokens|], to)
    ensures Tiles(s, tokens + [token], cuts + [to])
  {
    var tokens', cuts' := tokens + [token], cuts + [to];
    forall k | 0 <= k < |tokens'| ensures Covers(s, tokens'[k], cuts'[k], cuts'[k + 1]) {
      if k < |tokens| {
        assert Covers(s, tokens[k], cuts[k], cuts[k + 1]);
      }
    }
  }

  lemma ReadCovers(s: seq<byte>, before: seq<byte>, rest: seq<byte>, p: Piece, t: seq<byte>)
    requires s == before + rest && Starts(rest, p, t)
    ensures Covers(s, TokenOf(p, |before|), |before|, |before| + |Print(p)|)
  {
    StartSpells(rest, p, t, |before|);
    hide Print, Spells;
    Behind(before, rest, s);
    Behind(Print(p), t, rest);
    assert s[|before|..|before| + |Print(p)|] == rest[..|Print(p)|];
    assert t != [] ==> s[|before| + |Print(p)|] == rest[|Print(p)|] == t[0];
    assert |s| == |before| + |Print(p)| + |t|;
  }

  /** The field that opens a string, of which the name ends before `k`, is wrong there for this reason. */
  predicate FieldStops(rest: seq<byte>, e: Reason, k: nat) {
    && 1 <= k <= |rest| && rest[0] == OPEN && (forall j :: 1 <= j < k ==> !Ends(rest[j]))
    && (e == MissingConversion ==> ByteAt(rest, k) == BANG && ByteAt(rest, k + 1) == CLOSE)
    && (e == InvalidConversion ==>
          ByteAt(rest, k) == BANG && ByteAt(rest, k + 1) !in {LOWER_R as int, LOWER_S as int, CLOSE as int})
    && (e == Unmatched ==>
          || k == |rest|
          || (rest[k] == OPEN && k > 1)
          || (rest[k] == BANG && ByteAt(rest, k + 1) in {LOWER_R as int, LOWER_S as int} &&
              ByteAt(rest, k + 2) != CLOSE))
  }

  /** What each reason says of the string where it stopped. */
  lemma ReasonMeans(rest: seq<byte>, e: Reason)
    requires Blames(rest, e)
    ensures e == Standalone ==> ByteAt(rest, 0) == CLOSE && ByteAt(rest, 1) != CLOSE
    ensures e != Standalone ==> exists k: nat :: FieldStops(rest, e, k)
  {
    if e != Standalone {
      var c :| Captures(rest, c) && BadTail(e, c, rest[1 + |c|..]);
      TailStops(rest, e, c);
    }
  }

  lemma TailStops(rest: seq<byte>, e: Reason, c: seq<byte>)
    requires Captures(rest, c) && BadTail(e, c, rest[1 + |c|..])
    ensures FieldStops(rest, e, 1 + |c|)
  {
    var k := 1 + |c|;
    assert forall j :: 1 <= j < k ==> rest[j] == c[j - 1];
    assert ByteAt(rest[k..], 0) == ByteAt(rest, k);
    assert ByteAt(rest[k..], 1) == ByteAt(rest, k + 1) && ByteAt(rest[k..], 2) == ByteAt(rest, k + 2);
  }

  /** Reading tokens to the end of a string succeeds exactly on the concatenations of pieces, gives the tokens
      of any normal list that prints as the string, and otherwise the reason why reading stopped where it did. */
  method ParseAll(s: seq<byte>) returns (r: Result<seq<FormatToken>>)
    requires IsUtf8(s)
    ensures r.Ok? <==> exists ps :: AllWellFormed(ps) && PrintAll(ps) == s
    ensures forall ps :: Normal(ps) && PrintAll(ps) == s ==> r == Ok(Tokens(ps, 0))
    ensures r.Ok? ==> exists cuts :: Tiles(s, r.value, cuts) && cuts[|r.value|] == |s|
    ensures r.Ok? ==> forall k :: 0 <= k < |r.value| ==> Stands(s, r.value[k])
    ensures r.Err? ==> exists done, rest :: Normal(done) && PrintAll(done) + rest == s && Blames(rest, r.reason)
  {
    hide IsUtf8, Blames, Tiles, Stands, Starts, Spells, TokenOf, PrintAll, Tokens, Normal;
    var parser := new FormatParser(s);
    var tokens := [];
    ghost var done := [];
    ghost var cuts := [0];
    NothingReadYet(s);
    while true
      invariant fresh(parser) && parser.Valid()
      invariant NormalBefore(done, parser.Rem()) && PrintAll(done) + parser.Rem() == s
      invariant tokens == Tokens(done, 0)
      invariant Tiles(s, tokens, cuts) && cuts[|tokens|] == |PrintAll(done)|
      invariant parser.Rem() != [] ==> parser.i == |PrintAll(done)|
      decreases |parser.Rem()|
    {
      ghost var rest := parser.Rem();
      var token, piece := parser.Next();
      match token {
        case Ok(Some(value)) =>
          ReadOne(done, rest, piece, parser.Rem());
          cuts := ReadTiles(s, tokens, cuts, done, rest, piece, parser.Rem());
          tokens := tokens + [value];
          done := done + [piece];
        case Ok(None) =>
          Accepted(s, done);
          TiledStand(s, tokens, cuts);
          return Ok(tokens);
        case Err(reason) =>
          Rejected(s, done, rest, reason);
          return Err(reason);
      }
    }
  }

  lemma Accepted(s: seq<byte>, done: seq<Piece>)
    requires Normal(done) && PrintAll(done) == s
    ensures AllWellFormed(done)
    ensures forall ps :: Normal(ps) && PrintAll(ps) == s ==> ps == done
  {
    NormalIsWellFormed(done);
    forall ps | Normal(ps) && PrintAll(ps) == s ensures ps == done {
      PrintOnce(ps, done);
    }
  }

  lemma Rejected(s: seq<byte>, done: seq<Piece>, rest: seq<byte>, e: Reason)
    requires NormalBefore(done, rest) && Blames(rest, e) && s == PrintAll(done) + rest
    ensures forall ps :: AllWellFormed(ps) ==> PrintAll(ps) != s
    ensures forall ps :: Normal(ps) ==> PrintAll(ps) != s
  {
    forall ps | Normal(ps) ensures PrintAll(ps) != s {
      StuckIsNotPrinted(done, rest, e, ps);
    }
    forall ps | AllWellFormed(ps) ensures PrintAll(ps) != s {
      assert PrintAll(Normalise(ps)) != s;
    }
  }
}
