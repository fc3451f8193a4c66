/** Looking for a string or a load statement at a position of a syntax tree
    (`find_definition_from_ast` in starlark_lsp/src/definition.rs). */
module AstSearch {
  import opened CodeMaps
  import opened Integers
  import opened Options
  import opened Sequences
  import opened Syntax

  /** The answers of the language server. */
  datatype IdentifierDefinition =
    | LocationOf(source: Span, destination: Span, name: string)
    | LoadedLocationOf(source: Span, destination: Span, path: string, name: string)
    | LoadPath(source: Span, path: string)
    | LiteralAt(source: Span, literal: string)
    | Unresolved(source: Span, name: string)
    | Missing

  /** What to answer at the positions of a span. */
  datatype Hint = Hint(span: Span, answer: IdentifierDefinition)

  // ---- the hints of a tree, in the order of `visit_children` ----

  function ExprHints(x: Expr): seq<Hint> {
    match x
    case Identifier(_) => []
    case StringLiteral(text) => [Hint(text.span, LiteralAt(text.span, text.name))]
    case Lambda(params, body) => ParamsHints(params) + ExprHints(body)
    case Dot(base, _) => ExprHints(base)
    case Call(callee, args) => ExprHints(callee) + ExprsHints(args)
    case Comprehension(results, first, clauses) => ForHints(first) + ClausesHints(clauses) + ExprsHints(results)
    case Node(children) => ExprsHints(children)
  }

  function ExprsHints(xs: seq<Expr>): seq<Hint> {
    if xs == [] then [] else ExprHints(xs[0]) + ExprsHints(xs[1..])
  }

  function OptHints(x: Option<Expr>): seq<Hint> {
    match x
    case None => []
    case Some(x) => ExprHints(x)
  }

  function ParamsHints(ps: seq<Param>): seq<Hint> {
    if ps == [] then [] else ParamHints(ps[0]) + ParamsHints(ps[1..])
  }

  function ParamHints(p: Param): seq<Hint> {
    OptHints(p.typ) + OptHints(p.default)
  }

  function ForHints(c: ForClause): seq<Hint> {
    TargetHints(c.target) + ExprHints(c.over)
  }

  function ClausesHints(cs: seq<Clause>): seq<Hint> {
    if cs == [] then [] else ClauseHints(cs[0]) + ClausesHints(cs[1..])
  }

  function ClauseHints(c: Clause): seq<Hint> {
    match c
    case For(c) => ForHints(c)
    case If(condition) => ExprHints(condition)
  }

  function TargetHints(t: Target): seq<Hint> {
    match t
    case Tuple(ts) => TargetsHints(ts)
    case Index(indexed, index) => ExprHints(indexed) + ExprHints(index)
    case Field(base) => ExprHints(base)
    case Name(_) => []
  }

  function TargetsHints(ts: seq<Target>): seq<Hint> {
    if ts == [] then [] else TargetHints(ts[0]) + TargetsHints(ts[1..])
  }

  function StmtHints(s: Stmt): seq<Hint> {
    match s
    case Return(value) => OptHints(value)
    case Expression(x) => ExprHints(x)
    case Assign(lhs, typ, rhs) => TargetHints(lhs) + OptHints(typ) + ExprHints(rhs)
    case AssignModify(lhs, rhs) => TargetHints(lhs) + ExprHints(rhs)
    case Statements(ss) => StmtsHints(ss)
    case IfThen(a, b) => ExprHints(a) + StmtHints(b)
    case IfElse(a, b, c) => ExprHints(a) + StmtHints(b) + StmtHints(c)
    case ForLoop(target, over, body) => TargetHints(target) + ExprHints(over) + StmtHints(body)
    case Def(_, ps, returnType, body) => ParamsHints(ps) + OptHints(returnType) + StmtHints(body)
    case Load(path, loads) => [Hint(path.span, LoadPath(path.span, path.name))] + LoadsHints(path, loads)
    case _ => []
  }

  function StmtsHints(ss: seq<Stmt>): seq<Hint> {
    if ss == [] then [] else StmtHints(ss[0]) + StmtsHints(ss[1..])
  }

  /** Either name of a load leads to where the other module's name is written. */
  function LoadsHints(path: Ident, loads: seq<LoadArg>): seq<Hint> {
    if loads == [] then [] else LoadHints(path, loads[0]) + LoadsHints(path, loads[1..])
  }

  function LoadHints(path: Ident, load: LoadArg): seq<Hint> {
    var answer := LoadedLocationOf(load.their.span, load.their.span, path.name, load.their.name);
    [Hint(load.local.span, answer), Hint(load.their.span, answer)]
  }

  /** The answer of the first hint at a position. */
  function FirstHint(hints: seq<Hint>, pos: u32): (r: Option<IdentifierDefinition>)
    ensures r == None ==> forall i :: 0 <= i < |hints| ==> !hints[i].span.Contains(pos)
    ensures r.Some? ==> exists i: nat :: IsFirstAt(hints, i, pos) && r == Some(hints[i].answer)
  {
    if hints == [] then None
    else if hints[0].span.Contains(pos) then
      assert IsFirstAt(hints, 0, pos);
      Some(hints[0].answer)
    else
      var r := FirstHint(hints[1..], pos);
      assert forall i :: 0 < i < |hints| ==> hints[i] == hints[1..][i - 1];
      assert forall i: nat :: IsFirstAt(hints[1..], i, pos) ==> IsFirstAt(hints, i + 1, pos);
      r
  }

  predicate IsFirstAt(hints: seq<Hint>, i: nat, pos: u32) {
    i < |hints| && hints[i].span.Contains(pos) && forall j :: 0 <= j < i ==> !hints[j].span.Contains(pos)
  }

  /** What is found, given what was found before. */
  function Pick(found: Option<IdentifierDefinition>, hints: seq<Hint>, pos: u32): Option<IdentifierDefinition> {
    if found.Some? then found else FirstHint(hints, pos)
  }

  lemma {:induction false} PickBoth(found: Option<IdentifierDefinition>, a: seq<Hint>, b: seq<Hint>, pos: u32)
    ensures Pick(found, a + b, pos) == Pick(Pick(found, a, pos), b, pos)
    decreases |a|
  {
    if a == [] {
      assert a + b == b;
    } else {
      PickBoth(found, a[1..], b, pos);
      assert (a + b)[1..] == a[1..] + b;
    }
  }

  lemma PickThree(found: Option<IdentifierDefinition>, a: seq<Hint>, b: seq<Hint>, c: seq<Hint>, pos: u32)
    ensures Pick(found, a + b + c, pos) == Pick(Pick(Pick(found, a, pos), b, pos), c, pos)
  {
    PickBoth(found, a + b, c, pos);
    PickBoth(found, a, b, pos);
  }

  // ---- the search ----

  class Search {
    const pos: u32
    var ret: Option<IdentifierDefinition>

    constructor (pos: u32)
      ensures this.pos == pos && ret == None
    {
      this.pos, ret := pos, None;
    }

    /** `visit_node` on an expression: stops at the first string at the position. */
    method VisitExpr(x: Expr)
      modifies this
      ensures ret == Pick(old(ret), ExprHints(x), pos)
      ensures x.StringLiteral? && old(ret) == None && x.text.span.Contains(pos) ==>
        ret == Some(LiteralAt(x.text.span, x.text.name))
      decreases x
    {
      hide FirstHint;
      if ret.Some? {
        return;
      }
      match x
      case Identifier(_) => NoHints(pos);
      case StringLiteral(text) =>
        OneHint(ExprHints(x)[0], pos);
        if text.span.Contains(pos) {
          ret := Some(LiteralAt(text.span, text.name));
        }
      case Lambda(params, body) =>
        PickBoth(ret, ParamsHints(params), ExprHints(body), pos);
        VisitParams(params);
        VisitExpr(body);
      case Dot(base, _) => VisitExpr(base);
      case Call(callee, args) =>
        PickBoth(ret, ExprHints(callee), ExprsHints(args), pos);
        VisitExpr(callee);
        VisitExprs(args);
      case Comprehension(results, first, clauses) =>
        PickThree(ret, ForHints(first), ClausesHints(clauses), ExprsHints(results), pos);
        VisitFor(first);
        VisitClauses(clauses);
        VisitExprs(results);
      case Node(children) => VisitExprs(children);
    }

    method VisitExprs(xs: seq<Expr>)
      modifies this
      ensures ret == Pick(old(ret), ExprsHints(xs), pos)
      decreases xs
    {
      hide FirstHint;
      NoHints(pos);
      var i := 0;
      while i < |xs|
        invariant i <= |xs| && Pick(ret, ExprsHints(xs[i..]), pos) == Pick(old(ret), ExprsHints(xs), pos)
      {
        assert xs[i..][1..] == xs[i + 1..];
        PickBoth(ret, ExprHints(xs[i]), ExprsHints(xs[i + 1..]), pos);
        VisitExpr(xs[i]);
        i := i + 1;
      }
    }

    method VisitOpt(x: Option<Expr>)
      modifies this
      ensures ret == Pick(old(ret), OptHints(x), pos)
      decreases x
    {
      match x
      case None =>
      case Some(x) => VisitExpr(x);
    }

    method VisitParams(ps: seq<Param>)
      modifies this
      ensures ret == Pick(old(ret), ParamsHints(ps), pos)
      decreases ps
    {
      hide FirstHint;
      NoHints(pos);
      var i := 0;
      while i < |ps|
        invariant i <= |ps| && Pick(ret, ParamsHints(ps[i..]), pos) == Pick(old(ret), ParamsHints(ps), pos)
      {
        assert ps[i..][1..] == ps[i + 1..];
        PickBoth(ret, ParamHints(ps[i]), ParamsHints(ps[i + 1..]), pos);
        VisitParam(ps[i]);
        i := i + 1;
      }
    }

    method VisitParam(p: Param)
      modifies this
      ensures ret == Pick(old(ret), ParamHints(p), pos)
      decreases p
    {
      PickBoth(ret, OptHints(p.typ), OptHints(p.default), pos);
      VisitOpt(p.typ);
      VisitOpt(p.default);
    }

    method VisitFor(c: ForClause)
      modifies this
      ensures ret == Pick(old(ret), ForHints(c), pos)
      decreases c
    {
      PickBoth(ret, TargetHints(c.target), ExprHints(c.over), pos);
      VisitTarget(c.target);
      VisitExpr(c.over);
    }

    method VisitClauses(cs: seq<Clause>)
      modifies this
      ensures ret == Pick(old(ret), ClausesHints(cs), pos)
      decreases cs
    {
      hide FirstHint;
      NoHints(pos);
      var i := 0;
      while i < |cs|
        invariant i <= |cs| && Pick(ret, ClausesHints(cs[i..]), pos) == Pick(old(ret), ClausesHints(cs), pos)
      {
        assert cs[i..][1..] == cs[i + 1..];
        PickBoth(ret, ClauseHints(cs[i]), ClausesHints(cs[i + 1..]), pos);
        VisitClause(cs[i]);
        i := i + 1;
      }
    }

    method VisitClause(c: Clause)
      modifies this
      ensures ret == Pick(old(ret), ClauseHints(c), pos)
      decreases c
    {
      match c
      case For(c) => VisitFor(c);
      case If(condition) => VisitExpr(condition);
    }

    method VisitTarget(t: Target)
      modifies this
      ensures ret == Pick(old(ret), TargetHints(t), pos)
      decreases t
    {
      hide FirstHint;
      NoHints(pos);
      match t
      case Tuple(ts) =>
        var i := 0;
        while i < |ts|
          invariant i <= |ts| && Pick(ret, TargetsHints(ts[i..]), pos) == Pick(old(ret), TargetsHints(ts), pos)
        {
          assert ts[i..][1..] == ts[i + 1..];
          PickBoth(ret, TargetHints(ts[i]), TargetsHints(ts[i + 1..]), pos);
          VisitTarget(ts[i]);
          i := i + 1;
        }
      case Index(indexed, index) =>
        PickBoth(ret, ExprHints(indexed), ExprHints(index), pos);
        VisitExpr(indexed);
        VisitExpr(index);
      case Field(base) => VisitExpr(base);
      case Name(_) =>
    }

    /** `visit_node` on a statement. */
    method VisitStmt(s: Stmt)
      modifies this
      ensures ret == Pick(old(ret), StmtHints(s), pos)
      decreases s, 1
    {
      hide FirstHint;
      if ret.Some? {
        return;
      }
      NoHints(pos);
      match s
      case Load(path, loads) => VisitLoad(path, loads);
      case Statements(ss) =>
        var i := 0;
        while i < |ss|
          invariant i <= |ss| && Pick(ret, StmtsHints(ss[i..]), pos) == Pick(old(ret), StmtsHints(ss), pos)
        {
          assert ss[i..][1..] == ss[i + 1..];
          PickBoth(ret, StmtHints(ss[i]), StmtsHints(ss[i + 1..]), pos);
          VisitStmt(ss[i]);
          i := i + 1;
        }
      case _ => VisitParts(s);
    }

    /** `visit_children` of the other statements. */
    method VisitParts(s: Stmt)
      requires !s.Load? && !s.Statements?
      modifies this
      ensures ret == Pick(old(ret), StmtHints(s), pos)
      decreases s, 0
    {
      hide FirstHint;
      NoHints(pos);
      match s
      case Return(value) => VisitOpt(value);
      case Expression(x) => VisitExpr(x);
      case Assign(lhs, typ, rhs) =>
        PickThree(ret, TargetHints(lhs), OptHints(typ), ExprHints(rhs), pos);
        VisitTarget(lhs);
        VisitOpt(typ);
        VisitExpr(rhs);
      case AssignModify(lhs, rhs) =>
        PickBoth(ret, TargetHints(lhs), ExprHints(rhs), pos);
        VisitTarget(lhs);
        VisitExpr(rhs);
      case IfThen(a, b) =>
        PickBoth(ret, ExprHints(a), StmtHints(b), pos);
        VisitExpr(a);
        VisitStmt(b);
      case IfElse(a, b, c) =>
        PickThree(ret, ExprHints(a), StmtHints(b), StmtHints(c), pos);
        VisitExpr(a);
        VisitStmt(b);
        VisitStmt(c);
      case ForLoop(target, over, body) =>
        PickThree(ret, TargetHints(target), ExprHints(over), StmtHints(body), pos);
        VisitTarget(target);
        VisitExpr(over);
        VisitStmt(body);
      case Def(_, ps, returnType, body) =>
        PickThree(ret, ParamsHints(ps), OptHints(returnType), StmtHints(body), pos);
        VisitParams(ps);
        VisitOpt(returnType);
        VisitStmt(body);
      case _ =>
    }

    method VisitLoad(path: Ident, loads: seq<LoadArg>)
      requires ret == None
      modifies this
      ensures ret == Pick(None, StmtHints(Load(path, loads)), pos)
      ensures path.span.Contains(pos) ==> ret == Some(LoadPath(path.span, path.name))
      ensures !path.span.Contains(pos) ==> FirstPair(path, loads, pos, ret)
    {
      var hint := Hint(path.span, LoadPath(path.span, path.name));
      OneHint(hint, pos);
      PickBoth(None, [hint], LoadsHints(path, loads), pos);
      if path.span.Contains(pos) {
        ret := Some(hint.answer);
      } else {
        VisitLoadArgs(path, loads);
      }
    }

    /** The first loaded name at the position. */
    method VisitLoadArgs(path: Ident, loads: seq<LoadArg>)
      requires ret == None
      modifies this
      ensures ret == FirstHint(LoadsHints(path, loads), pos)
      ensures FirstPair(path, loads, pos, ret)
    {
      hide FirstHint;
      NoHints(pos);
      var i := 0;
      while i < |loads|
        invariant i <= |loads| && ret == None
        invariant forall j: nat :: j < i ==> !PairAt(Load(path, loads), j, pos)
        invariant FirstHint(LoadsHints(path, loads[i..]), pos) == FirstHint(LoadsHints(path, loads), pos)
      {
        var load := loads[i];
        assert loads[i..][1..] == loads[i + 1..];
        PickBoth(None, LoadHints(path, load), LoadsHints(path, loads[i + 1..]), pos);
        TwoHints(path, load, pos);
        if load.local.span.Contains(pos) || load.their.span.Contains(pos) {
          ret := Some(LoadedLocationOf(load.their.span, load.their.span, path.name, load.their.name));
          assert PairAt(Load(path, loads), i, pos);
          return;
        }
        i := i + 1;
      }
    }
  }

  /** The first loaded pair with a name at the position tells the name in the other module, and where it is. */
  ghost predicate FirstPair(path: Ident, loads: seq<LoadArg>, pos: u32, r: Option<IdentifierDefinition>) {
    match r
    case None => forall j: nat :: !PairAt(Load(path, loads), j, pos)
    case Some(answer) =>
      exists i: nat :: PairAt(Load(path, loads), i, pos) &&
        answer == LoadedLocationOf(loads[i].their.span, loads[i].their.span, path.name, loads[i].their.name) &&
        forall j: nat :: j < i ==> !PairAt(Load(path, loads), j, pos)
  }

  lemma NoHints(pos: u32)
    ensures FirstHint([], pos) == None
  {
  }

  lemma OneHint(h: Hint, pos: u32)
    ensures FirstHint([h], pos) == if h.span.Contains(pos) then Some(h.answer) else None
  {
  }

  lemma TwoHints(path: Ident, load: LoadArg, pos: u32)
    ensures FirstHint(LoadHints(path, load), pos) ==
      if load.local.span.Contains(pos) || load.their.span.Contains(pos)
      then Some(LoadHints(path, load)[0].answer) else None
  {
    var hints := LoadHints(path, load);
    OneHint(hints[1], pos);
    assert hints[1..] == [hints[1]];
  }

  /** The answer the syntax tree gives at a position. */
  function AstAnswer(module_: Stmt, pos: u32): IdentifierDefinition {
    match FirstHint(StmtHints(module_), pos)
    case None => Missing
    case Some(answer) => answer
  }

  // ---- the answer, told by the strings and loads of the tree ----

  ghost predicate FromString(h: Hint, texts: set<Ident>) {
    exists text :: text in texts && h == Hint(text.span, LiteralAt(text.span, text.name))
  }

  ghost predicate FromLoad(h: Hint, load: Stmt)
    requires load.Load?
  {
    || h == Hint(load.path.span, LoadPath(load.path.span, load.path.name))
    || exists i :: 0 <= i < |load.loads| && FromPair(h, load.path, load.loads[i])
  }

  predicate FromPair(h: Hint, path: Ident, pair: LoadArg) {
    && (h.span == pair.local.span || h.span == pair.their.span)
    && h.answer == LoadedLocationOf(pair.their.span, pair.their.span, path.name, pair.their.name)
  }

  ghost predicate FromLoads(h: Hint, loads: set<Stmt>)
    requires forall load :: load in loads ==> load.Load?
  {
    exists load :: load in loads && FromLoad(h, load)
  }

  /** The hints are those of these strings and loads. */
  ghost predicate Describe(hints: seq<Hint>, texts: set<Ident>, loads: set<Stmt>)
    requires forall load :: load in loads ==> load.Load?
  {
    forall h :: h in hints <==> FromString(h, texts) || FromLoads(h, loads)
  }

  lemma DescribeBoth(a: seq<Hint>, texts: set<Ident>, loads: set<Stmt>,
      b: seq<Hint>, texts': set<Ident>, loads': set<Stmt>)
    requires forall load :: load in loads + loads' ==> load.Load?
    requires Describe(a, texts, loads) && Describe(b, texts', loads')
    ensures Describe(a + b, texts + texts', loads + loads')
  {
    hide FromLoad;
    forall h
      ensures FromString(h, texts + texts') <==> FromString(h, texts) || FromString(h, texts')
      ensures FromLoads(h, loads + loads') <==> FromLoads(h, loads) || FromLoads(h, loads')
    {
    }
  }

  lemma DescribeTexts(a: seq<Hint>, texts: set<Ident>, b: seq<Hint>, texts': set<Ident>)
    requires Describe(a, texts, {}) && Describe(b, texts', {})
    ensures Describe(a + b, texts + texts', {})
  {
    DescribeBoth(a, texts, {}, b, texts', {});
  }

  lemma NothingToDescribe()
    ensures Describe([], {}, {})
  {
  }

  lemma {:induction false} ExprDescribed(x: Expr)
    ensures Describe(ExprHints(x), StringsIn(x), {})
  {
    hide Describe;
    NothingToDescribe();
    match x
    case Identifier(_) =>
    case StringLiteral(text) => TextDescribed(text);
    case Lambda(params, body) =>
      ParamsDescribed(params);
      ExprDescribed(body);
      DescribeTexts(ParamsHints(params), ParamsStrings(params), ExprHints(body), StringsIn(body));
    case Dot(base, _) => ExprDescribed(base);
    case Call(callee, args) =>
      ExprDescribed(callee);
      ExprsDescribed(args);
      DescribeTexts(ExprHints(callee), StringsIn(callee), ExprsHints(args), AllStrings(args));
    case Comprehension(results, first, clauses) =>
      ForDescribed(first);
      ClausesDescribed(clauses);
      ExprsDescribed(results);
      DescribeTexts(ForHints(first), ForStrings(first), ClausesHints(clauses), ClausesStrings(clauses));
      DescribeTexts(ForHints(first) + ClausesHints(clauses), ForStrings(first) + ClausesStrings(clauses),
        ExprsHints(results), AllStrings(results));
      assert ForStrings(first) + ClausesStrings(clauses) + AllStrings(results) == StringsIn(x);
    case Node(children) => ExprsDescribed(children);
  }

  lemma TextDescribed(text: Ident)
    ensures Describe([Hint(text.span, LiteralAt(text.span, text.name))], {text}, {})
  {
    var hint := Hint(text.span, LiteralAt(text.span, text.name));
    forall h
      ensures h in [hint] <==> FromString(h, {text}) || FromLoads(h, {})
    {
      assert text in {text};
    }
  }

  lemma {:induction false} ExprsDescribed(xs: seq<Expr>)
    ensures Describe(ExprsHints(xs), AllStrings(xs), {})
  {
    if xs != [] {
      ExprDescribed(xs[0]);
      ExprsDescribed(xs[1..]);
      DescribeTexts(ExprHints(xs[0]), StringsIn(xs[0]), ExprsHints(xs[1..]), AllStrings(xs[1..]));
    }
  }

  lemma {:induction false} OptDescribed(x: Option<Expr>)
    ensures Describe(OptHints(x), OptStrings(x), {})
  {
    match x
    case None =>
    case Some(x) => ExprDescribed(x);
  }

  lemma {:induction false} ParamsDescribed(ps: seq<Param>)
    ensures Describe(ParamsHints(ps), ParamsStrings(ps), {})
  {
    if ps != [] {
      ParamDescribed(ps[0]);
      ParamsDescribed(ps[1..]);
      DescribeTexts(ParamHints(ps[0]), ParamStrings(ps[0]), ParamsHints(ps[1..]), ParamsStrings(ps[1..]));
    }
  }

  lemma {:induction false} ParamDescribed(p: Param)
    ensures Describe(ParamHints(p), ParamStrings(p), {})
  {
    OptDescribed(p.typ);
    OptDescribed(p.default);
    DescribeTexts(OptHints(p.typ), OptStrings(p.typ), OptHints(p.default), OptStrings(p.default));
  }

  lemma {:induction false} ForDescribed(c: ForClause)
    ensures Describe(ForHints(c), ForStrings(c), {})
  {
    TargetDescribed(c.target);
    ExprDescribed(c.over);
    DescribeTexts(TargetHints(c.target), TargetStrings(c.target), ExprHints(c.over), StringsIn(c.over));
    assert TargetStrings(c.target) + StringsIn(c.over) == ForStrings(c);
  }

  lemma {:induction false} ClausesDescribed(cs: seq<Clause>)
    ensures Describe(ClausesHints(cs), ClausesStrings(cs), {})
  {
    if cs != [] {
      ClauseDescribed(cs[0]);
      ClausesDescribed(cs[1..]);
      DescribeTexts(ClauseHints(cs[0]), ClauseStrings(cs[0]), ClausesHints(cs[1..]), ClausesStrings(cs[1..]));
    }
  }

  lemma {:induction false} ClauseDescribed(c: Clause)
    ensures Describe(ClauseHints(c), ClauseStrings(c), {})
  {
    match c
    case For(c) => ForDescribed(c);
    case If(condition) => ExprDescribed(condition);
  }

  lemma {:induction false} TargetDescribed(t: Target)
    ensures Describe(TargetHints(t), TargetStrings(t), {})
  {
    match t
    case Tuple(ts) => TargetsDescribed(ts);
    case Index(indexed, index) =>
      ExprDescribed(indexed);
      ExprDescribed(index);
      DescribeTexts(ExprHints(indexed), StringsIn(indexed), ExprHints(index), StringsIn(index));
    case Field(base) => ExprDescribed(base);
    case Name(_) =>
  }

  lemma {:induction false} TargetsDescribed(ts: seq<Target>)
    ensures Describe(TargetsHints(ts), TargetsStrings(ts), {})
  {
    if ts != [] {
      TargetDescribed(ts[0]);
      TargetsDescribed(ts[1..]);
      DescribeTexts(TargetHints(ts[0]), TargetStrings(ts[0]), TargetsHints(ts[1..]), TargetsStrings(ts[1..]));
    }
  }

  /** A statement's hints are those of the strings and the load statements in it. */
  lemma {:induction false} StmtDescribed(s: Stmt)
    ensures Describe(StmtHints(s), StmtStrings(s), LoadsIn(s))
  {
    hide Describe;
    NothingToDescribe();
    match s
    case Return(value) => OptDescribed(value);
    case Expression(x) => ExprDescribed(x);
    case Assign(lhs, typ, rhs) =>
      TargetDescribed(lhs);
      OptDescribed(typ);
      ExprDescribed(rhs);
      DescribeTexts(TargetHints(lhs), TargetStrings(lhs), OptHints(typ), OptStrings(typ));
      DescribeTexts(TargetHints(lhs) + OptHints(typ), TargetStrings(lhs) + OptStrings(typ),
        ExprHints(rhs), StringsIn(rhs));
    case AssignModify(lhs, rhs) =>
      TargetDescribed(lhs);
      ExprDescribed(rhs);
      DescribeTexts(TargetHints(lhs), TargetStrings(lhs), ExprHints(rhs), StringsIn(rhs));
    case Statements(ss) => StmtsDescribed(ss);
    case IfThen(a, b) =>
      ExprDescribed(a);
      StmtDescribed(b);
      Then(ExprHints(a), StringsIn(a), b);
    case IfElse(a, b, c) =>
      ExprDescribed(a);
      StmtDescribed(b);
      Then(ExprHints(a), StringsIn(a), b);
      StmtDescribed(c);
      DescribeBoth(ExprHints(a) + StmtHints(b), StringsIn(a) + StmtStrings(b), LoadsIn(b),
        StmtHints(c), StmtStrings(c), LoadsIn(c));
    case ForLoop(target, over, body) =>
      TargetDescribed(target);
      ExprDescribed(over);
      DescribeTexts(TargetHints(target), TargetStrings(target), ExprHints(over), StringsIn(over));
      StmtDescribed(body);
      Then(TargetHints(target) + ExprHints(over), TargetStrings(target) + StringsIn(over), body);
    case Def(_, ps, returnType, body) =>
      ParamsDescribed(ps);
      OptDescribed(returnType);
      DescribeTexts(ParamsHints(ps), ParamsStrings(ps), OptHints(returnType), OptStrings(returnType));
      StmtDescribed(body);
      Then(ParamsHints(ps) + OptHints(returnType), ParamsStrings(ps) + OptStrings(returnType), body);
    case Load(_, _) => LoadDescribed(s);
    case _ =>
  }

  lemma Then(hints: seq<Hint>, texts: set<Ident>, s: Stmt)
    requires Describe(hints, texts, {}) && Describe(StmtHints(s), StmtStrings(s), LoadsIn(s))
    ensures Describe(hints + StmtHints(s), texts + StmtStrings(s), LoadsIn(s))
  {
    DescribeBoth(hints, texts, {}, StmtHints(s), StmtStrings(s), LoadsIn(s));
    assert {} + LoadsIn(s) == LoadsIn(s);
  }

  lemma {:induction false} StmtsDescribed(ss: seq<Stmt>)
    ensures Describe(StmtsHints(ss), StmtsStrings(ss), AllLoads(ss))
  {
    if ss != [] {
      StmtDescribed(ss[0]);
      StmtsDescribed(ss[1..]);
      DescribeBoth(StmtHints(ss[0]), StmtStrings(ss[0]), LoadsIn(ss[0]),
        StmtsHints(ss[1..]), StmtsStrings(ss[1..]), AllLoads(ss[1..]));
    }
  }

  lemma LoadDescribed(s: Stmt)
    requires s.Load?
    ensures Describe(StmtHints(s), {}, {s})
  {
    forall h
      ensures h in StmtHints(s) <==> FromString(h, {}) || FromLoads(h, {s})
    {
      PairsDescribed(s.path, s.loads, h);
      assert s in {s};
    }
  }

  lemma {:induction false} PairsDescribed(path: Ident, loads: seq<LoadArg>, h: Hint)
    ensures h in LoadsHints(path, loads) <==> exists i :: 0 <= i < |loads| && FromPair(h, path, loads[i])
  {
    if loads != [] {
      PairsDescribed(path, loads[1..], h);
      assert forall i :: 0 < i < |loads| ==> loads[i] == loads[1..][i - 1];
      assert h in LoadHints(path, loads[0]) <==> FromPair(h, path, loads[0]);
    }
  }

  /** A pair of a load statement with one of its names at a position. */
  predicate PairAt(load: Stmt, i: nat, pos: u32) {
    && load.Load? && i < |load.loads|
    && (load.loads[i].local.span.Contains(pos) || load.loads[i].their.span.Contains(pos))
  }

  /** What may be answered at a position: a string or the path of a load that is there; for either name of a
      loaded pair, the name in the other module, where it is written; or that nothing of this kind is there. */
  ghost predicate Tells(module_: Stmt, pos: u32, r: IdentifierDefinition) {
    match r
    case LiteralAt(span, text) =>
      span.Contains(pos) && Ident(text, span) in StmtStrings(module_)
    case LoadPath(span, path) =>
      span.Contains(pos) && exists load :: load in LoadsIn(module_) && load.path == Ident(path, span)
    case LoadedLocationOf(source, destination, path, name) =>
      exists load, i: nat :: load in LoadsIn(module_) && PairAt(load, i, pos) &&
        source == load.loads[i].their.span && destination == load.loads[i].their.span &&
        path == load.path.name && name == load.loads[i].their.name
    case Missing =>
      && (forall text :: text in StmtStrings(module_) ==> !text.span.Contains(pos))
      && (forall load :: load in LoadsIn(module_) ==> !load.path.span.Contains(pos))
      && (forall load, i: nat :: load in LoadsIn(module_) ==> !PairAt(load, i, pos))
    case _ => false
  }

  lemma AnswerTells(module_: Stmt, pos: u32)
    ensures Tells(module_, pos, AstAnswer(module_, pos))
  {
    StmtDescribed(module_);
    var hints := StmtHints(module_);
    match FirstHint(hints, pos)
    case None =>
      forall text | text in StmtStrings(module_)
        ensures !text.span.Contains(pos)
      {
        var h := Hint(text.span, LiteralAt(text.span, text.name));
        assert FromString(h, StmtStrings(module_));
        assert h in hints;
      }
      forall load | load in LoadsIn(module_)
        ensures !load.path.span.Contains(pos)
        ensures forall i: nat :: !PairAt(load, i, pos)
      {
        NotThere(module_, load, pos);
      }
    case Some(answer) =>
      var i: nat :| IsFirstAt(hints, i, pos) && answer == hints[i].answer;
      assert hints[i] in hints;
      if FromString(hints[i], StmtStrings(module_)) {
      } else {
        var load :| load in LoadsIn(module_) && FromLoad(hints[i], load);
        if answer.LoadedLocationOf? {
          var k :| 0 <= k < |load.loads| && FromPair(hints[i], load.path, load.loads[k]);
          assert PairAt(load, k, pos);
        }
      }
  }

  lemma NotThere(module_: Stmt, load: Stmt, pos: u32)
    requires load in LoadsIn(module_) && Describe(StmtHints(module_), StmtStrings(module_), LoadsIn(module_))
    requires FirstHint(StmtHints(module_), pos) == None
    ensures !load.path.span.Contains(pos)
    ensures forall i: nat :: !PairAt(load, i, pos)
  {
    var hints := StmtHints(module_);
    assert forall h :: h in hints ==> !h.span.Contains(pos);
    var h := Hint(load.path.span, LoadPath(load.path.span, load.path.name));
    assert FromLoads(h, LoadsIn(module_));
    forall i: nat
      ensures !PairAt(load, i, pos)
    {
      if i < |load.loads| {
        var pair := load.loads[i];
        var answer := LoadedLocationOf(pair.their.span, pair.their.span, load.path.name, pair.their.name);
        var a, b := Hint(pair.local.span, answer), Hint(pair.their.span, answer);
        assert FromPair(a, load.path, load.loads[i]) && FromPair(b, load.path, load.loads[i]);
        assert FromLoad(a, load) && FromLoad(b, load);
        assert FromLoads(a, LoadsIn(module_)) && FromLoads(b, LoadsIn(module_));
        assert a in hints && b in hints;
      }
    }
  }

  method FindDefinitionFromAst(module_: Stmt, pos: u32) returns (r: IdentifierDefinition)
    ensures r == AstAnswer(module_, pos)
    ensures Tells(module_, pos, r)
  {
    AnswerTells(module_, pos);
    var search := new Search(pos);
    search.VisitStmt(module_);
    match search.ret
    case None => r := Missing;
    case Some(answer) => r := answer;
  }
}
