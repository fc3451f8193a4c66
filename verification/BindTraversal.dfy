/** The traversal that fills a vector with binds (starlark_lsp/src/bind.rs). */
module BindTraversal {
  import opened Options
  import opened Sequences
  import opened Syntax
  import opened Binds
  import Shapes
  import Blocks

  /** `Vec<Bind>` */
  class BindVec {
    var items: seq<Bind>

    constructor ()
      ensures items == []
    {
      items := [];
    }

    method Push(b: Bind)
      modifies this
      ensures items == old(items) + [b]
    {
      items := items + [b];
    }
  }

  method VisitExpr(x: Expr, res: BindVec)
    modifies res
    ensures res.items == old(res.items) + ExprBinds(x)
    decreases x, 1
  {
    ghost var before := res.items;
    match x
    case Identifier(id) =>
      res.Push(Get(id));
    case StringLiteral(_) =>
    case Lambda(params, body) =>
      var inner := new BindVec();
      VisitParameters(params, res, inner);
      VisitExpr(body, inner);
      var scope := NewScope(inner.items);
      res.Push(Inner(scope));
      Associate(before, ParamsReadBinds(params), [Inner(scope)]);
      assert inner.items == ParamsSetBinds(params) + ExprBinds(body);
    case Dot(lhs, attribute) =>
      DotAccess(lhs, [attribute], res);
    case Comprehension(results, first, clauses) =>
      VisitComprehension(x, res);
    case Call(callee, args) =>
      VisitExpr(callee, res);
      VisitExprs(args, res);
      Associate(before, ExprBinds(callee), ExprsBinds(args));
    case Node(children) =>
      VisitExprs(children, res);
  }

  method VisitExprs(xs: seq<Expr>, res: BindVec)
    modifies res
    ensures res.items == old(res.items) + ExprsBinds(xs)
    decreases xs
  {
    ghost var before := res.items;
    var i := 0;
    while i < |xs|
      invariant i <= |xs|
      invariant res.items + ExprsBinds(xs[i..]) == before + ExprsBinds(xs)
    {
      ghost var items := res.items;
      VisitExpr(xs[i], res);
      assert xs[i..][1..] == xs[i + 1..];
      Associate(items, ExprBinds(xs[i]), ExprsBinds(xs[i + 1..]));
      i := i + 1;
    }
    assert xs[i..] == [];
  }

  method VisitOpt(x: Option<Expr>, res: BindVec)
    modifies res
    ensures res.items == old(res.items) + OptBinds(x)
    decreases x
  {
    match x
    case Some(x) => VisitExpr(x, res);
    case None =>
  }

  /** `comprehension`; its closure `end` visits the results. */
  method VisitComprehension(x: Expr, res: BindVec)
    requires x.Comprehension?
    modifies res
    ensures res.items == old(res.items) + ExprBinds(x)
    decreases x, 0
  {
    ghost var before := res.items;
    VisitExpr(x.first.over, res);
    var inner := new BindVec();
    VisitTarget(x.first.target, inner);
    ghost var targets := inner.items;
    var i := 0;
    while i < |x.clauses|
      invariant i <= |x.clauses| && fresh(inner) && inner != res
      invariant res.items == before + ExprBinds(x.first.over)
      invariant inner.items + ClausesBinds(x.clauses[i..]) == targets + ClausesBinds(x.clauses)
    {
      ghost var items := inner.items;
      VisitClause(x.clauses[i], inner);
      assert x.clauses[i..][1..] == x.clauses[i + 1..];
      Associate(items, ClauseBinds(x.clauses[i]), ClausesBinds(x.clauses[i + 1..]));
      i := i + 1;
    }
    assert x.clauses[i..] == [];
    assert inner.items == targets + ClausesBinds(x.clauses);
    VisitExprs(x.results, inner);
    var scope := NewScope(inner.items);
    res.Push(Inner(scope));
    Associate(before, ExprBinds(x.first.over), [Inner(scope)]);
    assert inner.items == TargetBinds(x.first.target) + ClausesBinds(x.clauses) + ExprsBinds(x.results);
  }

  method VisitClause(c: Clause, inner: BindVec)
    modifies inner
    ensures inner.items == old(inner.items) + ClauseBinds(c)
    decreases c
  {
    ghost var before := inner.items;
    match c
    case For(c) =>
      VisitExpr(c.over, inner);
      VisitTarget(c.target, inner);
      Associate(before, ExprBinds(c.over), TargetBinds(c.target));
    case If(condition) =>
      VisitExpr(condition, inner);
  }

  /** `dot_access`: keeps going while there is a chain of dots and calls; otherwise bails out. */
  method DotAccess(x: Expr, attributes: seq<Ident>, res: BindVec)
    modifies res
    ensures res.items == old(res.items) + DotBinds(x, attributes)
    decreases x, 2
  {
    ghost var before := res.items;
    match x
    case Identifier(id) =>
      res.Push(GetDotted(id, Reversed(attributes)));
    case Dot(lhs, attribute) =>
      DotAccess(lhs, attributes + [attribute], res);
    case Call(callee, args) =>
      DotAccess(callee, attributes, res);
      VisitExprs(args, res);
      Associate(before, DotBinds(callee, attributes), ExprsBinds(args));
    case _ =>
      VisitExpr(x, res);
  }

  /** `expr_lvalue` */
  method VisitTarget(t: Target, res: BindVec)
    modifies res
    ensures res.items == old(res.items) + TargetBinds(t)
    ensures t.Name? ==> res.items == old(res.items) + [Set(Assigned, t.id)]
    decreases t, 1
  {
    ghost var before := res.items;
    VisitTargetExprs(t, res);
    VisitNames(t, id => Set(Assigned, id), res);
    Associate(before, TargetReadBinds(t), TargetSetBinds(t));
  }

  /** `AssignTarget::visit_expr` */
  method VisitTargetExprs(t: Target, res: BindVec)
    modifies res
    ensures res.items == old(res.items) + TargetReadBinds(t)
    decreases t, 0
  {
    ghost var before := res.items;
    match t
    case Tuple(ts) =>
      var i := 0;
      while i < |ts|
        invariant i <= |ts|
        invariant res.items + TargetsReadBinds(ts[i..]) == before + TargetsReadBinds(ts)
      {
        ghost var items := res.items;
        VisitTargetExprs(ts[i], res);
        assert ts[i..][1..] == ts[i + 1..];
        Associate(items, TargetReadBinds(ts[i]), TargetsReadBinds(ts[i + 1..]));
        i := i + 1;
      }
      assert ts[i..] == [];
    case Index(indexed, index) =>
      VisitExpr(indexed, res);
      VisitExpr(index, res);
      Associate(before, ExprBinds(indexed), ExprBinds(index));
    case Field(base) =>
      VisitExpr(base, res);
    case Name(_) =>
  }

  /** `AssignTarget::visit_lvalue` */
  method VisitNames(t: Target, f: Ident -> Bind, res: BindVec)
    modifies res
    ensures res.items == old(res.items) + TargetEach(t, f)
    decreases t
  {
    ghost var before := res.items;
    match t
    case Tuple(ts) =>
      var i := 0;
      while i < |ts|
        invariant i <= |ts|
        invariant res.items + TargetsEach(ts[i..], f) == before + TargetsEach(ts, f)
      {
        ghost var items := res.items;
        VisitNames(ts[i], f, res);
        assert ts[i..][1..] == ts[i + 1..];
        Associate(items, TargetEach(ts[i], f), TargetsEach(ts[i + 1..], f));
        i := i + 1;
      }
      assert ts[i..] == [];
    case Name(id) =>
      res.Push(f(id));
    case _ =>
  }

  /** `parameters`: types and defaults are read outside, names are set inside. */
  method VisitParameters(ps: seq<Param>, res: BindVec, inner: BindVec)
    requires res != inner
    modifies res, inner
    ensures res.items == old(res.items) + ParamsReadBinds(ps)
    ensures inner.items == old(inner.items) + ParamsSetBinds(ps)
    decreases ps
  {
    ghost var outside, inside := res.items, inner.items;
    var i := 0;
    while i < |ps|
      invariant i <= |ps|
      invariant res.items + ParamsReadBinds(ps[i..]) == outside + ParamsReadBinds(ps)
      invariant inner.items + ParamsSetBinds(ps[i..]) == inside + ParamsSetBinds(ps)
    {
      ghost var items, sets := res.items, inner.items;
      VisitParameter(ps[i], res, inner);
      assert ps[i..][1..] == ps[i + 1..];
      Associate(items, ParamReadBinds(ps[i]), ParamsReadBinds(ps[i + 1..]));
      Associate(sets, ParamSetBinds(ps[i]), ParamsSetBinds(ps[i + 1..]));
      i := i + 1;
    }
    assert ps[i..] == [];
  }

  method VisitParameter(p: Param, res: BindVec, inner: BindVec)
    requires res != inner
    modifies res, inner
    ensures res.items == old(res.items) + ParamReadBinds(p)
    ensures inner.items == old(inner.items) + ParamSetBinds(p)
    ensures p.name.Some? ==> inner.items == old(inner.items) + [Set(Argument, p.name.value)]
    decreases p
  {
    ghost var before := res.items;
    VisitOpt(p.typ, res);
    VisitOpt(p.default, res);
    Associate(before, OptBinds(p.typ), OptBinds(p.default));
    if p.name.Some? {
      inner.Push(Set(Argument, p.name.value));
    }
  }

  method VisitStmt(s: Stmt, res: BindVec)
    modifies res
    ensures res.items == old(res.items) + StmtBinds(s)
    decreases s, 1
  {
    ghost var before := res.items;
    match s
    case Statements(ss) => VisitStmts(ss, res);
    case Break => res.Push(Flow);
    case Continue => res.Push(Flow);
    case Pass =>
    case Return(value) =>
      VisitOpt(value, res);
      res.Push(Flow);
      Associate(before, OptBinds(value), [Flow]);
    case Expression(x) => VisitExpr(x, res);
    case IfThen(_, _) => VisitIf(s, res);
    case IfElse(_, _, _) => VisitIf(s, res);
    case Def(_, _, _, _) => VisitDef(s, res);
    case Assign(_, _, _) => VisitAssign(s, res);
    case AssignModify(_, _) => VisitAssign(s, res);
    case ForLoop(target, over, body) =>
      VisitExpr(over, res);
      VisitTarget(target, res);
      res.Push(Flow);
      VisitStmt(body, res);
      res.Push(Flow);
      AppendFive(before, ExprBinds(over), TargetBinds(target), [Flow], StmtBinds(body), [Flow]);
    case Load(path, loads) => VisitLoads(path, loads, res);
  }

  lemma AppendFive(s: seq<Bind>, a: seq<Bind>, b: seq<Bind>, c: seq<Bind>, d: seq<Bind>, e: seq<Bind>)
    ensures s + a + b + c + d == s + (a + b + c + d)
    ensures s + a + b + c + d + e == s + (a + b + c + d + e)
  {
    Associate(s, a, b);
    Associate(s, a + b, c);
    Associate(s, a + b + c, d);
    Associate(s, a + b + c + d, e);
  }

  method VisitStmts(ss: seq<Stmt>, res: BindVec)
    modifies res
    ensures res.items == old(res.items) + StmtsBinds(ss)
    decreases ss, 0
  {
    ghost var before := res.items;
    var i := 0;
    while i < |ss|
      invariant i <= |ss|
      invariant res.items + StmtsBinds(ss[i..]) == before + StmtsBinds(ss)
    {
      ghost var items := res.items;
      VisitStmt(ss[i], res);
      assert ss[i..][1..] == ss[i + 1..];
      Associate(items, StmtBinds(ss[i]), StmtsBinds(ss[i + 1..]));
      i := i + 1;
    }
    assert ss[i..] == [];
  }

  method VisitIf(s: Stmt, res: BindVec)
    requires s.IfThen? || s.IfElse?
    modifies res
    ensures res.items == old(res.items) + StmtBinds(s)
    decreases s, 0
  {
    ghost var before := res.items;
    VisitExpr(s.condition, res);
    res.Push(Flow);
    VisitStmt(s.then_, res);
    res.Push(Flow);
    ghost var a, b := ExprBinds(s.condition), StmtBinds(s.then_);
    AppendFive(before, a, [Flow], b, [Flow], []);
    if s.IfElse? {
      VisitStmt(s.else_, res);
      res.Push(Flow);
      Associate(before, a + [Flow] + b + [Flow], StmtBinds(s.else_));
      Associate(before, a + [Flow] + b + [Flow] + StmtBinds(s.else_), [Flow]);
    }
  }

  method VisitDef(s: Stmt, res: BindVec)
    requires s.Def?
    modifies res
    ensures res.items == old(res.items) + StmtBinds(s)
    decreases s, 0
  {
    ghost var before := res.items;
    VisitOpt(s.returnType, res);
    var inner := new BindVec();
    VisitParameters(s.params, res, inner);
    assert inner.items == ParamsSetBinds(s.params);
    res.Push(Set(Assigned, s.name));
    VisitStmt(s.body, inner);
    var scope := NewScope(inner.items);
    res.Push(Inner(scope));
    AppendFive(before, OptBinds(s.returnType), ParamsReadBinds(s.params), [Set(Assigned, s.name)], [Inner(scope)], []);
  }

  /** For `a += b`, the names of `a` are read before they are set. */
  method VisitAssign(s: Stmt, res: BindVec)
    requires s.Assign? || s.AssignModify?
    modifies res
    ensures res.items == old(res.items) + StmtBinds(s)
    decreases s, 0
  {
    ghost var before := res.items;
    if s.Assign? {
      VisitOpt(s.typ, res);
      VisitExpr(s.rhs, res);
      VisitTarget(s.lhs, res);
      AppendFive(before, OptBinds(s.typ), ExprBinds(s.rhs), TargetBinds(s.lhs), [], []);
    } else {
      VisitTargetExprs(s.lhs, res);
      var read := id => Get(id);
      VisitNames(s.lhs, read, res);
      VisitExpr(s.rhs, res);
      VisitTarget(s.lhs, res);
      AppendFive(before, TargetReadBinds(s.lhs), TargetEach(s.lhs, read), ExprBinds(s.rhs), TargetBinds(s.lhs), []);
      ModifyBinds(s, read);
    }
  }

  lemma ModifyBinds(s: Stmt, read: Ident -> Bind)
    requires s.AssignModify? && forall id :: read(id) == Get(id)
    ensures StmtBinds(s) ==
      TargetReadBinds(s.lhs) + TargetEach(s.lhs, read) + ExprBinds(s.rhs) + TargetBinds(s.lhs)
  {
    SameEach(s.lhs, id => Get(id), read);
  }

  lemma {:induction false} SameEach(t: Target, f: Ident -> Bind, g: Ident -> Bind)
    requires forall id :: f(id) == g(id)
    ensures TargetEach(t, f) == TargetEach(t, g)
  {
    if t.Tuple? {
      SameOfAll(t.targets, f, g);
    }
  }

  lemma {:induction false} SameOfAll(ts: seq<Target>, f: Ident -> Bind, g: Ident -> Bind)
    requires forall id :: f(id) == g(id)
    ensures TargetsEach(ts, f) == TargetsEach(ts, g)
  {
    if ts != [] {
      SameEach(ts[0], f, g);
      SameOfAll(ts[1..], f, g);
    }
  }

  method VisitLoads(path: Ident, loads: seq<LoadArg>, res: BindVec)
    modifies res
    ensures res.items == old(res.items) + LoadBinds(path, loads)
    ensures |res.items| == |old(res.items)| + |loads|
    ensures forall i :: 0 <= i < |loads| ==>
      res.items[|old(res.items)| + i] == Set(Loaded(path, loads[i].their), loads[i].local)
  {
    ghost var before := res.items;
    var i := 0;
    while i < |loads|
      invariant i <= |loads|
      invariant res.items + LoadBinds(path, loads[i..]) == before + LoadBinds(path, loads)
    {
      ghost var items := res.items;
      res.Push(Set(Loaded(path, loads[i].their), loads[i].local));
      assert loads[i..][1..] == loads[i + 1..];
      Associate(items, [Set(Loaded(path, loads[i].their), loads[i].local)], LoadBinds(path, loads[i + 1..]));
      i := i + 1;
    }
    assert loads[i..] == [];
    LoadsInOrder(path, loads);
  }

  lemma {:induction false} LoadsInOrder(path: Ident, loads: seq<LoadArg>)
    ensures |LoadBinds(path, loads)| == |loads|
    ensures forall i :: 0 <= i < |loads| ==>
      LoadBinds(path, loads)[i] == Set(Loaded(path, loads[i].their), loads[i].local)
  {
    if loads != [] {
      LoadsInOrder(path, loads[1..]);
    }
  }

  /** `scope`: the scope of a module.  It describes the module's block; a name is bound to its first assignment
      in the block, and what is free is read where the scope says. */
  method ModuleScope(module_: Stmt) returns (r: Scope)
    ensures r == ScopeOf(StmtBinds(module_))
    ensures Shapes.ShapeOf(r.inner) == Blocks.StmtPart(module_)
    ensures var block := Blocks.StmtPart(module_);
      && (forall name ::
           Blocks.FirstOf(block.assignments, name, if name in r.bound then Some(r.bound[name]) else None))
      && (forall name :: name in r.free ==> Blocks.IsRead(Blocks.AllReadings(block), Ident(name, r.free[name])))
  {
    var res := new BindVec();
    VisitStmt(module_, res);
    r := NewScope(res.items);
    Shapes.ModuleScopeIsBlock(module_);
  }
}
