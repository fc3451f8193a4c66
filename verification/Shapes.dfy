/** The binds that are collected from a program, and its blocks. */
module Shapes {
  import opened CodeMaps
  import opened Options
  import opened Sequences
  import opened Syntax
  import opened Binds
  import B = Blocks
  import opened Scoping

  /** The block that binds describe. */
  function Shape(b: Bind): B.Block {
    match b
    case Set(assigner, id) => B.Assigns(B.Assignment(assigner, id))
    case Get(id) => B.Reads(B.Alone(id))
    case GetDotted(id, attributes) => B.Reads(B.Chained(id, attributes))
    case Flow => B.NOTHING
    case Inner(scope) => B.Nest(ShapeOf(scope.inner))
  }

  function ShapeOf(binds: seq<Bind>): B.Block {
    if binds == [] then B.NOTHING else B.Join(Shape(binds[0]), ShapeOf(binds[1..]))
  }

  lemma JoinNothing(a: B.Block)
    ensures B.Join(a, B.NOTHING) == a && B.Join(B.NOTHING, a) == a
  {
  }

  lemma JoinAssociates(a: B.Block, b: B.Block, c: B.Block)
    ensures B.Join(B.Join(a, b), c) == B.Join(a, B.Join(b, c))
  {
    Associate(a.assignments, b.assignments, c.assignments);
    Associate(a.readings, b.readings, c.readings);
    Associate(a.inner, b.inner, c.inner);
  }

  lemma {:induction false} Joined(a: seq<Bind>, b: seq<Bind>)
    ensures ShapeOf(a + b) == B.Join(ShapeOf(a), ShapeOf(b))
    decreases |a|
  {
    if a == [] {
      assert a + b == b;
      JoinNothing(ShapeOf(b));
    } else {
      Joined(a[1..], b);
      assert (a + b)[1..] == a[1..] + b;
      JoinAssociates(Shape(a[0]), ShapeOf(a[1..]), ShapeOf(b));
    }
  }

  lemma One(b: Bind)
    ensures ShapeOf([b]) == Shape(b)
  {
    assert [b][1..] == [];
    JoinNothing(Shape(b));
  }

  /** What is collected of an expression is what it does to its block. */
  lemma {:induction false} ExprShape(x: Expr)
    ensures ShapeOf(ExprBinds(x)) == B.ExprPart(x)
    decreases x, 0
  {
    hide ShapeOf, B.Join;
    match x
    case Identifier(id) => One(Get(id));
    case StringLiteral(_) => Empty();
    case Lambda(params, body) =>
      ParamsOutsideShape(params);
      ParamsInsideShape(params);
      ExprShape(body);
      var inner := ParamsSetBinds(params) + ExprBinds(body);
      Joined(ParamsSetBinds(params), ExprBinds(body));
      One(Inner(ScopeOf(inner)));
      Joined(ParamsReadBinds(params), [Inner(ScopeOf(inner))]);
    case Dot(base, attribute) =>
      DotShape(base, [attribute]);
      assert Reversed([attribute]) == [attribute];
    case Comprehension(results, first, clauses) =>
      ExprShape(first.over);
      TargetShape(first.target);
      ClausesShape(clauses);
      ExprsShape(results);
      var a, b, c := TargetBinds(first.target), ClausesBinds(clauses), ExprsBinds(results);
      Joined(a, b);
      Joined(a + b, c);
      One(Inner(ScopeOf(a + b + c)));
      Joined(ExprBinds(first.over), [Inner(ScopeOf(a + b + c))]);
    case Call(callee, args) =>
      ExprShape(callee);
      ExprsShape(args);
      Joined(ExprBinds(callee), ExprsBinds(args));
    case Node(children) => ExprsShape(children);
  }

  lemma Empty()
    ensures ShapeOf([]) == B.NOTHING
  {
  }

  lemma {:induction false} ExprsShape(xs: seq<Expr>)
    ensures ShapeOf(ExprsBinds(xs)) == B.ExprsPart(xs)
  {
    if xs != [] {
      ExprShape(xs[0]);
      ExprsShape(xs[1..]);
      Joined(ExprBinds(xs[0]), ExprsBinds(xs[1..]));
    }
  }

  lemma {:induction false} OptShape(x: Option<Expr>)
    ensures ShapeOf(OptBinds(x)) == B.OptPart(x)
  {
    match x
    case None =>
    case Some(x) => ExprShape(x);
  }

  /** A chain of attributes and calls is one reading if a name is at its root. */
  lemma {:induction false} DotShape(x: Expr, seen: seq<Ident>)
    ensures ShapeOf(DotBinds(x, seen)) ==
      B.Join(
        if B.Root(x).Identifier? then B.Reads(B.Chained(B.Root(x).id, B.Attributes(x) + Reversed(seen)))
        else B.ExprPart(B.Root(x)),
        B.ChainArgs(x))
    decreases x, 1
  {
    hide ShapeOf, B.Join;
    match x
    case Identifier(id) =>
      One(GetDotted(id, Reversed(seen)));
      assert [] + Reversed(seen) == Reversed(seen);
      JoinNothing(B.Reads(B.Chained(id, Reversed(seen))));
    case Dot(base, attribute) =>
      DotShape(base, seen + [attribute]);
      ReversedSnoc(seen, attribute);
      assert B.Attributes(x) + Reversed(seen) == B.Attributes(base) + ([attribute] + Reversed(seen));
    case Call(callee, args) =>
      DotShape(callee, seen);
      ExprsShape(args);
      Joined(DotBinds(callee, seen), ExprsBinds(args));
      var root := if B.Root(x).Identifier? then B.Reads(B.Chained(B.Root(x).id, B.Attributes(x) + Reversed(seen)))
        else B.ExprPart(B.Root(x));
      JoinAssociates(root, B.ChainArgs(callee), B.ExprsPart(args));
    case _ =>
      ExprShape(x);
      JoinNothing(B.ExprPart(x));
  }

  lemma {:induction false} ParamsOutsideShape(ps: seq<Param>)
    ensures ShapeOf(ParamsReadBinds(ps)) == B.ParamsOutside(ps)
  {
    if ps != [] {
      ParamOutsideShape(ps[0]);
      ParamsOutsideShape(ps[1..]);
      Joined(ParamReadBinds(ps[0]), ParamsReadBinds(ps[1..]));
    }
  }

  lemma {:induction false} ParamOutsideShape(p: Param)
    ensures ShapeOf(ParamReadBinds(p)) == B.ParamOutside(p)
  {
    OptShape(p.typ);
    OptShape(p.default);
    Joined(OptBinds(p.typ), OptBinds(p.default));
  }

  lemma {:induction false} ParamsInsideShape(ps: seq<Param>)
    ensures ShapeOf(ParamsSetBinds(ps)) == B.ParamsInside(ps)
  {
    if ps != [] {
      ParamsInsideShape(ps[1..]);
      Joined(ParamSetBinds(ps[0]), ParamsSetBinds(ps[1..]));
      if ps[0].name.Some? {
        One(Set(Argument, ps[0].name.value));
      }
    }
  }

  lemma {:induction false} TargetShape(t: Target)
    ensures ShapeOf(TargetBinds(t)) == B.TargetPart(t)
    decreases t, 1
  {
    hide ShapeOf;
    TargetReadShape(t);
    TargetSetShape(t, id => Set(Assigned, id));
    Joined(TargetReadBinds(t), TargetSetBinds(t));
    var part := B.TargetPart(t);
    assert part.readings + [] == part.readings && part.inner + [] == part.inner;
    assert [] + part.assignments == part.assignments;
  }

  /** Before its names are set, what a target reads is read. */
  lemma {:induction false} TargetReadShape(t: Target)
    ensures ShapeOf(TargetReadBinds(t)) == B.ReadOnly(B.TargetPart(t))
    decreases t, 0
  {
    match t
    case Tuple(ts) => TargetsReadShape(ts);
    case Index(indexed, index) =>
      ExprShape(indexed);
      ExprShape(index);
      ExprAssignsNothing(indexed);
      ExprAssignsNothing(index);
      Joined(ExprBinds(indexed), ExprBinds(index));
    case Field(base) =>
      ExprShape(base);
      ExprAssignsNothing(base);
    case Name(_) =>
  }

  lemma {:induction false} TargetsReadShape(ts: seq<Target>)
    ensures ShapeOf(TargetsReadBinds(ts)) == B.ReadOnly(B.TargetsPart(ts))
  {
    if ts != [] {
      TargetReadShape(ts[0]);
      TargetsReadShape(ts[1..]);
      Joined(TargetReadBinds(ts[0]), TargetsReadBinds(ts[1..]));
    }
  }

  lemma {:induction false} TargetSetShape(t: Target, f: Ident -> Bind)
    requires forall id :: f(id) == Set(Assigned, id)
    ensures ShapeOf(TargetEach(t, f)) == B.Block(B.TargetPart(t).assignments, [], [])
  {
    match t
    case Tuple(ts) => TargetsSetShape(ts, f);
    case Name(id) => One(f(id));
    case Index(indexed, index) =>
      ExprAssignsNothing(indexed);
      ExprAssignsNothing(index);
    case Field(base) => ExprAssignsNothing(base);
  }

  lemma {:induction false} TargetsSetShape(ts: seq<Target>, f: Ident -> Bind)
    requires forall id :: f(id) == Set(Assigned, id)
    ensures ShapeOf(TargetsEach(ts, f)) == B.Block(B.TargetsPart(ts).assignments, [], [])
  {
    if ts != [] {
      TargetSetShape(ts[0], f);
      TargetsSetShape(ts[1..], f);
      Joined(TargetEach(ts[0], f), TargetsEach(ts[1..], f));
    }
  }

  lemma {:induction false} TargetGetShape(t: Target, f: Ident -> Bind)
    requires forall id :: f(id) == Get(id)
    ensures ShapeOf(TargetEach(t, f)) == B.AssignedAsRead(B.TargetPart(t).assignments)
  {
    match t
    case Tuple(ts) => TargetsGetShape(ts, f);
    case Name(id) =>
      One(f(id));
      assert B.AssignedAsRead(B.TargetPart(t).assignments).readings == [B.Alone(id)];
    case Index(indexed, index) =>
      ExprAssignsNothing(indexed);
      ExprAssignsNothing(index);
    case Field(base) => ExprAssignsNothing(base);
  }

  lemma {:induction false} TargetsGetShape(ts: seq<Target>, f: Ident -> Bind)
    requires forall id :: f(id) == Get(id)
    ensures ShapeOf(TargetsEach(ts, f)) == B.AssignedAsRead(B.TargetsPart(ts).assignments)
  {
    if ts != [] {
      TargetGetShape(ts[0], f);
      TargetsGetShape(ts[1..], f);
      Joined(TargetEach(ts[0], f), TargetsEach(ts[1..], f));
      AsReadConcat(B.TargetPart(ts[0]).assignments, B.TargetsPart(ts[1..]).assignments);
    }
  }

  lemma AsReadConcat(xs: seq<B.Assignment>, ys: seq<B.Assignment>)
    ensures B.AssignedAsRead(xs + ys) == B.Join(B.AssignedAsRead(xs), B.AssignedAsRead(ys))
  {
    assert B.AssignedAsRead(xs + ys).readings == B.AssignedAsRead(xs).readings + B.AssignedAsRead(ys).readings;
  }

  lemma {:induction false} ExprAssignsNothing(x: Expr)
    ensures B.ExprPart(x).assignments == []
  {
    match x
    case Dot(base, _) =>
      ExprAssignsNothing(B.Root(base));
      ChainAssignsNothing(base);
    case Lambda(params, _) => ParamsAssignNothing(params);
    case Call(callee, args) =>
      ExprAssignsNothing(callee);
      ExprsAssignNothing(args);
    case Comprehension(_, first, _) => ExprAssignsNothing(first.over);
    case Node(children) => ExprsAssignNothing(children);
    case _ =>
  }

  lemma {:induction false} ExprsAssignNothing(xs: seq<Expr>)
    ensures B.ExprsPart(xs).assignments == []
  {
    if xs != [] {
      ExprAssignsNothing(xs[0]);
      ExprsAssignNothing(xs[1..]);
    }
  }

  lemma {:induction false} ChainAssignsNothing(x: Expr)
    ensures B.ChainArgs(x).assignments == []
  {
    match x
    case Dot(base, _) => ChainAssignsNothing(base);
    case Call(callee, args) =>
      ChainAssignsNothing(callee);
      ExprsAssignNothing(args);
    case _ =>
  }

  lemma {:induction false} ParamsAssignNothing(ps: seq<Param>)
    ensures B.ParamsOutside(ps).assignments == []
  {
    if ps != [] {
      ParamAssignsNothing(ps[0]);
      ParamsAssignNothing(ps[1..]);
    }
  }

  lemma {:induction false} ParamAssignsNothing(p: Param)
    ensures B.ParamOutside(p).assignments == []
  {
    OptAssignsNothing(p.typ);
    OptAssignsNothing(p.default);
  }

  lemma {:induction false} OptAssignsNothing(x: Option<Expr>)
    ensures B.OptPart(x).assignments == []
  {
    match x
    case None =>
    case Some(x) => ExprAssignsNothing(x);
  }

  lemma {:induction false} ClausesShape(cs: seq<Clause>)
    ensures ShapeOf(ClausesBinds(cs)) == B.ClausesPart(cs)
  {
    if cs != [] {
      ClauseShape(cs[0]);
      ClausesShape(cs[1..]);
      Joined(ClauseBinds(cs[0]), ClausesBinds(cs[1..]));
    }
  }

  lemma {:induction false} ClauseShape(c: Clause)
    ensures ShapeOf(ClauseBinds(c)) == B.ClausePart(c)
  {
    match c
    case For(c) =>
      ExprShape(c.over);
      TargetShape(c.target);
      Joined(ExprBinds(c.over), TargetBinds(c.target));
    case If(condition) => ExprShape(condition);
  }

  // ---- statements ----

  /** What is collected of a statement is what it does to its block: the same assignments, by the same means and
      in the same order, the same readings, and blocks inside of which the same is true. */
  lemma {:induction false} StmtShape(s: Stmt)
    ensures ShapeOf(StmtBinds(s)) == B.StmtPart(s)
  {
    hide ShapeOf, B.Join;
    Empty();
    One(Flow);
    match s
    case Statements(ss) => StmtsShape(ss);
    case Return(value) =>
      OptShape(value);
      WithFlow(OptBinds(value));
    case Expression(x) => ExprShape(x);
    case IfThen(a, b) =>
      ExprShape(a);
      StmtShape(b);
      BetweenFlowsShape(ExprBinds(a), StmtBinds(b));
    case IfElse(a, b, c) =>
      ExprShape(a);
      StmtShape(b);
      StmtShape(c);
      var ab := ExprBinds(a) + [Flow] + StmtBinds(b) + [Flow];
      BetweenFlowsShape(ExprBinds(a), StmtBinds(b));
      Joined(ab, StmtBinds(c));
      WithFlow(ab + StmtBinds(c));
    case Def(name, ps, returnType, body) =>
      StmtShape(body);
      DefShape(name, ps, returnType, body);
    case Assign(lhs, typ, rhs) =>
      OptShape(typ);
      ExprShape(rhs);
      TargetShape(lhs);
      Joined(OptBinds(typ), ExprBinds(rhs));
      Joined(OptBinds(typ) + ExprBinds(rhs), TargetBinds(lhs));
    case AssignModify(lhs, rhs) =>
      ModifyShape(lhs, id => Get(id), rhs);
    case ForLoop(target, over, body) =>
      ExprShape(over);
      TargetShape(target);
      StmtShape(body);
      Joined(ExprBinds(over), TargetBinds(target));
      BetweenFlowsShape(ExprBinds(over) + TargetBinds(target), StmtBinds(body));
    case Load(path, loads) => LoadShape(path, loads);
    case _ =>
  }

  lemma {:induction false} StmtsShape(ss: seq<Stmt>)
    ensures ShapeOf(StmtsBinds(ss)) == B.StmtsPart(ss)
  {
    if ss != [] {
      StmtShape(ss[0]);
      StmtsShape(ss[1..]);
      Joined(StmtBinds(ss[0]), StmtsBinds(ss[1..]));
    }
  }

  lemma WithFlow(a: seq<Bind>)
    ensures ShapeOf(a + [Flow]) == ShapeOf(a)
  {
    One(Flow);
    Joined(a, [Flow]);
    JoinNothing(ShapeOf(a));
  }

  lemma BetweenFlowsShape(a: seq<Bind>, b: seq<Bind>)
    ensures ShapeOf(a + [Flow] + b + [Flow]) == B.Join(ShapeOf(a), ShapeOf(b))
  {
    hide ShapeOf;
    WithFlow(a);
    Joined(a + [Flow], b);
    WithFlow(a + [Flow] + b);
  }

  lemma DefShape(name: Ident, ps: seq<Param>, returnType: Option<Expr>, body: Stmt)
    requires ShapeOf(StmtBinds(body)) == B.StmtPart(body)
    ensures var s := Def(name, ps, returnType, body); ShapeOf(StmtBinds(s)) == B.StmtPart(s)
  {
    hide ShapeOf, B.Join;
    OptShape(returnType);
    ParamsOutsideShape(ps);
    ParamsInsideShape(ps);
    var a, b, inner := OptBinds(returnType), ParamsReadBinds(ps), ParamsSetBinds(ps) + StmtBinds(body);
    Joined(ParamsSetBinds(ps), StmtBinds(body));
    One(Set(Assigned, name));
    One(Inner(ScopeOf(inner)));
    Joined(a, b);
    Joined(a + b, [Set(Assigned, name)]);
    Joined(a + b + [Set(Assigned, name)], [Inner(ScopeOf(inner))]);
  }

  lemma ModifyShape(lhs: Target, f: Ident -> Bind, rhs: Expr)
    requires forall id :: f(id) == Get(id)
    ensures ShapeOf(TargetReadBinds(lhs) + TargetEach(lhs, f) + ExprBinds(rhs) + TargetBinds(lhs)) ==
      B.StmtPart(AssignModify(lhs, rhs))
  {
    hide ShapeOf, B.Join;
    TargetReadShape(lhs);
    TargetGetShape(lhs, f);
    ExprShape(rhs);
    TargetShape(lhs);
    var a, b, c := TargetReadBinds(lhs), TargetEach(lhs, f), ExprBinds(rhs);
    Joined(a, b);
    Joined(a + b, c);
    Joined(a + b + c, TargetBinds(lhs));
  }

  lemma {:induction false} LoadShape(path: Ident, loads: seq<LoadArg>)
    ensures ShapeOf(LoadBinds(path, loads)) == B.StmtPart(Load(path, loads))
  {
    if loads != [] {
      LoadShape(path, loads[1..]);
      OneLoad(path, loads);
    }
  }

  lemma OneLoad(path: Ident, loads: seq<LoadArg>)
    requires loads != []
    ensures B.StmtPart(Load(path, loads)) ==
      B.Join(B.Assigns(B.Assignment(Loaded(path, loads[0].their), loads[0].local)), B.StmtPart(Load(path, loads[1..])))
  {
    assert B.StmtPart(Load(path, loads)).assignments ==
      [B.Assignment(Loaded(path, loads[0].their), loads[0].local)] + B.StmtPart(Load(path, loads[1..])).assignments;
  }

  // ---- what a scope says, told by its block ----

  /** The first assignment of a name among binds is the first in their block. */
  lemma {:induction false} FirstSetIsFirst(binds: seq<Bind>, name: string)
    ensures B.FirstOf(ShapeOf(binds).assignments, name, FirstSet(binds, name))
  {
    if binds != [] {
      FirstSetIsFirst(binds[1..], name);
      var rest := ShapeOf(binds[1..]).assignments;
      if binds[0].Set? {
        var a := B.Assignment(binds[0].assigner, binds[0].id);
        OneMore(a, rest, name, FirstSet(binds[1..], name));
        assert ShapeOf(binds).assignments == [a] + rest;
      } else {
        assert ShapeOf(binds).assignments == rest;
      }
    }
  }

  lemma OneMore(a: B.Assignment, rest: seq<B.Assignment>, name: string, r: Option<(Assigner, Span)>)
    requires B.FirstOf(rest, name, r)
    ensures B.FirstOf([a] + rest, name, if a.id.name == name then Some((a.assigner, a.id.span)) else r)
  {
    var xs := [a] + rest;
    assert xs[0] == a && forall i :: 0 < i < |xs| ==> xs[i] == rest[i - 1];
    if a.id.name == name {
      assert B.IsFirst(xs, 0);
    } else if r.Some? {
      var i :| 0 <= i < |rest| && B.IsFirst(rest, i) && rest[i] == B.Assignment(r.value.0, Ident(name, r.value.1));
      assert B.IsFirst(xs, i + 1);
    }
  }

  /** What is free in a scope is read in it or in a scope inside it, where the scope says. */
  lemma {:induction false} FreeIsRead(scope: Scope, name: string)
    requires WellScoped(scope) && name in scope.free
    ensures B.IsRead(B.AllReadings(ShapeOf(scope.inner)), Ident(name, scope.free[name]))
    decreases scope, 0
  {
    FirstReadIsRead(scope, 0, name);
    assert scope.inner[0..] == scope.inner;
  }

  lemma {:induction false} FirstReadIsRead(scope: Scope, k: nat, name: string)
    requires WellScoped(scope) && k <= |scope.inner| && FirstRead(scope.inner[k..], name).Some?
    ensures B.IsRead(B.AllReadings(ShapeOf(scope.inner[k..])), Ident(name, FirstRead(scope.inner[k..], name).value))
    decreases scope, 0, |scope.inner| - k
  {
    var binds := scope.inner[k..];
    assert BindWellScoped(scope.inner[k]);
    assert binds[0] == scope.inner[k] && binds[1..] == scope.inner[k + 1..];
    ReadingsJoined(Shape(binds[0]), ShapeOf(binds[1..]));
    if ReadOf(binds[0], name) == None {
      FirstReadIsRead(scope, k + 1, name);
    } else {
      match binds[0]
      case Inner(inner) =>
        FreeIsRead(inner, name);
        InsideOne(ShapeOf(inner.inner));
      case Get(id) => assert B.Alone(id) in B.AllReadings(Shape(binds[0]));
      case GetDotted(id, attributes) => assert B.Chained(id, attributes) in B.AllReadings(Shape(binds[0]));
      case _ =>
    }
  }

  lemma InsideOne(b: B.Block)
    ensures B.AllReadings(B.Nest(b)) == B.AllReadings(b)
  {
    assert [b][1..] == [];
    assert B.ReadingsInside([b]) == B.AllReadings(b) + B.ReadingsInside([]);
  }

  lemma ReadingsJoined(a: B.Block, b: B.Block)
    ensures B.AllReadings(B.Join(a, b)) == B.AllReadings(a) + B.AllReadings(b)
  {
    InsideBoth(a.inner, b.inner);
  }

  lemma {:induction false} InsideBoth(a: seq<B.Block>, b: seq<B.Block>)
    ensures B.ReadingsInside(a + b) == B.ReadingsInside(a) + B.ReadingsInside(b)
  {
    if a == [] {
      assert a + b == b;
    } else {
      InsideBoth(a[1..], b);
      assert (a + b)[1..] == a[1..] + b;
    }
  }

  /** The scope of a module: what is bound in it, to what, and what is free in it. */
  lemma ModuleScopeIsBlock(module_: Stmt)
    ensures var scope, block := ScopeOf(StmtBinds(module_)), B.StmtPart(module_);
      && ShapeOf(scope.inner) == block
      && (forall name ::
           B.FirstOf(block.assignments, name, if name in scope.bound then Some(scope.bound[name]) else None))
      && (forall name :: name in scope.free ==> B.IsRead(B.AllReadings(block), Ident(name, scope.free[name])))
  {
    var scope := ScopeOf(StmtBinds(module_));
    StmtShape(module_);
    Scoping.ModuleScope(module_);
    forall name
      ensures B.FirstOf(ShapeOf(scope.inner).assignments, name,
        if name in scope.bound then Some(scope.bound[name]) else None)
      ensures name in scope.free ==> B.IsRead(B.AllReadings(ShapeOf(scope.inner)), Ident(name, scope.free[name]))
    {
      FirstSetIsFirst(scope.inner, name);
      if name in scope.free {
        FreeIsRead(scope, name);
      }
    }
  }
}
