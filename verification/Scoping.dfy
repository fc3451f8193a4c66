/** What `bind` collects, against the names a program takes from its surroundings. */
module Scoping {
  import opened Options
  import opened Sequences
  import opened Syntax
  import opened Binds

  /** Every scope, at any depth, says what its binds say. */
  predicate WellScoped(scope: Scope)
    decreases scope, 0
  {
    scope == ScopeOf(scope.inner) && forall k :: 0 <= k < |scope.inner| ==> BindWellScoped(scope.inner[k])
  }

  predicate BindWellScoped(b: Bind)
    decreases b, 1
  {
    b.Inner? ==> WellScoped(b.scope)
  }

  predicate AllWellScoped(binds: seq<Bind>) {
    forall k :: 0 <= k < |binds| ==> BindWellScoped(binds[k])
  }

  /** The binds read these names and bind those, and every scope among them is sound. */
  predicate Names(binds: seq<Bind>, read: set<string>, bound: set<string>) {
    Reads(binds) == read && Sets(binds) == bound && AllWellScoped(binds)
  }

  lemma Together(a: seq<Bind>, b: seq<Bind>)
    requires AllWellScoped(a) && AllWellScoped(b)
    ensures Names(a + b, Reads(a) + Reads(b), Sets(a) + Sets(b))
  {
    ReadsConcat(a, b);
    SetsConcat(a, b);
  }

  lemma OneBind(b: Bind)
    requires BindWellScoped(b)
    ensures Names([b], ReadNames(b), SetNames(b))
  {
    assert [b][1..] == [];
  }

  lemma Nested(binds: seq<Bind>)
    requires AllWellScoped(binds)
    ensures WellScoped(ScopeOf(binds))
    ensures Names([Inner(ScopeOf(binds))], Reads(binds) - Sets(binds), {})
  {
    assert ScopeOf(binds).inner == binds;
    OneBind(Inner(ScopeOf(binds)));
  }

  /** An expression reads exactly its free names, and binds nothing around it. */
  lemma {:induction false} ExprReads(x: Expr)
    ensures Names(ExprBinds(x), FreeNames(x), {})
    decreases x, 0
  {
    hide Reads, Sets;
    match x
    case Identifier(id) =>
      OneBind(Get(id));
    case StringLiteral(_) =>
      NoBinds();
    case Lambda(params, body) =>
      ParamsReads(params);
      ParamsSet(params);
      ExprReads(body);
      Together(ParamsSetBinds(params), ExprBinds(body));
      Nested(ParamsSetBinds(params) + ExprBinds(body));
      Together(ParamsReadBinds(params), [Inner(ScopeOf(ParamsSetBinds(params) + ExprBinds(body)))]);
    case Dot(lhs, attribute) =>
      DotReads(lhs, [attribute]);
    case Comprehension(results, first, clauses) =>
      ExprReads(first.over);
      TargetReadsAndSets(first.target);
      ClausesReads(clauses);
      ExprsReads(results);
      var a, b, c := TargetBinds(first.target), ClausesBinds(clauses), ExprsBinds(results);
      Together(a, b);
      Together(a + b, c);
      Nested(a + b + c);
      Together(ExprBinds(first.over), [Inner(ScopeOf(a + b + c))]);
    case Call(callee, args) =>
      ExprReads(callee);
      ExprsReads(args);
      Together(ExprBinds(callee), ExprsBinds(args));
    case Node(children) =>
      ExprsReads(children);
  }

  lemma {:induction false} ExprsReads(xs: seq<Expr>)
    ensures Names(ExprsBinds(xs), AllFreeNames(xs), {})
  {
    if xs != [] {
      ExprReads(xs[0]);
      ExprsReads(xs[1..]);
      Together(ExprBinds(xs[0]), ExprsBinds(xs[1..]));
    }
  }

  lemma {:induction false} OptReads(x: Option<Expr>)
    ensures Names(OptBinds(x), OptFreeNames(x), {})
  {
    match x
    case None =>
    case Some(x) => ExprReads(x);
  }

  /** A dotted access loses no read, through calls or when it turns out not to be one. */
  lemma {:induction false} DotReads(x: Expr, attributes: seq<Ident>)
    ensures Names(DotBinds(x, attributes), FreeNames(x), {})
    decreases x, 1
  {
    match x
    case Identifier(id) =>
      OneBind(GetDotted(id, Reversed(attributes)));
    case Dot(lhs, attribute) =>
      DotReads(lhs, attributes + [attribute]);
    case Call(callee, args) =>
      DotReads(callee, attributes);
      ExprsReads(args);
      Together(DotBinds(callee, attributes), ExprsBinds(args));
    case _ =>
      ExprReads(x);
  }

  lemma {:induction false} ParamsReads(ps: seq<Param>)
    ensures Names(ParamsReadBinds(ps), ParamsFreeNames(ps), {})
  {
    if ps != [] {
      ParamReads(ps[0]);
      ParamsReads(ps[1..]);
      Together(ParamReadBinds(ps[0]), ParamsReadBinds(ps[1..]));
    }
  }

  lemma {:induction false} ParamReads(p: Param)
    ensures Names(ParamReadBinds(p), ParamFreeNames(p), {})
  {
    OptReads(p.typ);
    OptReads(p.default);
    Together(OptBinds(p.typ), OptBinds(p.default));
  }

  lemma {:induction false} ParamsSet(ps: seq<Param>)
    ensures Names(ParamsSetBinds(ps), {}, ParamNames(ps))
  {
    if ps != [] {
      ParamsSet(ps[1..]);
      NoBinds();
      if ps[0].name.Some? {
        OneBind(Set(Argument, ps[0].name.value));
      }
      Together(ParamSetBinds(ps[0]), ParamsSetBinds(ps[1..]));
    }
  }

  lemma {:induction false} TargetReadsAndSets(t: Target)
    ensures Names(TargetBinds(t), TargetReads(t), TargetNames(t))
    decreases t, 1
  {
    TargetsRead(t);
    TargetSets(t);
    Together(TargetReadBinds(t), TargetSetBinds(t));
  }

  lemma {:induction false} TargetsRead(t: Target)
    ensures Names(TargetReadBinds(t), TargetReads(t), {})
    decreases t, 0
  {
    match t
    case Tuple(ts) => TargetListReads(ts);
    case Index(indexed, index) =>
      ExprReads(indexed);
      ExprReads(index);
      Together(ExprBinds(indexed), ExprBinds(index));
    case Field(base) => ExprReads(base);
    case Name(_) =>
  }

  lemma {:induction false} TargetListReads(ts: seq<Target>)
    ensures Names(TargetsReadBinds(ts), TargetsReads(ts), {})
  {
    if ts != [] {
      TargetsRead(ts[0]);
      TargetListReads(ts[1..]);
      Together(TargetReadBinds(ts[0]), TargetsReadBinds(ts[1..]));
    }
  }

  lemma TargetSets(t: Target)
    ensures Names(TargetSetBinds(t), {}, TargetNames(t))
  {
    EachSets(t, id => Set(Assigned, id));
  }

  /** The names of a target are visited once each, all of them. */
  lemma {:induction false} EachSets(t: Target, f: Ident -> Bind)
    requires forall id :: f(id) == Set(Assigned, id)
    ensures Names(TargetEach(t, f), {}, TargetNames(t))
  {
    match t
    case Tuple(ts) => EachOfAllSets(ts, f);
    case Name(id) => OneBind(f(id));
    case _ =>
  }

  lemma {:induction false} EachOfAllSets(ts: seq<Target>, f: Ident -> Bind)
    requires forall id :: f(id) == Set(Assigned, id)
    ensures Names(TargetsEach(ts, f), {}, TargetsNames(ts))
  {
    if ts != [] {
      EachSets(ts[0], f);
      EachOfAllSets(ts[1..], f);
      Together(TargetEach(ts[0], f), TargetsEach(ts[1..], f));
    }
  }

  lemma {:induction false} EachReads(t: Target, f: Ident -> Bind)
    requires forall id :: f(id) == Get(id)
    ensures Names(TargetEach(t, f), TargetNames(t), {})
  {
    match t
    case Tuple(ts) => EachOfAllReads(ts, f);
    case Name(id) => OneBind(f(id));
    case _ =>
  }

  lemma {:induction false} EachOfAllReads(ts: seq<Target>, f: Ident -> Bind)
    requires forall id :: f(id) == Get(id)
    ensures Names(TargetsEach(ts, f), TargetsNames(ts), {})
  {
    if ts != [] {
      EachReads(ts[0], f);
      EachOfAllReads(ts[1..], f);
      Together(TargetEach(ts[0], f), TargetsEach(ts[1..], f));
    }
  }

  lemma {:induction false} ClausesReads(cs: seq<Clause>)
    ensures Names(ClausesBinds(cs), ClausesFreeNames(cs), ClausesNames(cs))
  {
    if cs != [] {
      ClauseReads(cs[0]);
      ClausesReads(cs[1..]);
      Together(ClauseBinds(cs[0]), ClausesBinds(cs[1..]));
    }
  }

  lemma {:induction false} ClauseReads(c: Clause)
    ensures Names(ClauseBinds(c), ClauseFreeNames(c), ClauseNames(c))
  {
    match c
    case For(c) =>
      ExprReads(c.over);
      TargetReadsAndSets(c.target);
      Together(ExprBinds(c.over), TargetBinds(c.target));
    case If(condition) => ExprReads(condition);
  }

  // ---- statements ----

  /** A statement reads and binds in its block exactly the names the language says. */
  lemma {:induction false} StmtReadsAndSets(s: Stmt)
    ensures Names(StmtBinds(s), StmtReads(s), StmtNames(s))
  {
    hide Reads, Sets, AllWellScoped, ExprBinds, TargetBinds, TargetReadBinds, FreeNames, TargetReads, TargetNames;
    OneBind(Flow);
    match s
    case Statements(ss) => StmtsReadAndSet(ss);
    case Pass => NoBinds();
    case Break =>
    case Continue =>
    case Return(value) =>
      OptReads(value);
      Together(OptBinds(value), [Flow]);
    case Expression(x) => ExprReads(x);
    case IfThen(a, b) =>
      ExprReads(a);
      StmtReadsAndSets(b);
      BetweenFlows(ExprBinds(a), StmtBinds(b));
    case IfElse(a, b, c) =>
      ExprReads(a);
      StmtReadsAndSets(b);
      StmtReadsAndSets(c);
      BetweenFlows(ExprBinds(a), StmtBinds(b));
      Together(ExprBinds(a) + [Flow] + StmtBinds(b) + [Flow], StmtBinds(c));
      Together(ExprBinds(a) + [Flow] + StmtBinds(b) + [Flow] + StmtBinds(c), [Flow]);
    case Def(name, ps, returnType, body) =>
      StmtReadsAndSets(body);
      DefReadsAndSets(name, ps, returnType, body);
    case Assign(lhs, typ, rhs) =>
      OptReads(typ);
      ExprReads(rhs);
      TargetReadsAndSets(lhs);
      Together(OptBinds(typ), ExprBinds(rhs));
      Together(OptBinds(typ) + ExprBinds(rhs), TargetBinds(lhs));
    case AssignModify(lhs, rhs) =>
      ModifyReadsAndSets(lhs, id => Get(id), rhs);
    case ForLoop(target, over, body) =>
      ExprReads(over);
      TargetReadsAndSets(target);
      StmtReadsAndSets(body);
      Together(ExprBinds(over), TargetBinds(target));
      BetweenFlows(ExprBinds(over) + TargetBinds(target), StmtBinds(body));
    case Load(path, loads) => LoadSets(path, loads);
  }

  lemma NoBinds()
    ensures Names([], {}, {})
  {
  }

  lemma BetweenFlows(a: seq<Bind>, b: seq<Bind>)
    requires AllWellScoped(a) && AllWellScoped(b)
    ensures Names(a + [Flow] + b + [Flow], Reads(a) + Reads(b), Sets(a) + Sets(b))
  {
    hide Reads, Sets;
    OneBind(Flow);
    Together(a, [Flow]);
    Together(a + [Flow], b);
    Together(a + [Flow] + b, [Flow]);
  }

  lemma DefReadsAndSets(name: Ident, ps: seq<Param>, returnType: Option<Expr>, body: Stmt)
    requires Names(StmtBinds(body), StmtReads(body), StmtNames(body))
    ensures var s := Def(name, ps, returnType, body); Names(StmtBinds(s), StmtReads(s), StmtNames(s))
  {
    hide Reads, Sets, AllWellScoped, ScopeOf, ExprBinds, FreeNames, ParamNames;
    OptReads(returnType);
    ParamsReads(ps);
    ParamsSet(ps);
    OneBind(Set(Assigned, name));
    var a, b, inner := OptBinds(returnType), ParamsReadBinds(ps), ParamsSetBinds(ps) + StmtBinds(body);
    Together(ParamsSetBinds(ps), StmtBinds(body));
    Nested(inner);
    Together(a, b);
    Together(a + b, [Set(Assigned, name)]);
    Together(a + b + [Set(Assigned, name)], [Inner(ScopeOf(inner))]);
  }

  lemma ModifyReadsAndSets(lhs: Target, f: Ident -> Bind, rhs: Expr)
    requires forall id :: f(id) == Get(id)
    ensures Names(TargetReadBinds(lhs) + TargetEach(lhs, f) + ExprBinds(rhs) + TargetBinds(lhs),
      TargetReads(lhs) + TargetNames(lhs) + FreeNames(rhs), TargetNames(lhs))
  {
    hide Reads, Sets;
    TargetsRead(lhs);
    EachReads(lhs, f);
    ExprReads(rhs);
    TargetReadsAndSets(lhs);
    var a, b, c := TargetReadBinds(lhs), TargetEach(lhs, f), ExprBinds(rhs);
    Together(a, b);
    Together(a + b, c);
    Together(a + b + c, TargetBinds(lhs));
  }

  lemma {:induction false} StmtsReadAndSet(ss: seq<Stmt>)
    ensures Names(StmtsBinds(ss), StmtsReads(ss), StmtsNames(ss))
  {
    if ss != [] {
      StmtReadsAndSets(ss[0]);
      StmtsReadAndSet(ss[1..]);
      Together(StmtBinds(ss[0]), StmtsBinds(ss[1..]));
    }
  }

  lemma {:induction false} LoadSets(path: Ident, loads: seq<LoadArg>)
    ensures Names(LoadBinds(path, loads), {}, LoadNames(loads))
  {
    if loads != [] {
      OneBind(Set(Loaded(path, loads[0].their), loads[0].local));
      LoadSets(path, loads[1..]);
      Together([Set(Loaded(path, loads[0].their), loads[0].local)], LoadBinds(path, loads[1..]));
    }
  }

  /** A module's scope is sound, and free in what the module reads and does not bind. */
  lemma ModuleScope(module_: Stmt)
    ensures WellScoped(ScopeOf(StmtBinds(module_)))
    ensures ScopeOf(StmtBinds(module_)).free.Keys == StmtReads(module_) - StmtNames(module_)
    ensures ScopeOf(StmtBinds(module_)).bound.Keys == StmtNames(module_)
  {
    StmtReadsAndSets(module_);
    Nested(StmtBinds(module_));
  }

  // ---- dotted accesses ----

  /** One step of a chain: an attribute, perhaps called. */
  datatype Link = Link(attribute: Ident, args: Option<seq<Expr>>)

  /** `id.a.b(args).c` and the like. */
  function Chain(id: Ident, links: seq<Link>): Expr {
    if links == [] then Identifier(id)
    else
      var last := links[|links| - 1];
      var dot := Dot(Chain(id, links[..|links| - 1]), last.attribute);
      if last.args.Some? then Call(dot, last.args.value) else dot
  }

  function Attributes(links: seq<Link>): seq<Ident> {
    if links == [] then [] else Attributes(links[..|links| - 1]) + [links[|links| - 1].attribute]
  }

  function ArgsBinds(links: seq<Link>): seq<Bind> {
    if links == [] then []
    else
      ArgsBinds(links[..|links| - 1]) +
      (if links[|links| - 1].args.Some? then ExprsBinds(links[|links| - 1].args.value) else [])
  }

  /** A chain of attributes and calls is one dotted access, its attributes in reading order; the arguments of
      the calls follow. */
  lemma ChainIsOneAccess(id: Ident, links: seq<Link>, attribute: Ident)
    ensures ExprBinds(Dot(Chain(id, links), attribute)) ==
      [GetDotted(id, Attributes(links) + [attribute])] + ArgsBinds(links)
  {
    ChainBinds(id, links, [attribute]);
    assert Reversed([attribute]) == [attribute];
  }

  lemma {:induction false} ChainBinds(id: Ident, links: seq<Link>, seen: seq<Ident>)
    ensures DotBinds(Chain(id, links), seen) == [GetDotted(id, Attributes(links) + Reversed(seen))] + ArgsBinds(links)
    decreases |links|
  {
    if links == [] {
      assert Attributes(links) + Reversed(seen) == Reversed(seen);
    } else {
      var n := |links| - 1;
      ChainBinds(id, links[..n], seen + [links[n].attribute]);
      ReversedSnoc(seen, links[n].attribute);
      assert Attributes(links) + Reversed(seen) ==
        Attributes(links[..n]) + ([links[n].attribute] + Reversed(seen));
    }
  }

  lemma ReversedSnoc(ids: seq<Ident>, id: Ident)
    ensures Reversed(ids + [id]) == [id] + Reversed(ids)
  {
  }
}
