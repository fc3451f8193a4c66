/** Scopes and the binds in them, collected from a syntax tree (starlark_lsp/src/bind.rs). */
module Binds {
  import opened CodeMaps
  import opened Options
  import opened Sequences
  import opened Syntax

  datatype Bind =
    | Set(assigner: Assigner, id: Ident)
    | Get(id: Ident)
    | GetDotted(variable: Ident, attributes: seq<Ident>)
    | Flow
    | Inner(scope: Scope)

  datatype Scope = Scope(inner: seq<Bind>, free: map<string, Span>, bound: map<string, (Assigner, Span)>)

  // ---- what a scope says ----

  /** The first assignment of a name among binds. */
  function FirstSet(binds: seq<Bind>, name: string): Option<(Assigner, Span)> {
    if binds == [] then None
    else if SetOf(binds[0], name).Some? then SetOf(binds[0], name)
    else FirstSet(binds[1..], name)
  }

  function SetOf(b: Bind, name: string): Option<(Assigner, Span)> {
    if b.Set? && b.id.name == name then Some((b.assigner, b.id.span)) else None
  }

  /** The first reading of a name among binds; an inner scope reads what is free in it. */
  function FirstRead(binds: seq<Bind>, name: string): Option<Span> {
    if binds == [] then None
    else if ReadOf(binds[0], name).Some? then ReadOf(binds[0], name)
    else FirstRead(binds[1..], name)
  }

  function ReadOf(b: Bind, name: string): Option<Span> {
    match b
    case Get(id) => if id.name == name then Some(id.span) else None
    case GetDotted(id, _) => if id.name == name then Some(id.span) else None
    case Inner(scope) => if name in scope.free then Some(scope.free[name]) else None
    case _ => None
  }

  function Sets(binds: seq<Bind>): (r: set<string>)
    ensures forall name :: name in r <==> FirstSet(binds, name).Some?
  {
    if binds == [] then {} else SetNames(binds[0]) + Sets(binds[1..])
  }

  function SetNames(b: Bind): set<string> {
    if b.Set? then {b.id.name} else {}
  }

  function Reads(binds: seq<Bind>): (r: set<string>)
    ensures forall name :: name in r <==> FirstRead(binds, name).Some?
  {
    if binds == [] then {} else ReadNames(binds[0]) + Reads(binds[1..])
  }

  function ReadNames(b: Bind): (r: set<string>)
    ensures forall name :: name in r <==> ReadOf(b, name).Some?
  {
    match b
    case Get(id) => {id.name}
    case GetDotted(id, _) => {id.name}
    case Inner(scope) => scope.free.Keys
    case _ => {}
  }

  /** The scope of these binds: a name is bound to its first assignment, wherever in the scope that is, and
      free when it is read and not bound. */
  function ScopeOf(inner: seq<Bind>): Scope {
    Scope(
      inner,
      map name | name in Reads(inner) - Sets(inner) :: FirstRead(inner, name).value,
      map name | name in Sets(inner) :: FirstSet(inner, name).value)
  }

  lemma {:induction false} SetsConcat(a: seq<Bind>, b: seq<Bind>)
    ensures Sets(a + b) == Sets(a) + Sets(b)
  {
    if a == [] {
      assert a + b == b;
    } else {
      SetsConcat(a[1..], b);
      assert (a + b)[1..] == a[1..] + b;
    }
  }

  lemma {:induction false} ReadsConcat(a: seq<Bind>, b: seq<Bind>)
    ensures Reads(a + b) == Reads(a) + Reads(b)
  {
    if a == [] {
      assert a + b == b;
    } else {
      ReadsConcat(a[1..], b);
      assert (a + b)[1..] == a[1..] + b;
    }
  }

  lemma {:induction false} FirstSetSnoc(binds: seq<Bind>, b: Bind, name: string)
    ensures FirstSet(binds + [b], name) ==
      if FirstSet(binds, name).Some? then FirstSet(binds, name) else SetOf(b, name)
  {
    if binds == [] {
      assert binds + [b] == [b] && [b][1..] == [];
    } else {
      FirstSetSnoc(binds[1..], b, name);
      assert (binds + [b])[1..] == binds[1..] + [b];
    }
  }

  lemma {:induction false} FirstReadSnoc(binds: seq<Bind>, b: Bind, name: string)
    ensures FirstRead(binds + [b], name) ==
      if FirstRead(binds, name).Some? then FirstRead(binds, name) else ReadOf(b, name)
  {
    if binds == [] {
      assert binds + [b] == [b] && [b][1..] == [];
    } else {
      FirstReadSnoc(binds[1..], b, name);
      assert (binds + [b])[1..] == binds[1..] + [b];
    }
  }

  // ---- `Scope::new` ----

  /** `entry(name).or_insert(value)` */
  function OrInsert<V>(m: map<string, V>, name: string, value: V): map<string, V> {
    if name in m then m else m[name := value]
  }

  /** `bound` and `free` hold the firsts of these binds. */
  ghost predicate Firsts(binds: seq<Bind>, bound: map<string, (Assigner, Span)>, free: map<string, Span>) {
    && (forall name :: name in bound <==> FirstSet(binds, name).Some?)
    && (forall name :: name in bound ==> bound[name] == FirstSet(binds, name).value)
    && (forall name :: name in free <==> FirstRead(binds, name).Some?)
    && (forall name :: name in free ==> free[name] == FirstRead(binds, name).value)
  }

  method NewScope(inner: seq<Bind>) returns (r: Scope)
    ensures r == ScopeOf(inner)
  {
    var bound: map<string, (Assigner, Span)> := map[];
    var free: map<string, Span> := map[];
    var i := 0;
    while i < |inner|
      invariant i <= |inner| && Firsts(inner[..i], bound, free)
    {
      ghost var bound', free' := bound, free;
      match inner[i] {
        case Set(assigner, x) => bound := OrInsert(bound, x.name, (assigner, x.span));
        case Get(x) => free := OrInsert(free, x.name, x.span);
        case GetDotted(x, _) => free := OrInsert(free, x.name, x.span);
        case Inner(scope) => free := OrInsertAll(free, scope.free);
        case Flow =>
      }
      FirstsStep(inner[..i], inner[i], bound', free', bound, free);
      assert inner[..i] + [inner[i]] == inner[..i + 1];
      i := i + 1;
    }
    assert inner[..i] == inner;
    free := RemoveAll(free, bound.Keys);
    r := Scope(inner, free, bound);
  }

  /** The entries of a hash map come in any order. */
  method OrInsertAll(free: map<string, Span>, more: map<string, Span>) returns (r: map<string, Span>)
    ensures forall name :: name in r <==> name in free || name in more
    ensures forall name :: name in r ==> r[name] == if name in free then free[name] else more[name]
  {
    r := free;
    var todo := more.Keys;
    while todo != {}
      invariant todo <= more.Keys
      invariant forall name :: name in r <==> name in free || (name in more && name !in todo)
      invariant forall name :: name in r ==> r[name] == if name in free then free[name] else more[name]
      decreases |todo|
    {
      var name :| name in todo;
      r := OrInsert(r, name, more[name]);
      todo := todo - {name};
    }
  }

  method RemoveAll(free: map<string, Span>, names: set<string>) returns (r: map<string, Span>)
    ensures r == free - names
  {
    r := free;
    var todo := names;
    while todo != {}
      invariant todo <= names && r == free - (names - todo)
      decreases |todo|
    {
      var name :| name in todo;
      r := r - {name};
      todo := todo - {name};
    }
  }

  lemma FirstsStep(binds: seq<Bind>, b: Bind, bound: map<string, (Assigner, Span)>, free: map<string, Span>,
      bound': map<string, (Assigner, Span)>, free': map<string, Span>)
    requires Firsts(binds, bound, free)
    requires bound' == if b.Set? then OrInsert(bound, b.id.name, (b.assigner, b.id.span)) else bound
    requires forall name :: name in free' <==> name in free || ReadOf(b, name).Some?
    requires forall name :: name in free' ==> free'[name] == if name in free then free[name] else ReadOf(b, name).value
    ensures Firsts(binds + [b], bound', free')
  {
    forall name
      ensures FirstSet(binds + [b], name) ==
        if FirstSet(binds, name).Some? then FirstSet(binds, name) else SetOf(b, name)
      ensures FirstRead(binds + [b], name) ==
        if FirstRead(binds, name).Some? then FirstRead(binds, name) else ReadOf(b, name)
    {
      FirstSetSnoc(binds, b, name);
      FirstReadSnoc(binds, b, name);
    }
  }

  // ---- what the traversal collects ----

  function ExprBinds(x: Expr): seq<Bind>
    decreases x, 0
  {
    match x
    case Identifier(id) => [Get(id)]
    case StringLiteral(_) => []
    case Lambda(params, body) =>
      ParamsReadBinds(params) + [Inner(ScopeOf(ParamsSetBinds(params) + ExprBinds(body)))]
    case Dot(lhs, attribute) => DotBinds(lhs, [attribute])
    case Comprehension(results, first, clauses) =>
      ExprBinds(first.over) +
      [Inner(ScopeOf(TargetBinds(first.target) + ClausesBinds(clauses) + ExprsBinds(results)))]
    case Call(callee, args) => ExprBinds(callee) + ExprsBinds(args)
    case Node(children) => ExprsBinds(children)
  }

  function ExprsBinds(xs: seq<Expr>): seq<Bind> {
    if xs == [] then [] else ExprBinds(xs[0]) + ExprsBinds(xs[1..])
  }

  function OptBinds(x: Option<Expr>): seq<Bind> {
    match x
    case None => []
    case Some(x) => ExprBinds(x)
  }

  /** A chain of dots and calls from its end; the attributes met so far are in reverse. */
  function DotBinds(x: Expr, attributes: seq<Ident>): seq<Bind>
    decreases x, 1
  {
    match x
    case Identifier(id) => [GetDotted(id, Reversed(attributes))]
    case Dot(lhs, attribute) => DotBinds(lhs, attributes + [attribute])
    case Call(callee, args) => DotBinds(callee, attributes) + ExprsBinds(args)
    case _ => ExprBinds(x)
  }

  function ParamsReadBinds(ps: seq<Param>): seq<Bind> {
    if ps == [] then [] else ParamReadBinds(ps[0]) + ParamsReadBinds(ps[1..])
  }

  function ParamReadBinds(p: Param): seq<Bind> {
    OptBinds(p.typ) + OptBinds(p.default)
  }

  function ParamsSetBinds(ps: seq<Param>): seq<Bind> {
    if ps == [] then [] else ParamSetBinds(ps[0]) + ParamsSetBinds(ps[1..])
  }

  function ParamSetBinds(p: Param): seq<Bind> {
    if p.name.Some? then [Set(Argument, p.name.value)] else []
  }

  function TargetBinds(t: Target): seq<Bind>
    decreases t, 1
  {
    TargetReadBinds(t) + TargetSetBinds(t)
  }

  function TargetReadBinds(t: Target): seq<Bind>
    decreases t, 0
  {
    match t
    case Tuple(ts) => TargetsReadBinds(ts)
    case Index(indexed, index) => ExprBinds(indexed) + ExprBinds(index)
    case Field(base) => ExprBinds(base)
    case Name(_) => []
  }

  function TargetsReadBinds(ts: seq<Target>): seq<Bind> {
    if ts == [] then [] else TargetReadBinds(ts[0]) + TargetsReadBinds(ts[1..])
  }

  function TargetSetBinds(t: Target): seq<Bind> {
    TargetEach(t, id => Set(Assigned, id))
  }

  /** `visit_lvalue`, making a bind of each name. */
  function TargetEach(t: Target, f: Ident -> Bind): seq<Bind> {
    match t
    case Tuple(ts) => TargetsEach(ts, f)
    case Name(id) => [f(id)]
    case _ => []
  }

  function TargetsEach(ts: seq<Target>, f: Ident -> Bind): seq<Bind> {
    if ts == [] then [] else TargetEach(ts[0], f) + TargetsEach(ts[1..], f)
  }

  function ClausesBinds(cs: seq<Clause>): seq<Bind> {
    if cs == [] then [] else ClauseBinds(cs[0]) + ClausesBinds(cs[1..])
  }

  function ClauseBinds(c: Clause): seq<Bind> {
    match c
    case For(c) => ExprBinds(c.over) + TargetBinds(c.target)
    case If(condition) => ExprBinds(condition)
  }

  function StmtBinds(s: Stmt): seq<Bind> {
    match s
    case Statements(ss) => StmtsBinds(ss)
    case Pass => []
    case Break => [Flow]
    case Continue => [Flow]
    case Return(value) => OptBinds(value) + [Flow]
    case Expression(x) => ExprBinds(x)
    case IfThen(a, b) => ExprBinds(a) + [Flow] + StmtBinds(b) + [Flow]
    case IfElse(a, b, c) => ExprBinds(a) + [Flow] + StmtBinds(b) + [Flow] + StmtBinds(c) + [Flow]
    case Def(name, ps, returnType, body) =>
      OptBinds(returnType) + ParamsReadBinds(ps) + [Set(Assigned, name)] +
      [Inner(ScopeOf(ParamsSetBinds(ps) + StmtBinds(body)))]
    case Assign(lhs, typ, rhs) => OptBinds(typ) + ExprBinds(rhs) + TargetBinds(lhs)
    case AssignModify(lhs, rhs) =>
      TargetReadBinds(lhs) + TargetEach(lhs, id => Get(id)) + ExprBinds(rhs) + TargetBinds(lhs)
    case ForLoop(target, over, body) => ExprBinds(over) + TargetBinds(target) + [Flow] + StmtBinds(body) + [Flow]
    case Load(path, loads) => LoadBinds(path, loads)
  }

  function StmtsBinds(ss: seq<Stmt>): seq<Bind> {
    if ss == [] then [] else StmtBinds(ss[0]) + StmtsBinds(ss[1..])
  }

  function LoadBinds(path: Ident, loads: seq<LoadArg>): seq<Bind> {
    if loads == [] then []
    else [Set(Loaded(path, loads[0].their), loads[0].local)] + LoadBinds(path, loads[1..])
  }
}
