/** The blocks of a program: what each assigns and reads, in order, and the blocks inside it.  Only modules,
    functions, lambdas and comprehensions are blocks. */
module Blocks {
  import opened CodeMaps
  import opened Options
  import opened Syntax

  datatype Assignment = Assignment(assigner: Assigner, id: Ident)

  /** A name on its own, or a name and the attributes read off it, calls in between left aside. */
  datatype Reading = Alone(id: Ident) | Chained(id: Ident, attributes: seq<Ident>)

  datatype Block = Block(assignments: seq<Assignment>, readings: seq<Reading>, inner: seq<Block>)

  const NOTHING := Block([], [], [])

  /** One part of a block after another. */
  function Join(a: Block, b: Block): Block {
    Block(a.assignments + b.assignments, a.readings + b.readings, a.inner + b.inner)
  }

  function Assigns(a: Assignment): Block {
    Block([a], [], [])
  }

  function Reads(r: Reading): Block {
    Block([], [r], [])
  }

  function Nest(b: Block): Block {
    Block([], [], [b])
  }

  /** What an expression does to the block it is in. */
  function ExprPart(x: Expr): Block {
    match x
    case Identifier(id) => Reads(Alone(id))
    case StringLiteral(_) => NOTHING
    case Lambda(params, body) => Join(ParamsOutside(params), Nest(Join(ParamsInside(params), ExprPart(body))))
    case Dot(base, attribute) =>
      var root := Root(base);
      Join(
        if root.Identifier? then Reads(Chained(root.id, Attributes(base) + [attribute])) else ExprPart(root),
        ChainArgs(base))
    case Call(callee, args) => Join(ExprPart(callee), ExprsPart(args))
    case Comprehension(results, first, clauses) =>
      Join(
        ExprPart(first.over),
        Nest(Join(Join(TargetPart(first.target), ClausesPart(clauses)), ExprsPart(results))))
    case Node(children) => ExprsPart(children)
  }

  function ExprsPart(xs: seq<Expr>): Block {
    if xs == [] then NOTHING else Join(ExprPart(xs[0]), ExprsPart(xs[1..]))
  }

  function OptPart(x: Option<Expr>): Block {
    match x
    case None => NOTHING
    case Some(x) => ExprPart(x)
  }

  /** What a chain of attributes and calls starts from. */
  function Root(x: Expr): (r: Expr)
    ensures r == x || r < x
    ensures !r.Dot? && !r.Call?
  {
    match x
    case Dot(base, _) => Root(base)
    case Call(callee, _) => Root(callee)
    case _ => x
  }

  /** The attributes of a chain, in reading order. */
  function Attributes(x: Expr): seq<Ident> {
    match x
    case Dot(base, attribute) => Attributes(base) + [attribute]
    case Call(callee, _) => Attributes(callee)
    case _ => []
  }

  /** The arguments of the calls in a chain. */
  function ChainArgs(x: Expr): Block {
    match x
    case Dot(base, _) => ChainArgs(base)
    case Call(callee, args) => Join(ChainArgs(callee), ExprsPart(args))
    case _ => NOTHING
  }

  /** Types and defaults of parameters belong to the block around. */
  function ParamsOutside(ps: seq<Param>): Block {
    if ps == [] then NOTHING else Join(ParamOutside(ps[0]), ParamsOutside(ps[1..]))
  }

  function ParamOutside(p: Param): Block {
    Join(OptPart(p.typ), OptPart(p.default))
  }

  function ParamsInside(ps: seq<Param>): Block {
    if ps == [] then NOTHING
    else
      Join(if ps[0].name.Some? then Assigns(Assignment(Argument, ps[0].name.value)) else NOTHING, ParamsInside(ps[1..]))
  }

  /** An assignment to a target assigns its names, and reads what says where its other parts are. */
  function TargetPart(t: Target): Block {
    match t
    case Tuple(ts) => TargetsPart(ts)
    case Index(indexed, index) => Join(ExprPart(indexed), ExprPart(index))
    case Field(base) => ExprPart(base)
    case Name(id) => Assigns(Assignment(Assigned, id))
  }

  function TargetsPart(ts: seq<Target>): Block {
    if ts == [] then NOTHING else Join(TargetPart(ts[0]), TargetsPart(ts[1..]))
  }

  function ClausesPart(cs: seq<Clause>): Block {
    if cs == [] then NOTHING else Join(ClausePart(cs[0]), ClausesPart(cs[1..]))
  }

  function ClausePart(c: Clause): Block {
    match c
    case For(c) => Join(ExprPart(c.over), TargetPart(c.target))
    case If(condition) => ExprPart(condition)
  }

  /** Without its assignments. */
  function ReadOnly(b: Block): Block {
    Block([], b.readings, b.inner)
  }

  /** The names assigned, read instead. */
  function AssignedAsRead(xs: seq<Assignment>): Block {
    Block([], seq(|xs|, i requires 0 <= i < |xs| => Alone(xs[i].id)), [])
  }

  function StmtPart(s: Stmt): Block {
    match s
    case Return(value) => OptPart(value)
    case Expression(x) => ExprPart(x)
    case Assign(lhs, typ, rhs) => Join(Join(OptPart(typ), ExprPart(rhs)), TargetPart(lhs))
    case AssignModify(lhs, rhs) =>
      // the target is read before it is assigned to, and what says where its parts are is read each time
      var target := TargetPart(lhs);
      Join(Join(Join(ReadOnly(target), AssignedAsRead(target.assignments)), ExprPart(rhs)), target)
    case Statements(ss) => StmtsPart(ss)
    case IfThen(a, b) => Join(ExprPart(a), StmtPart(b))
    case IfElse(a, b, c) => Join(Join(ExprPart(a), StmtPart(b)), StmtPart(c))
    case ForLoop(target, over, body) => Join(Join(ExprPart(over), TargetPart(target)), StmtPart(body))
    case Def(name, ps, returnType, body) =>
      Join(
        Join(Join(OptPart(returnType), ParamsOutside(ps)), Assigns(Assignment(Assigned, name))),
        Nest(Join(ParamsInside(ps), StmtPart(body))))
    case Load(path, loads) =>
      Block(seq(|loads|, i requires 0 <= i < |loads| => Assignment(Loaded(path, loads[i].their), loads[i].local)), [], [])
    case _ => NOTHING
  }

  function StmtsPart(ss: seq<Stmt>): Block {
    if ss == [] then NOTHING else Join(StmtPart(ss[0]), StmtsPart(ss[1..]))
  }

  /** The assignment at `i` is the first one of its name. */
  predicate IsFirst(xs: seq<Assignment>, i: nat) {
    i < |xs| && forall j :: 0 <= j < i ==> xs[j].id.name != xs[i].id.name
  }

  /** The first assignment of a name among these, if there is one: what assigns it, and where. */
  ghost predicate FirstOf(xs: seq<Assignment>, name: string, r: Option<(Assigner, Span)>) {
    match r
    case None => forall i :: 0 <= i < |xs| ==> xs[i].id.name != name
    case Some((assigner, span)) =>
      exists i :: 0 <= i < |xs| && IsFirst(xs, i) && xs[i] == Assignment(assigner, Ident(name, span))
  }

  /** What is read in a block or in any block inside it. */
  function AllReadings(b: Block): set<Reading> {
    (set r | r in b.readings) + ReadingsInside(b.inner)
  }

  function ReadingsInside(bs: seq<Block>): set<Reading> {
    if bs == [] then {} else AllReadings(bs[0]) + ReadingsInside(bs[1..])
  }

  /** One of these readings reads this name, at this place. */
  ghost predicate IsRead(readings: set<Reading>, id: Ident) {
    exists r :: r in readings && r.id == id
  }
}
