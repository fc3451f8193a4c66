/** The syntax trees that the language server walks (starlark_syntax/src/syntax/ast.rs). */
module Syntax {
  import opened CodeMaps
  import opened Options

  /** A name, or other text, and where it is. */
  datatype Ident = Ident(name: string, span: Span)

  datatype Expr =
    | Identifier(id: Ident)
    | StringLiteral(text: Ident)
    | Lambda(params: seq<Param>, body: Expr)
    | Dot(base: Expr, attribute: Ident)
    | Call(callee: Expr, args: seq<Expr>)
      /** A list comprehension has one result, a dict comprehension two. */
    | Comprehension(results: seq<Expr>, first: ForClause, clauses: seq<Clause>)
      /** Every other expression, with its children in the order `visit_expr` has them. */
    | Node(children: seq<Expr>)

  datatype ForClause = ForClause(target: Target, over: Expr)

  datatype Clause = For(clause: ForClause) | If(condition: Expr)

  datatype Target = Tuple(targets: seq<Target>) | Index(indexed: Expr, index: Expr) | Field(base: Expr) | Name(id: Ident)

  /** What `split` gives of a parameter. */
  datatype Param = Param(name: Option<Ident>, typ: Option<Expr>, default: Option<Expr>)

  datatype LoadArg = LoadArg(local: Ident, their: Ident)

  datatype Stmt =
    | Break
    | Continue
    | Pass
    | Return(value: Option<Expr>)
    | Expression(expr: Expr)
    | Assign(lhs: Target, typ: Option<Expr>, rhs: Expr)
    | AssignModify(lhs: Target, rhs: Expr)
    | Statements(statements: seq<Stmt>)
    | IfThen(condition: Expr, then_: Stmt)
    | IfElse(condition: Expr, then_: Stmt, else_: Stmt)
    | ForLoop(target: Target, over: Expr, body: Stmt)
    | Def(name: Ident, params: seq<Param>, returnType: Option<Expr>, body: Stmt)
    | Load(path: Ident, loads: seq<LoadArg>)

  /** What gives a name its value; `name` is the loaded symbol's name in its own module. */
  datatype Assigner = Loaded(path: Ident, name: Ident) | Argument | Assigned

  // ---- names, as the language defines them ----

  function ParamNames(ps: seq<Param>): set<string> {
    if ps == [] then {}
    else (if ps[0].name.Some? then {ps[0].name.value.name} else {}) + ParamNames(ps[1..])
  }

  function TargetNames(t: Target): set<string> {
    match t
    case Tuple(ts) => TargetsNames(ts)
    case Name(id) => {id.name}
    case _ => {}
  }

  function TargetsNames(ts: seq<Target>): set<string> {
    if ts == [] then {} else TargetNames(ts[0]) + TargetsNames(ts[1..])
  }

  function ClausesNames(cs: seq<Clause>): set<string> {
    if cs == [] then {} else ClauseNames(cs[0]) + ClausesNames(cs[1..])
  }

  function ClauseNames(c: Clause): set<string> {
    match c
    case For(c) => TargetNames(c.target)
    case If(_) => {}
  }

  /** The names an expression takes from its surroundings. A lambda binds its parameters in its body, not in
      their defaults; a comprehension is one block, outside of which only the first `over` is evaluated. */
  function FreeNames(x: Expr): set<string> {
    match x
    case Identifier(id) => {id.name}
    case StringLiteral(_) => {}
    case Lambda(ps, body) => ParamsFreeNames(ps) + (FreeNames(body) - ParamNames(ps))
    case Dot(base, _) => FreeNames(base)
    case Call(callee, args) => FreeNames(callee) + AllFreeNames(args)
    case Comprehension(results, first, clauses) =>
      FreeNames(first.over) +
      ((TargetReads(first.target) + ClausesFreeNames(clauses) + AllFreeNames(results))
       - (TargetNames(first.target) + ClausesNames(clauses)))
    case Node(children) => AllFreeNames(children)
  }

  function AllFreeNames(xs: seq<Expr>): set<string> {
    if xs == [] then {} else FreeNames(xs[0]) + AllFreeNames(xs[1..])
  }

  function OptFreeNames(x: Option<Expr>): set<string> {
    match x
    case None => {}
    case Some(x) => FreeNames(x)
  }

  /** Types and defaults of parameters. */
  function ParamsFreeNames(ps: seq<Param>): set<string> {
    if ps == [] then {} else ParamFreeNames(ps[0]) + ParamsFreeNames(ps[1..])
  }

  function ParamFreeNames(p: Param): set<string> {
    OptFreeNames(p.typ) + OptFreeNames(p.default)
  }

  /** What is read to find where to assign. */
  function TargetReads(t: Target): set<string> {
    match t
    case Tuple(ts) => TargetsReads(ts)
    case Index(indexed, index) => FreeNames(indexed) + FreeNames(index)
    case Field(base) => FreeNames(base)
    case Name(_) => {}
  }

  function TargetsReads(ts: seq<Target>): set<string> {
    if ts == [] then {} else TargetReads(ts[0]) + TargetsReads(ts[1..])
  }

  function ClausesFreeNames(cs: seq<Clause>): set<string> {
    if cs == [] then {} else ClauseFreeNames(cs[0]) + ClausesFreeNames(cs[1..])
  }

  function ClauseFreeNames(c: Clause): set<string> {
    match c
    case For(c) => FreeNames(c.over) + TargetReads(c.target)
    case If(condition) => FreeNames(condition)
  }

  /** The names a statement binds in its block. */
  function StmtNames(s: Stmt): set<string> {
    match s
    case Assign(lhs, _, _) => TargetNames(lhs)
    case AssignModify(lhs, _) => TargetNames(lhs)
    case Statements(ss) => StmtsNames(ss)
    case IfThen(_, b) => StmtNames(b)
    case IfElse(_, b, c) => StmtNames(b) + StmtNames(c)
    case ForLoop(target, _, body) => TargetNames(target) + StmtNames(body)
    case Def(name, _, _, _) => {name.name}
    case Load(_, loads) => LoadNames(loads)
    case _ => {}
  }

  function StmtsNames(ss: seq<Stmt>): set<string> {
    if ss == [] then {} else StmtNames(ss[0]) + StmtsNames(ss[1..])
  }

  function LoadNames(loads: seq<LoadArg>): set<string> {
    if loads == [] then {} else {loads[0].local.name} + LoadNames(loads[1..])
  }

  /** The names a statement reads in its block; a function's body is a block of its own. */
  function StmtReads(s: Stmt): set<string> {
    match s
    case Return(value) => OptFreeNames(value)
    case Expression(x) => FreeNames(x)
    case Assign(lhs, typ, rhs) => OptFreeNames(typ) + FreeNames(rhs) + TargetReads(lhs)
    case AssignModify(lhs, rhs) => TargetReads(lhs) + TargetNames(lhs) + FreeNames(rhs)
    case Statements(ss) => StmtsReads(ss)
    case IfThen(a, b) => FreeNames(a) + StmtReads(b)
    case IfElse(a, b, c) => FreeNames(a) + StmtReads(b) + StmtReads(c)
    case ForLoop(target, over, body) => FreeNames(over) + TargetReads(target) + StmtReads(body)
    case Def(_, ps, returnType, body) =>
      OptFreeNames(returnType) + ParamsFreeNames(ps) + (StmtReads(body) - (ParamNames(ps) + StmtNames(body)))
    case _ => {}
  }

  function StmtsReads(ss: seq<Stmt>): set<string> {
    if ss == [] then {} else StmtReads(ss[0]) + StmtsReads(ss[1..])
  }

  // ---- strings and loads ----

  /** The string literals in an expression. */
  function StringsIn(x: Expr): set<Ident> {
    match x
    case Identifier(_) => {}
    case StringLiteral(text) => {text}
    case Lambda(params, body) => ParamsStrings(params) + StringsIn(body)
    case Dot(base, _) => StringsIn(base)
    case Call(callee, args) => StringsIn(callee) + AllStrings(args)
    case Comprehension(results, first, clauses) => AllStrings(results) + ForStrings(first) + ClausesStrings(clauses)
    case Node(children) => AllStrings(children)
  }

  function AllStrings(xs: seq<Expr>): set<Ident> {
    if xs == [] then {} else StringsIn(xs[0]) + AllStrings(xs[1..])
  }

  function OptStrings(x: Option<Expr>): set<Ident> {
    match x
    case None => {}
    case Some(x) => StringsIn(x)
  }

  function ParamsStrings(ps: seq<Param>): set<Ident> {
    if ps == [] then {} else ParamStrings(ps[0]) + ParamsStrings(ps[1..])
  }

  function ParamStrings(p: Param): set<Ident> {
    OptStrings(p.typ) + OptStrings(p.default)
  }

  function ForStrings(c: ForClause): set<Ident> {
    StringsIn(c.over) + TargetStrings(c.target)
  }

  function ClausesStrings(cs: seq<Clause>): set<Ident> {
    if cs == [] then {} else ClauseStrings(cs[0]) + ClausesStrings(cs[1..])
  }

  function ClauseStrings(c: Clause): set<Ident> {
    match c
    case For(c) => ForStrings(c)
    case If(condition) => StringsIn(condition)
  }

  function TargetStrings(t: Target): set<Ident> {
    match t
    case Tuple(ts) => TargetsStrings(ts)
    case Index(indexed, index) => StringsIn(indexed) + StringsIn(index)
    case Field(base) => StringsIn(base)
    case Name(_) => {}
  }

  function TargetsStrings(ts: seq<Target>): set<Ident> {
    if ts == [] then {} else TargetStrings(ts[0]) + TargetsStrings(ts[1..])
  }

  function StmtStrings(s: Stmt): set<Ident> {
    match s
    case Return(value) => OptStrings(value)
    case Expression(x) => StringsIn(x)
    case Assign(lhs, typ, rhs) => TargetStrings(lhs) + OptStrings(typ) + StringsIn(rhs)
    case AssignModify(lhs, rhs) => TargetStrings(lhs) + StringsIn(rhs)
    case Statements(ss) => StmtsStrings(ss)
    case IfThen(a, b) => StringsIn(a) + StmtStrings(b)
    case IfElse(a, b, c) => StringsIn(a) + StmtStrings(b) + StmtStrings(c)
    case ForLoop(target, over, body) => TargetStrings(target) + StringsIn(over) + StmtStrings(body)
    case Def(_, ps, returnType, body) => ParamsStrings(ps) + OptStrings(returnType) + StmtStrings(body)
    case _ => {}
  }

  function StmtsStrings(ss: seq<Stmt>): set<Ident> {
    if ss == [] then {} else StmtStrings(ss[0]) + StmtsStrings(ss[1..])
  }

  /** The load statements in a statement. */
  function LoadsIn(s: Stmt): (r: set<Stmt>)
    ensures forall l :: l in r ==> l.Load?
  {
    match s
    case Load(_, _) => {s}
    case Statements(ss) => AllLoads(ss)
    case IfThen(_, b) => LoadsIn(b)
    case IfElse(_, b, c) => LoadsIn(b) + LoadsIn(c)
    case ForLoop(_, _, body) => LoadsIn(body)
    case Def(_, _, _, body) => LoadsIn(body)
    case _ => {}
  }

  function AllLoads(ss: seq<Stmt>): (r: set<Stmt>)
    ensures forall l :: l in r ==> l.Load?
  {
    if ss == [] then {} else LoadsIn(ss[0]) + AllLoads(ss[1..])
  }
}
