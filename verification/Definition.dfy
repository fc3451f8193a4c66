/** Where a name is defined (starlark_lsp/src/definition.rs). */
module Definitions {
  import opened AstSearch
  import opened CodeMaps
  import opened Integers
  import opened Options
  import opened Syntax
  import opened Binds
  import opened Scoping

  datatype TempIdentifierDefinition =
    | Location(source: Span, destination: Span, name: string)
    | LoadedLocation(source: Span, destination: Span, path: string, name: string)
      /** The name is known, but not what binds it. */
    | NameOnly(source: Span, name: string)
    | NotFound

  datatype TempDefinition =
    | Identified(def: TempIdentifierDefinition)
    | Dotted(source: Span, root: TempIdentifierDefinition, variable: Ident, attributes: seq<Ident>)

  /** `GetDotted::contains`: the first segment a position is in, the variable being segment 0. */
  function SegmentAt(variable: Ident, attributes: seq<Ident>, pos: u32): (r: Option<nat>)
    ensures r.Some? ==> r.value <= |attributes| && ([variable] + attributes)[r.value].span.Contains(pos)
    ensures forall k :: 0 <= k <= |attributes| && (r.Some? ==> k < r.value) ==>
      !([variable] + attributes)[k].span.Contains(pos)
  {
    if variable.span.Contains(pos) then Some(0)
    else
      var k := FirstAt(attributes, pos);
      if k.Some? then Some(k.value + 1) else None
  }

  function FirstAt(ids: seq<Ident>, pos: u32): (r: Option<nat>)
    ensures r.Some? ==> r.value < |ids| && ids[r.value].span.Contains(pos)
    ensures forall k :: 0 <= k < |ids| && (r.Some? ==> k < r.value) ==> !ids[k].span.Contains(pos)
  {
    if ids == [] then None
    else if ids[0].span.Contains(pos) then Some(0)
    else
      var k := FirstAt(ids[1..], pos);
      if k.Some? then Some(k.value + 1) else None
  }

  // ---- the search, from the inside out ----

  function ResolveGetInScope(scope: Scope, name: string, source: Span): TempIdentifierDefinition {
    if name in scope.bound then
      match scope.bound[name]
      case (Loaded(path, their), span) => LoadedLocation(source, span, path.name, their.name)
      case (_, span) => Location(source, span, name)
    else
      NameOnly(source, name)
  }

  function FindDefinitionInScope(scope: Scope, pos: u32): TempDefinition
    decreases scope, |scope.inner| + 1
  {
    FindFrom(scope, 0, pos)
  }

  /** The loop over the binds of a scope, from the `k`th on. */
  function FindFrom(scope: Scope, k: nat, pos: u32): TempDefinition
    requires k <= |scope.inner|
    decreases scope, |scope.inner| - k
  {
    if k == |scope.inner| then Identified(NotFound)
    else
      match scope.inner[k]
      case Get(g) =>
        if g.span.Contains(pos) then Identified(ResolveGetInScope(scope, g.name, g.span))
        else FindFrom(scope, k + 1, pos)
      case Inner(inner) =>
        (match FindDefinitionInScope(inner, pos)
         case Identified(NameOnly(source, name)) => Identified(ResolveGetInScope(scope, name, source))
         case Identified(NotFound) => FindFrom(scope, k + 1, pos)
         case Dotted(source, NameOnly(rootSource, rootName), variable, attributes) =>
           Dotted(source, ResolveGetInScope(scope, rootName, rootSource), variable, attributes)
         case found => found)
      case GetDotted(variable, attributes) =>
        (match SegmentAt(variable, attributes, pos)
         case None => FindFrom(scope, k + 1, pos)
         case Some(segment) =>
           var root := ResolveGetInScope(scope, variable.name, variable.span);
           if segment == 0 then Identified(root)
           else Dotted(attributes[segment - 1].span, root, variable, attributes[..segment]))
      case _ => FindFrom(scope, k + 1, pos)
  }

  // ---- the same, from the outside in ----

  /** The first assignment in the innermost of the enclosing blocks that assigns the name. */
  function LookUp(env: seq<seq<Bind>>, name: string, source: Span): (r: TempIdentifierDefinition)
    ensures r != NotFound
  {
    if env == [] then NameOnly(source, name)
    else
      match FirstSet(env[0], name)
      case Some((Loaded(path, their), span)) => LoadedLocation(source, span, path.name, their.name)
      case Some((_, span)) => Location(source, span, name)
      case None => LookUp(env[1..], name, source)
  }

  /** Walks down to the reading at a position, with the blocks around it, and looks its name up there. */
  function Walk(env: seq<seq<Bind>>, binds: seq<Bind>, pos: u32): TempDefinition
    decreases binds
  {
    if binds == [] then Identified(NotFound)
    else
      var found := WalkInto(env, binds[0], pos);
      if found != Identified(NotFound) then found else Walk(env, binds[1..], pos)
  }

  function WalkInto(env: seq<seq<Bind>>, b: Bind, pos: u32): TempDefinition
    decreases b
  {
    match b
    case Get(g) =>
      if g.span.Contains(pos) then Identified(LookUp(env, g.name, g.span)) else Identified(NotFound)
    case GetDotted(variable, attributes) =>
      (match SegmentAt(variable, attributes, pos)
       case None => Identified(NotFound)
       case Some(segment) =>
         var root := LookUp(env, variable.name, variable.span);
         if segment == 0 then Identified(root)
         else Dotted(attributes[segment - 1].span, root, variable, attributes[..segment]))
    case Inner(scope) => WalkScope(env, scope, pos)
    case _ => Identified(NotFound)
  }

  function WalkScope(env: seq<seq<Bind>>, scope: Scope, pos: u32): TempDefinition
    decreases scope
  {
    Walk([scope.inner] + env, scope.inner, pos)
  }

  /** What is only a name is looked up in the blocks further out. */
  function Finish(env: seq<seq<Bind>>, found: TempDefinition): TempDefinition {
    match found
    case Identified(NameOnly(source, name)) => Identified(LookUp(env, name, source))
    case Dotted(source, NameOnly(rootSource, rootName), variable, attributes) =>
      Dotted(source, LookUp(env, rootName, rootSource), variable, attributes)
    case _ => found
  }

  lemma ResolveThenLookUp(scope: Scope, env: seq<seq<Bind>>, name: string, source: Span)
    requires scope == ScopeOf(scope.inner)
    ensures var r := ResolveGetInScope(scope, name, source);
      && r != NotFound
      && LookUp([scope.inner] + env, name, source) == (if r.NameOnly? then LookUp(env, name, source) else r)
      && (r.NameOnly? ==> r == NameOnly(source, name))
  {
    assert ([scope.inner] + env)[1..] == env;
  }

  /** Searching a scope and then the blocks around it is walking with all of them at hand. */
  lemma {:induction false} SearchIsWalk(scope: Scope, k: nat, env: seq<seq<Bind>>, pos: u32)
    requires WellScoped(scope) && k <= |scope.inner|
    ensures Finish(env, FindFrom(scope, k, pos)) == Walk([scope.inner] + env, scope.inner[k..], pos)
    ensures FindFrom(scope, k, pos) == Identified(NotFound) <==>
      Walk([scope.inner] + env, scope.inner[k..], pos) == Identified(NotFound)
    decreases scope, |scope.inner| - k
  {
    if k < |scope.inner| {
      var b, binds := scope.inner[k], scope.inner[k..];
      assert BindWellScoped(b);
      assert binds[0] == b && binds[1..] == scope.inner[k + 1..];
      SearchIsWalk(scope, k + 1, env, pos);
      match b
      case Get(g) =>
        ResolveThenLookUp(scope, env, g.name, g.span);
      case GetDotted(variable, _) =>
        ResolveThenLookUp(scope, env, variable.name, variable.span);
      case Inner(inner) =>
        SearchIsWalk(inner, 0, [scope.inner] + env, pos);
        assert inner.inner[0..] == inner.inner;
        assert WalkInto([scope.inner] + env, b, pos) == WalkScope([scope.inner] + env, inner, pos);
        assert WalkScope([scope.inner] + env, inner, pos) ==
          Finish([scope.inner] + env, FindDefinitionInScope(inner, pos));
        match FindDefinitionInScope(inner, pos) {
          case Identified(NameOnly(source, name)) => ResolveThenLookUp(scope, env, name, source);
          case Dotted(_, NameOnly(source, name), _, _) => ResolveThenLookUp(scope, env, name, source);
          case _ =>
        }
      case _ =>
    }
  }

  /** Bottom-up search finds what lexical scoping says. */
  lemma FindIsLexical(root: Scope, pos: u32)
    requires WellScoped(root)
    ensures FindDefinitionInScope(root, pos) == Walk([root.inner], root.inner, pos)
  {
    SearchIsWalk(root, 0, [], pos);
    assert [root.inner] + [] == [root.inner] && root.inner[0..] == root.inner;
    FinishNothing(FindDefinitionInScope(root, pos));
  }

  lemma FinishNothing(found: TempDefinition)
    ensures Finish([], found) == found
  {
  }

  // ---- what is left unresolved ----

  /** The name a search ended with, when nothing was found to bind it. */
  function NameLeft(found: TempDefinition): Option<string> {
    match found
    case Identified(NameOnly(_, name)) => Some(name)
    case Dotted(_, NameOnly(_, name), _, _) => Some(name)
    case _ => None
  }

  /** A name that a search of a scope leaves is read in the scope and not bound by it. */
  lemma {:induction false} LeftIsRead(scope: Scope, k: nat, pos: u32, name: string)
    requires WellScoped(scope) && k <= |scope.inner|
    requires NameLeft(FindFrom(scope, k, pos)) == Some(name)
    ensures name in Reads(scope.inner[k..]) && name !in scope.bound
    decreases scope, |scope.inner| - k
  {
    var b, binds := scope.inner[k], scope.inner[k..];
    assert BindWellScoped(b);
    assert binds[0] == b && binds[1..] == scope.inner[k + 1..];
    if b.Inner? && FindDefinitionInScope(b.scope, pos) != Identified(NotFound) {
      if NameLeft(FindDefinitionInScope(b.scope, pos)).Some? {
        LeftIsFree(b.scope, pos, name);
      }
    } else if FindFrom(scope, k, pos) == FindFrom(scope, k + 1, pos) {
      LeftIsRead(scope, k + 1, pos, name);
    }
  }

  lemma {:induction false} LeftIsFree(scope: Scope, pos: u32, name: string)
    requires WellScoped(scope)
    requires NameLeft(FindDefinitionInScope(scope, pos)) == Some(name)
    ensures name in scope.free && name !in scope.bound
    decreases scope, |scope.inner| + 1
  {
    LeftIsRead(scope, 0, pos, name);
    assert scope.inner[0..] == scope.inner;
  }

  /** What a search of a module's scope leaves unresolved is a name that the module reads and never binds. */
  lemma UnresolvedIsFree(module_: Stmt, pos: u32, name: string)
    requires NameLeft(FindDefinitionInScope(ScopeOf(StmtBinds(module_)), pos)) == Some(name)
    ensures name in StmtReads(module_) && name !in StmtNames(module_)
  {
    ModuleScope(module_);
    LeftIsFree(ScopeOf(StmtBinds(module_)), pos, name);
  }

  // ---- the answer ----

  datatype Definition =
    | OfIdentifier(def: IdentifierDefinition)
    | OfDotted(source: Span, root: IdentifierDefinition, segments: seq<string>)

  /** `get_definition_location`; what the search did not find may be a string or a load. */
  function GetDefinitionLocation(def: TempIdentifierDefinition, module_: Stmt, scope: Scope, pos: u32)
    : IdentifierDefinition
  {
    match def
    case Location(source, destination, name) => LocationOf(source, destination, name)
    case LoadedLocation(source, destination, path, name) => LoadedLocationOf(source, destination, path, name)
    case NotFound => AstAnswer(module_, pos)
    case NameOnly(source, name) =>
      if name !in scope.bound then Unresolved(source, name)
      else
        match scope.bound[name]
        case (Loaded(path, their), span) => LoadedLocationOf(source, span, path.name, their.name)
        case (_, span) => LocationOf(source, span, name)
  }

  function NamesOf(ids: seq<Ident>): seq<string> {
    if ids == [] then [] else [ids[0].name] + NamesOf(ids[1..])
  }

  function FindDefinitionAtLocation(m: CodeMap, module_: Stmt, line: nat, col: nat)
    : Definition
    requires |m.source| < 0x1_0000_0000
  {
    var scope := ScopeOf(StmtBinds(module_));
    match PositionAt(m, line, col)
    case None => OfIdentifier(Missing)
    case Some(pos) =>
      match FindDefinitionInScope(scope, pos)
      case Identified(def) => OfIdentifier(GetDefinitionLocation(def, module_, scope, pos))
      case Dotted(source, root, variable, attributes) =>
        OfDotted(source, GetDefinitionLocation(root, module_, scope, pos), [variable.name] + NamesOf(attributes))
  }

  /** The answer without a second look-up. */
  function Settle(found: TempIdentifierDefinition, module_: Stmt, pos: u32): IdentifierDefinition {
    match found
    case Location(source, destination, name) => LocationOf(source, destination, name)
    case LoadedLocation(source, destination, path, name) => LoadedLocationOf(source, destination, path, name)
    case NameOnly(source, name) => Unresolved(source, name)
    case NotFound => AstAnswer(module_, pos)
  }

  /** A request is answered by lexical look-up alone, or from the syntax tree where nothing is read: the second
      look-up, in the module's scope, never finds anything. */
  lemma AnswerIsLexical(m: CodeMap, module_: Stmt, line: nat, col: nat)
    requires |m.source| < 0x1_0000_0000
    ensures var binds := StmtBinds(module_);
      FindDefinitionAtLocation(m, module_, line, col) ==
      match PositionAt(m, line, col)
      case None => OfIdentifier(Missing)
      case Some(pos) =>
        match Walk([binds], binds, pos)
        case Identified(def) => OfIdentifier(Settle(def, module_, pos))
        case Dotted(source, root, variable, attributes) =>
          OfDotted(source, Settle(root, module_, pos), [variable.name] + NamesOf(attributes))
  {
    var root := ScopeOf(StmtBinds(module_));
    ModuleScope(module_);
    if PositionAt(m, line, col).Some? {
      var pos := PositionAt(m, line, col).value;
      FindIsLexical(root, pos);
      var found := FindDefinitionInScope(root, pos);
      if NameLeft(found).Some? {
        LeftIsFree(root, pos, NameLeft(found).value);
      }
      hide WellScoped, ScopeOf, FindDefinitionInScope, Walk, AstAnswer, PositionAt;
      match found
      case Identified(def) => NothingInModuleScope(def, module_, root, pos);
      case Dotted(_, def, _, _) => NothingInModuleScope(def, module_, root, pos);
    }
  }

  lemma NothingInModuleScope(def: TempIdentifierDefinition, module_: Stmt, scope: Scope, pos: u32)
    requires def.NameOnly? ==> def.name !in scope.bound
    ensures GetDefinitionLocation(def, module_, scope, pos) == Settle(def, module_, pos)
  {
  }

  /** Lexical look-up gives the first assignment in the innermost block that has one. */
  lemma {:induction false} LookUpIsInnermost(env: seq<seq<Bind>>, k: nat, name: string, source: Span)
    requires k < |env| && name in Sets(env[k])
    requires forall j :: 0 <= j < k ==> name !in Sets(env[j])
    ensures LookUp(env, name, source) ==
      match FirstSet(env[k], name).value
      case (Loaded(path, their), span) => LoadedLocation(source, span, path.name, their.name)
      case (_, span) => Location(source, span, name)
  {
    if k > 0 {
      LookUpIsInnermost(env[1..], k - 1, name, source);
    }
  }
}
