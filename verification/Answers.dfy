/** What the server answers, told by the blocks of the program. */
module Answers {
  import opened AstSearch
  import CodeMaps
  import opened Integers
  import opened Options
  import opened Syntax
  import opened Binds
  import opened Shapes
  import opened Definitions
  import B = Blocks

  /** Blocks each directly inside the next, the last one being `root`. */
  predicate Nested(env: seq<B.Block>, root: B.Block) {
    && env != [] && env[|env| - 1] == root
    && forall i :: 0 <= i < |env| - 1 ==> env[i] in env[i + 1].inner
  }

  function Segments(read: B.Reading): seq<Ident> {
    if read.Alone? then [read.id] else [read.id] + read.attributes
  }

  /** The first segment of a reading that a position is in. */
  predicate SegmentHolds(read: B.Reading, k: nat, pos: u32) {
    && k < |Segments(read)| && Segments(read)[k].span.Contains(pos)
    && forall j :: 0 <= j < k ==> !Segments(read)[j].span.Contains(pos)
  }

  /** A name read with these blocks around it, the innermost first, is given by the first assignment in the
      innermost block that assigns it; or by nothing when none does. */
  ghost predicate Resolves(env: seq<B.Block>, id: Ident, d: IdentifierDefinition) {
    || (AllLack(env, id.name) && d == Unresolved(id.span, id.name))
    || exists i: nat, j: nat :: i < |env| && AllLack(env[..i], id.name) && IsFirstIn(env[i], j, id.name) &&
         var a := env[i].assignments[j];
         d == if a.assigner.Loaded?
           then LoadedLocationOf(id.span, a.id.span, a.assigner.path.name, a.assigner.name.name)
           else LocationOf(id.span, a.id.span, id.name)
  }

  /** No block here assigns the name. */
  predicate AllLack(env: seq<B.Block>, name: string) {
    forall i, j :: 0 <= i < |env| && 0 <= j < |env[i].assignments| ==> env[i].assignments[j].id.name != name
  }

  predicate IsFirstIn(b: B.Block, j: nat, name: string) {
    B.IsFirst(b.assignments, j) && b.assignments[j].id.name == name
  }

  /** The answer for segment `k` of a reading: of a name alone, or the first of a chain, what the name is given by;
      of a later one also the names of the chain up to it. */
  ghost predicate AnswersFor(env: seq<B.Block>, read: B.Reading, k: nat, d: Definition)
    requires k < |Segments(read)|
  {
    match d
    case OfIdentifier(def) => k == 0 && Resolves(env, read.id, def)
    case OfDotted(source, root, segments) =>
      && k > 0 && source == Segments(read)[k].span
      && Resolves(env, read.id, root)
      && |segments| == k + 1
      && forall j :: 0 <= j <= k ==> segments[j] == Segments(read)[j].name
  }

  function Answer(found: TempDefinition, module_: Stmt, pos: u32): Definition {
    match found
    case Identified(def) => OfIdentifier(Settle(def, module_, pos))
    case Dotted(source, root, variable, attributes) =>
      OfDotted(source, Settle(root, module_, pos), [variable.name] + NamesOf(attributes))
  }

  function ShapesOf(env: seq<seq<Bind>>): seq<B.Block> {
    if env == [] then [] else [ShapeOf(env[0])] + ShapesOf(env[1..])
  }

  /** Lexical look-up gives what the blocks say. */
  lemma {:induction false} LookUpResolves(env: seq<seq<Bind>>, id: Ident, module_: Stmt, pos: u32)
    ensures Resolves(ShapesOf(env), id, Settle(LookUp(env, id.name, id.span), module_, pos))
  {
    if env != [] {
      FirstSetIsFirst(env[0], id.name);
      match FirstSet(env[0], id.name)
      case None =>
        LookUpResolves(env[1..], id, module_, pos);
        ResolvesFurtherOut(ShapeOf(env[0]), ShapesOf(env[1..]), id, Settle(LookUp(env, id.name, id.span), module_, pos));
      case Some((assigner, span)) =>
        var blocks := ShapesOf(env);
        var j :| 0 <= j < |blocks[0].assignments| && B.IsFirst(blocks[0].assignments, j) &&
          blocks[0].assignments[j] == B.Assignment(assigner, Ident(id.name, span));
        assert IsFirstIn(blocks[0], j, id.name) && AllLack(blocks[..0], id.name);
    }
  }

  lemma ResolvesFurtherOut(b: B.Block, env: seq<B.Block>, id: Ident, d: IdentifierDefinition)
    requires Resolves(env, id, d)
    requires B.FirstOf(b.assignments, id.name, None)
    ensures Resolves([b] + env, id, d)
  {
    var env' := [b] + env;
    if !AllLack(env, id.name) || d != Unresolved(id.span, id.name) {
      var i: nat, j: nat :| i < |env| && AllLack(env[..i], id.name) && IsFirstIn(env[i], j, id.name) &&
        var a := env[i].assignments[j];
        d == if a.assigner.Loaded?
          then LoadedLocationOf(id.span, a.id.span, a.assigner.path.name, a.assigner.name.name)
          else LocationOf(id.span, a.id.span, id.name);
      assert env'[i + 1] == env[i] && env'[..i + 1] == [b] + env[..i];
      assert AllLack(env'[..i + 1], id.name) && IsFirstIn(env'[i + 1], j, id.name);
    }
  }

  lemma {:induction false} NamesInOrder(ids: seq<Ident>)
    ensures |NamesOf(ids)| == |ids| && forall j :: 0 <= j < |ids| ==> NamesOf(ids)[j] == ids[j].name
  {
    if ids != [] {
      NamesInOrder(ids[1..]);
    }
  }

  /** A bind of a block is part of its shape. */
  lemma {:induction false} PartOfShape(binds: seq<Bind>, b: Bind)
    requires b in binds
    ensures b.Get? ==> B.Alone(b.id) in ShapeOf(binds).readings
    ensures b.GetDotted? ==> B.Chained(b.variable, b.attributes) in ShapeOf(binds).readings
    ensures b.Inner? ==> ShapeOf(b.scope.inner) in ShapeOf(binds).inner
  {
    if b != binds[0] {
      PartOfShape(binds[1..], b);
    }
  }

  ghost predicate Found(root: B.Block, pos: u32, d: Definition) {
    exists env: seq<B.Block>, read: B.Reading, k: nat ::
      Nested(env, root) && read in env[0].readings && SegmentHolds(read, k, pos) && AnswersFor(env, read, k, d)
  }

  /** What the walk finds is the answer for a reading at the position, with the blocks around that. */
  lemma {:induction false} WalkFinds(env: seq<seq<Bind>>, binds: seq<Bind>, root: B.Block, module_: Stmt, pos: u32)
    requires env != [] && Nested(ShapesOf(env), root) && forall b :: b in binds ==> b in env[0]
    requires Walk(env, binds, pos) != Identified(NotFound)
    ensures Found(root, pos, Answer(Walk(env, binds, pos), module_, pos))
    decreases binds
  {
    if WalkInto(env, binds[0], pos) == Identified(NotFound) {
      WalkFinds(env, binds[1..], root, module_, pos);
    } else {
      BindFinds(env, binds[0], root, module_, pos);
    }
  }

  lemma {:induction false} BindFinds(env: seq<seq<Bind>>, b: Bind, root: B.Block, module_: Stmt, pos: u32)
    requires env != [] && Nested(ShapesOf(env), root) && b in env[0]
    requires WalkInto(env, b, pos) != Identified(NotFound)
    ensures Found(root, pos, Answer(WalkInto(env, b, pos), module_, pos))
    decreases b
  {
    match b
    case Inner(scope) =>
      PartOfShape(env[0], b);
      var env' := [scope.inner] + env;
      assert env'[1..] == env && ShapesOf(env') == [ShapeOf(scope.inner)] + ShapesOf(env);
      WalkFinds(env', scope.inner, root, module_, pos);
    case Get(id) => ReadingFound(env, b, root, module_, pos);
    case GetDotted(_, _) => ReadingFound(env, b, root, module_, pos);
    case _ =>
  }

  lemma ReadingFound(env: seq<seq<Bind>>, b: Bind, root: B.Block, module_: Stmt, pos: u32)
    requires env != [] && Nested(ShapesOf(env), root) && b in env[0] && (b.Get? || b.GetDotted?)
    requires WalkInto(env, b, pos) != Identified(NotFound)
    ensures Found(root, pos, Answer(WalkInto(env, b, pos), module_, pos))
  {
    hide Resolves, Nested, Settle, ShapeOf, LookUp;
    PartOfShape(env[0], b);
    var blocks := ShapesOf(env);
    var d := Answer(WalkInto(env, b, pos), module_, pos);
    if b.Get? {
      LookUpResolves(env, b.id, module_, pos);
      assert SegmentHolds(B.Alone(b.id), 0, pos) && AnswersFor(blocks, B.Alone(b.id), 0, d);
    } else {
      var read, k := B.Chained(b.variable, b.attributes), SegmentAt(b.variable, b.attributes, pos).value;
      LookUpResolves(env, b.variable, module_, pos);
      NamesInOrder(b.attributes[..k]);
      assert SegmentHolds(read, k, pos);
      assert AnswersFor(blocks, read, k, d);
    }
  }

  /** The position is in none of these readings. */
  predicate Outside(readings: set<B.Reading>, pos: u32) {
    forall read, k :: read in readings && 0 <= k < |Segments(read)| ==> !Segments(read)[k].span.Contains(pos)
  }

  /** Where the walk finds nothing, nothing is read. */
  lemma {:induction false} WalkMisses(env: seq<seq<Bind>>, binds: seq<Bind>, pos: u32)
    requires Walk(env, binds, pos) == Identified(NotFound)
    ensures Outside(B.AllReadings(ShapeOf(binds)), pos)
    decreases binds
  {
    if binds != [] {
      BindMisses(env, binds[0], pos);
      WalkMisses(env, binds[1..], pos);
      ReadingsJoined(Shape(binds[0]), ShapeOf(binds[1..]));
    }
  }

  lemma {:induction false} BindMisses(env: seq<seq<Bind>>, b: Bind, pos: u32)
    requires WalkInto(env, b, pos) == Identified(NotFound)
    ensures Outside(B.AllReadings(Shape(b)), pos)
    decreases b
  {
    match b
    case Inner(scope) =>
      WalkMisses([scope.inner] + env, scope.inner, pos);
      InsideOne(ShapeOf(scope.inner));
    case GetDotted(variable, attributes) =>
      assert SegmentAt(variable, attributes, pos) == None;
    case _ =>
  }

  /** A request for the definition at a position is answered as the program's blocks say: for a reading at the
      position, by lexical scoping; where nothing is read, by a string or a load statement at the position. */
  lemma AnswersAreLexical(m: CodeMaps.CodeMap, module_: Stmt, line: nat, col: nat)
    requires |m.source| < 0x1_0000_0000
    ensures var root, d := B.StmtPart(module_), FindDefinitionAtLocation(m, module_, line, col);
      match CodeMaps.PositionAt(m, line, col)
      case None => d == OfIdentifier(Missing)
      case Some(pos) =>
        || Found(root, pos, d)
        || (Outside(B.AllReadings(root), pos) && d.OfIdentifier? && Tells(module_, pos, d.def))
  {
    AnswerIsLexical(m, module_, line, col);
    if CodeMaps.PositionAt(m, line, col).Some? {
      WalkAnswers(module_, CodeMaps.PositionAt(m, line, col).value);
    }
    hide FindDefinitionAtLocation, CodeMaps.PositionAt, Definitions.Walk, Found, Outside, Tells, Settle, NamesOf;
  }

  lemma WalkAnswers(module_: Stmt, pos: u32)
    ensures var root, d := B.StmtPart(module_), Answer(Walk([StmtBinds(module_)], StmtBinds(module_), pos), module_, pos);
      || Found(root, pos, d)
      || (Outside(B.AllReadings(root), pos) && d.OfIdentifier? && Tells(module_, pos, d.def))
  {
    hide Found, Outside, Tells, Walk;
    var binds := StmtBinds(module_);
    StmtShape(module_);
    assert [binds][1..] == [];
    assert ShapesOf([binds]) == [ShapeOf(binds)];
    if Walk([binds], binds, pos) == Identified(NotFound) {
      WalkMisses([binds], binds, pos);
      AnswerTells(module_, pos);
    } else {
      WalkFinds([binds], binds, B.StmtPart(module_), module_, pos);
    }
  }

  /** Exactly where something is read, a reading is answered for. */
  lemma ReadingsAreAnswered(m: CodeMaps.CodeMap, module_: Stmt, line: nat, col: nat)
    requires |m.source| < 0x1_0000_0000 && CodeMaps.PositionAt(m, line, col).Some?
    ensures var root, pos := B.StmtPart(module_), CodeMaps.PositionAt(m, line, col).value;
      Found(root, pos, FindDefinitionAtLocation(m, module_, line, col)) <==> !Outside(B.AllReadings(root), pos)
  {
    AnswersAreLexical(m, module_, line, col);
    var root, pos := B.StmtPart(module_), CodeMaps.PositionAt(m, line, col).value;
    var d := FindDefinitionAtLocation(m, module_, line, col);
    if Found(root, pos, d) {
      var env: seq<B.Block>, read: B.Reading, k: nat :|
        Nested(env, root) && read in env[0].readings && SegmentHolds(read, k, pos) && AnswersFor(env, read, k, d);
      ReadInside(env, root, read);
    }
  }

  lemma {:induction false} ReadInside(env: seq<B.Block>, root: B.Block, read: B.Reading)
    requires Nested(env, root) && read in B.AllReadings(env[0])
    ensures read in B.AllReadings(root)
    decreases |env|
  {
    if |env| > 1 {
      InsideAny(env[1].inner, env[0], read);
      assert Nested(env[1..], root);
      ReadInside(env[1..], root, read);
    }
  }

  lemma {:induction false} InsideAny(bs: seq<B.Block>, b: B.Block, read: B.Reading)
    requires b in bs && read in B.AllReadings(b)
    ensures read in B.ReadingsInside(bs)
  {
    if b != bs[0] {
      InsideAny(bs[1..], b, read);
    }
  }
}
