/** The two scenarios of the completion module's own tests, stated over the
    syntax trees of their source texts.

    The byte offsets are those of the texts as written in `src/completion.rs`;
    a query at line `n` is the length of the first `n` lines joined by
    newlines. The parser's block ranges are not part of this model: each
    function or loop body is taken to span from the end of its header to the
    start of its `end`, and the chunk's block to span the whole text. */
module CompletionExamples {
  import opened Results
  import opened Strings
  import opened Completion

  function Tok(start: nat, end: nat, text: string): Token {
    Token(Range(start, end), text)
  }

  function Leaf(start: nat, end: nat): Node {
    Node(Other, Range(start, end), [])
  }

  function NamedParam(start: nat, end: nat, text: string): Param {
    Param(Range(start, end), Some(Tok(start, end, text)))
  }

  function FooStatement(): Node {
    Node(LocalFuncStat(Some(Tok(24, 27, "foo"))), Range(9, 95), [
      Node(ClosureExpr(Some([NamedParam(28, 29, "a"), NamedParam(31, 32, "b")])), Range(27, 95), [
        Node(Block, Range(33, 92), [Leaf(72, 83)])])])
  }

  function BarStatement(): Node {
    Node(LocalFuncStat(Some(Tok(139, 142, "bar"))), Range(124, 206), [
      Node(ClosureExpr(Some([NamedParam(143, 144, "c")])), Range(142, 206), [
        Node(Block, Range(145, 203), [Leaf(186, 194)])])])
  }

  function NumericFor(): Node {
    Node(ForStat(Some(Tok(245, 246, "i"))), Range(241, 319), [
      Leaf(249, 250), Leaf(252, 254),
      Node(Block, Range(257, 316), [Leaf(299, 307)])])
  }

  function GenericFor(): Node {
    Node(ForRangeStat([Tok(358, 359, "i"), Tok(361, 362, "v")]), Range(354, 446), [
      Leaf(366, 375),
      Node(Block, Range(378, 443), [Leaf(423, 434)])])
  }

  /** `local function foo(a, b) print(a, b) end`, then `local function
      bar(c) print(c) end`, a numeric `for i` and a generic `for i, v`. */
  function LocalsText(): Node {
    Node(Chunk, Range(0, 480), [Node(Block, Range(0, 480), [FooStatement(), BarStatement(), NumericFor(), GenericFor()])])
  }

  function Var(start: nat, end: nat, name: string): Variable {
    Variable(Range(start, end), name)
  }

  /** A node with no block below it contributes no scope. */
  lemma LeafScopes(start: nat, end: nat, parent: Option<Kind>)
    ensures TreeScopes(Leaf(start, end), parent) == []
  {
  }

  /** A construct whose last child is its body block, every other child
      being a leaf, contributes exactly the body's scope. */
  lemma BodyScopes(stat: Node, leaves: seq<Node>, body: Node, parent: Option<Kind>)
    requires stat.children == leaves + [body] && body.kind.Block?
    requires forall k :: 0 <= k < |leaves| ==> leaves[k].kind.Other? && leaves[k].children == []
    requires forall k :: 0 <= k < |body.children| ==> body.children[k].kind.Other? && body.children[k].children == []
    ensures TreeScopes(stat, parent) == (if stat.kind.Block? then [ScopeOf(stat, parent)] else []) + [ScopeOf(body, Some(stat.kind))]
  {
    var k := Some(stat.kind);
    assert TreeScopes(body, k) == [ScopeOf(body, k)] by {
      NoScopesInLeaves(body.children, Some(body.kind));
    }
    assert TreeScopesOfAll(stat.children, k) == [ScopeOf(body, k)] by {
      NoScopesInLeaves(leaves, k);
      TreeScopesOfAllAppend(leaves, [body], k);
      SingletonScopes(body, k);
    }
  }

  lemma {:induction false} NoScopesInLeaves(ns: seq<Node>, parent: Option<Kind>)
    requires forall k :: 0 <= k < |ns| ==> ns[k].kind.Other? && ns[k].children == []
    ensures TreeScopesOfAll(ns, parent) == []
  {
    if |ns| > 0 {
      assert TreeScopesOfAll(ns[0].children, Some(ns[0].kind)) == [];
      NoScopesInLeaves(ns[1..], parent);
    }
  }

  lemma {:induction false} TreeScopesOfAllAppend(a: seq<Node>, b: seq<Node>, parent: Option<Kind>)
    ensures TreeScopesOfAll(a + b, parent) == TreeScopesOfAll(a, parent) + TreeScopesOfAll(b, parent)
  {
    if |a| > 0 {
      assert (a + b)[1..] == a[1..] + b;
      TreeScopesOfAllAppend(a[1..], b, parent);
    } else {
      assert a + b == b;
    }
  }

  /** A function statement: its closure is its only child, and the closure's
      body block is the closure's only child. */
  lemma FunctionScopes(stat: Node, closure: Node, body: Node, parent: Option<Kind>)
    requires !stat.kind.Block? && stat.children == [closure] && !closure.kind.Block?
    requires closure.children == [body] && body.kind.Block?
    requires forall k :: 0 <= k < |body.children| ==> body.children[k].kind.Other? && body.children[k].children == []
    ensures TreeScopes(stat, parent) == [ScopeOf(body, Some(closure.kind))]
  {
    BodyScopes(closure, [], body, Some(stat.kind));
    assert [closure][1..] == [];
    assert TreeScopesOfAll([closure], Some(stat.kind)) == TreeScopes(closure, Some(stat.kind)) + TreeScopesOfAll([], Some(stat.kind));
  }

  lemma SingletonScopes(n: Node, parent: Option<Kind>)
    ensures TreeScopesOfAll([n], parent) == TreeScopes(n, parent)
  {
    assert [n][1..] == [];
  }

  lemma FooScopes()
    ensures TreeScopes(FooStatement(), Some(Block)) == [Scope(Range(33, 92), [Var(28, 29, "a"), Var(31, 32, "b")])]
  {
    var foo := FooStatement();
    FunctionScopes(foo, foo.children[0], foo.children[0].children[0], Some(Block));
    ParamVariablesTwo(NamedParam(28, 29, "a"), NamedParam(31, 32, "b"));
    assert ChildrenVariables([Leaf(72, 83)]) == [];
    assert ScopeOf(foo.children[0].children[0], Some(foo.children[0].kind)) == Scope(Range(33, 92), [Var(28, 29, "a"), Var(31, 32, "b")]);
  }

  /** Two named parameters declare two variables, in order. */
  lemma ParamVariablesTwo(p0: Param, p1: Param)
    requires p0.name.Some? && p1.name.Some?
    ensures ParamVariables([p0, p1])
      == [Variable(p0.range, p0.name.value.text), Variable(p1.range, p1.name.value.text)]
  {
    var v0, v1 := Variable(p0.range, p0.name.value.text), Variable(p1.range, p1.name.value.text);
    assert ParamVariables([p1]) == [v1] by {
      assert [p1][1..] == [];
      assert [v1] + [] == [v1];
    }
    assert ParamVariables([p0, p1]) == [v0] + [v1] by {
      assert [p0, p1][1..] == [p1];
    }
  }

  lemma BarScopes()
    ensures TreeScopes(BarStatement(), Some(Block)) == [Scope(Range(145, 203), [Var(143, 144, "c")])]
  {
    var bar := BarStatement();
    FunctionScopes(bar, bar.children[0], bar.children[0].children[0], Some(Block));
    assert ParamVariables(bar.children[0].kind.params.value) == [Var(143, 144, "c")];
  }

  lemma NumericForScopes()
    ensures TreeScopes(NumericFor(), Some(Block)) == [Scope(Range(257, 316), [Var(245, 246, "i")])]
  {
    var numeric := NumericFor();
    BodyScopes(numeric, numeric.children[..2], numeric.children[2], Some(Block));
    assert ChildrenVariables([Leaf(299, 307)]) == [];
    assert ParentVariables(Some(numeric.kind)) == [Var(245, 246, "i")];
    assert ScopeOf(numeric.children[2], Some(numeric.kind)) == Scope(Range(257, 316), [Var(245, 246, "i")]);
  }

  lemma GenericForScopes()
    ensures TreeScopes(GenericFor(), Some(Block)) == [Scope(Range(378, 443), [Var(358, 359, "i"), Var(361, 362, "v")])]
  {
    var generic := GenericFor();
    BodyScopes(generic, generic.children[..1], generic.children[1], Some(Block));
    assert ChildrenVariables([Leaf(423, 434)]) == [];
    assert ParentVariables(Some(generic.kind)) == [Var(358, 359, "i"), Var(361, 362, "v")];
    assert ScopeOf(generic.children[1], Some(generic.kind)) == Scope(Range(378, 443), [Var(358, 359, "i"), Var(361, 362, "v")]);
  }

  lemma StatementsScopes()
    ensures TreeScopesOfAll([FooStatement(), BarStatement(), NumericFor(), GenericFor()], Some(Block)) == [
      Scope(Range(33, 92), [Var(28, 29, "a"), Var(31, 32, "b")]),
      Scope(Range(145, 203), [Var(143, 144, "c")]),
      Scope(Range(257, 316), [Var(245, 246, "i")]),
      Scope(Range(378, 443), [Var(358, 359, "i"), Var(361, 362, "v")])]
  {
    var body := Some(Block);
    TreeScopesOfFour(FooStatement(), BarStatement(), NumericFor(), GenericFor(), body);
    FooScopes();
    BarScopes();
    NumericForScopes();
    GenericForScopes();
    DisplayOfParts(Scope(Range(0, 480), []),
      Scope(Range(33, 92), [Var(28, 29, "a"), Var(31, 32, "b")]),
      Scope(Range(145, 203), [Var(143, 144, "c")]),
      Scope(Range(257, 316), [Var(245, 246, "i")]),
      Scope(Range(378, 443), [Var(358, 359, "i"), Var(361, 362, "v")]));
  }

  /** Sequence displays assembled from their parts: four singletons joined,
      and one element put in front of four. */
  lemma DisplayOfParts<T>(v: T, w: T, x: T, y: T, z: T)
    ensures [w] + [x] + [y] + [z] == [w, x, y, z]
    ensures [v] + [w, x, y, z] == [v, w, x, y, z]
  {
  }

  /** Four statements side by side contribute their scopes in order. */
  lemma TreeScopesOfFour(a: Node, b: Node, c: Node, d: Node, parent: Option<Kind>)
    ensures TreeScopesOfAll([a, b, c, d], parent)
      == TreeScopes(a, parent) + TreeScopes(b, parent) + TreeScopes(c, parent) + TreeScopes(d, parent)
  {
    var ta, tb, tc, td := TreeScopes(a, parent), TreeScopes(b, parent), TreeScopes(c, parent), TreeScopes(d, parent);
    SingletonScopes(d, parent);
    assert TreeScopesOfAll([c, d], parent) == tc + td by {
      assert [c, d][1..] == [d];
    }
    assert TreeScopesOfAll([b, c, d], parent) == tb + (tc + td) by {
      assert [b, c, d][1..] == [c, d];
    }
    assert TreeScopesOfAll([a, b, c, d], parent) == ta + (tb + (tc + td)) by {
      assert [a, b, c, d][1..] == [b, c, d];
    }
    Regroup(ta, tb, tc + td);
    Regroup(ta + tb, tc, td);
  }

  /** The five scopes of the text: the chunk, the two function bodies and the
      two loop bodies. */
  lemma LocalsTextScopes()
    ensures ResolveScopes(LocalsText()) == LocalsScopes()
  {
    ResolveScopesStructure(LocalsText(), None);
    LocalsTreeScopes();
  }

  lemma LocalsTreeScopes()
    ensures TreeScopes(LocalsText(), None) == [
      Scope(Range(0, 480), [Var(24, 27, "foo"), Var(139, 142, "bar")]),
      Scope(Range(33, 92), [Var(28, 29, "a"), Var(31, 32, "b")]),
      Scope(Range(145, 203), [Var(143, 144, "c")]),
      Scope(Range(257, 316), [Var(245, 246, "i")]),
      Scope(Range(378, 443), [Var(358, 359, "i"), Var(361, 362, "v")])]
  {
    var chunk := LocalsText();
    ChunkScopes(chunk, chunk.children[0], None);
    StatementsScopes();
    TopVariables();
    DisplayOfParts(Scope(Range(0, 480), [Var(24, 27, "foo"), Var(139, 142, "bar")]),
      Scope(Range(33, 92), [Var(28, 29, "a"), Var(31, 32, "b")]),
      Scope(Range(145, 203), [Var(143, 144, "c")]),
      Scope(Range(257, 316), [Var(245, 246, "i")]),
      Scope(Range(378, 443), [Var(358, 359, "i"), Var(361, 362, "v")]));
  }

  /** A chunk whose only child is its block: the block's scope, then the
      scopes of the statements in it. */
  lemma ChunkScopes(chunk: Node, top: Node, parent: Option<Kind>)
    requires chunk.kind.Chunk? && chunk.children == [top] && top.kind.Block?
    ensures TreeScopes(chunk, parent)
      == [Scope(top.range, ChildrenVariables(top.children))] + TreeScopesOfAll(top.children, Some(Block))
  {
    SingletonScopes(top, Some(chunk.kind));
    assert ParentVariables(Some(chunk.kind)) + ChildrenVariables(top.children) == ChildrenVariables(top.children);
  }

  lemma TopVariables()
    ensures ChildrenVariables([FooStatement(), BarStatement(), NumericFor(), GenericFor()]) == [Var(24, 27, "foo"), Var(139, 142, "bar")]
  {
    var stats := [FooStatement(), BarStatement(), NumericFor(), GenericFor()];
    assert ChildrenVariables(stats[3..]) == [];
    assert ChildrenVariables(stats[2..]) == [] by {
      assert stats[2..][1..] == stats[3..];
    }
    assert ChildrenVariables(stats[1..]) == [Var(139, 142, "bar")] by {
      assert stats[1..][1..] == stats[2..];
    }
  }

  /** The variables visible among five scopes are those visible in each,
      scope by scope. */
  lemma VisibleVariablesOfFive(s0: Scope, s1: Scope, s2: Scope, s3: Scope, s4: Scope, position: nat)
    ensures VisibleVariables([s0, s1, s2, s3, s4], position)
      == VisibleInScope(s0, position) + VisibleInScope(s1, position) + VisibleInScope(s2, position)
         + VisibleInScope(s3, position) + VisibleInScope(s4, position)
  {
    assert VisibleVariables([s0], position) == VisibleInScope(s0, position) by {
      assert [s0][..0] == [];
    }
    assert VisibleVariables([s0, s1], position) == VisibleVariables([s0], position) + VisibleInScope(s1, position) by {
      assert [s0, s1][..1] == [s0];
    }
    assert VisibleVariables([s0, s1, s2], position) == VisibleVariables([s0, s1], position) + VisibleInScope(s2, position) by {
      assert [s0, s1, s2][..2] == [s0, s1];
    }
    assert VisibleVariables([s0, s1, s2, s3], position) == VisibleVariables([s0, s1, s2], position) + VisibleInScope(s3, position) by {
      assert [s0, s1, s2, s3][..3] == [s0, s1, s2];
    }
    assert VisibleVariables([s0, s1, s2, s3, s4], position) == VisibleVariables([s0, s1, s2, s3], position) + VisibleInScope(s4, position) by {
      assert [s0, s1, s2, s3, s4][..4] == [s0, s1, s2, s3];
    }
  }

  /** A variable, if it is declared by the position. */
  function Keep(v: Variable, position: nat): seq<Variable> {
    if v.range.end <= position then [v] else []
  }

  lemma VisibleInOne(v0: Variable, position: nat)
    ensures VisibleIn([v0], position) == Keep(v0, position)
  {
    assert [v0][..0] == [];
  }

  lemma VisibleInTwo(v0: Variable, v1: Variable, position: nat)
    ensures VisibleIn([v0, v1], position) == Keep(v0, position) + Keep(v1, position)
  {
    assert [v0, v1][..1] == [v0];
    VisibleInOne(v0, position);
  }

  function LocalsScopes(): seq<Scope> {
    [Scope(Range(0, 480), [Var(24, 27, "foo"), Var(139, 142, "bar")]),
     Scope(Range(33, 92), [Var(28, 29, "a"), Var(31, 32, "b")]),
     Scope(Range(145, 203), [Var(143, 144, "c")]),
     Scope(Range(257, 316), [Var(245, 246, "i")]),
     Scope(Range(378, 443), [Var(358, 359, "i"), Var(361, 362, "v")])]
  }

  /** The visible variables of the text at a position, scope by scope and
      variable by variable. */
  lemma LocalsUnrolled(position: nat)
    ensures VisibleVariables(LocalsScopes(), position)
      == VisibleInScope(LocalsScopes()[0], position)
         + VisibleInScope(LocalsScopes()[1], position)
         + VisibleInScope(LocalsScopes()[2], position)
         + VisibleInScope(LocalsScopes()[3], position)
         + VisibleInScope(LocalsScopes()[4], position)
    ensures VisibleIn([Var(24, 27, "foo"), Var(139, 142, "bar")], position) == Keep(Var(24, 27, "foo"), position) + Keep(Var(139, 142, "bar"), position)
    ensures VisibleIn([Var(28, 29, "a"), Var(31, 32, "b")], position) == Keep(Var(28, 29, "a"), position) + Keep(Var(31, 32, "b"), position)
    ensures VisibleIn([Var(143, 144, "c")], position) == Keep(Var(143, 144, "c"), position)
    ensures VisibleIn([Var(245, 246, "i")], position) == Keep(Var(245, 246, "i"), position)
    ensures VisibleIn([Var(358, 359, "i"), Var(361, 362, "v")], position) == Keep(Var(358, 359, "i"), position) + Keep(Var(361, 362, "v"), position)
  {
    var sc := LocalsScopes();
    VisibleVariablesOfFive(sc[0], sc[1], sc[2], sc[3], sc[4], position);
    VisibleInTwo(Var(24, 27, "foo"), Var(139, 142, "bar"), position);
    VisibleInTwo(Var(28, 29, "a"), Var(31, 32, "b"), position);
    VisibleInOne(Var(143, 144, "c"), position);
    VisibleInOne(Var(245, 246, "i"), position);
    VisibleInTwo(Var(358, 359, "i"), Var(361, 362, "v"), position);
  }

  lemma LocalsAtLine2()
    ensures Names(VisibleVariables(LocalsScopes(), 33)) == ["foo", "a", "b"]
  {
    LocalsUnrolled(33);
  }

  lemma LocalsAtLine6()
    ensures Names(VisibleVariables(LocalsScopes(), 96)) == ["foo"]
  {
    LocalsUnrolled(96);
  }

  lemma LocalsAtLine9()
    ensures Names(VisibleVariables(LocalsScopes(), 145)) == ["foo", "bar", "c"]
  {
    LocalsUnrolled(145);
  }

  lemma LocalsAtLine13()
    ensures Names(VisibleVariables(LocalsScopes(), 207)) == ["foo", "bar"]
  {
    LocalsUnrolled(207);
  }

  lemma LocalsAtLine16()
    ensures Names(VisibleVariables(LocalsScopes(), 257)) == ["foo", "bar", "i"]
  {
    LocalsUnrolled(257);
  }

  lemma LocalsAtLine20()
    ensures Names(VisibleVariables(LocalsScopes(), 320)) == ["foo", "bar"]
  {
    LocalsUnrolled(320);
  }

  lemma LocalsAtLine23()
    ensures Names(VisibleVariables(LocalsScopes(), 378)) == ["foo", "bar", "i", "v"]
  {
    LocalsUnrolled(378);
  }

  lemma LocalsAtLine27()
    ensures Names(VisibleVariables(LocalsScopes(), 447)) == ["foo", "bar"]
  {
    LocalsUnrolled(447);
  }

  /** `local function foo(a, fooing) local foobaz = 3 end`. */
  function UpvaluesText(): Node {
    Node(Chunk, Range(0, 134), [Node(Block, Range(0, 134), [FooingStatement()])])
  }

  function FoobazStatement(): Node {
    Node(LocalStat([Some(Tok(57, 63, "foobaz"))]), Range(51, 67), [Leaf(66, 67)])
  }

  function FooingStatement(): Node {
    Node(LocalFuncStat(Some(Tok(24, 27, "foo"))), Range(9, 125), [
      Node(ClosureExpr(Some([NamedParam(28, 29, "a"), NamedParam(31, 37, "fooing")])), Range(27, 125), [
        Node(Block, Range(38, 122), [FoobazStatement()])])])
  }

  function UpvaluesScopes(): seq<Scope> {
    [Scope(Range(0, 134), [Var(24, 27, "foo")]),
     Scope(Range(38, 122), [Var(28, 29, "a"), Var(31, 37, "fooing"), Var(51, 67, "foobaz")])]
  }

  lemma FooingScopes()
    ensures TreeScopes(FooingStatement(), Some(Block)) == [UpvaluesScopes()[1]]
  {
    var stat := FooingStatement();
    var closure := stat.children[0];
    var body := closure.children[0];
    assert TreeScopes(FoobazStatement(), Some(Block)) == [] by {
      SingletonScopes(Leaf(66, 67), Some(FoobazStatement().kind));
    }
    assert TreeScopesOfAll(body.children, Some(Block)) == [] by {
      SingletonScopes(FoobazStatement(), Some(Block));
    }
    SingletonScopes(body, Some(closure.kind));
    SingletonScopes(closure, Some(stat.kind));
    var params := closure.kind.params.value;
    assert ParamVariables(params[1..]) == [Var(31, 37, "fooing")];
    assert ParamVariables(params) == [Var(28, 29, "a"), Var(31, 37, "fooing")];
    assert ChildrenVariables([FoobazStatement()]) == [Var(51, 67, "foobaz")] by {
      assert LocalNames(Range(51, 67), [Some(Tok(57, 63, "foobaz"))]) == [Var(51, 67, "foobaz")];
    }
    assert ScopeOf(body, Some(closure.kind)) == UpvaluesScopes()[1];
  }

  /** The two scopes of the text: the chunk and the function body. */
  lemma UpvaluesTextScopes()
    ensures ResolveScopes(UpvaluesText()) == UpvaluesScopes()
  {
    var top := Node(Block, Range(0, 134), [FooingStatement()]);
    assert TreeScopesOfAll([FooingStatement()], Some(Block)) == [UpvaluesScopes()[1]] by {
      FooingScopes();
      SingletonScopes(FooingStatement(), Some(Block));
    }
    assert ChildrenVariables([FooingStatement()]) == [Var(24, 27, "foo")];
    assert ScopeOf(top, Some(Chunk)) == UpvaluesScopes()[0];
    assert TreeScopes(top, Some(Chunk)) == UpvaluesScopes();
    SingletonScopes(top, Some(Chunk));
    ResolveScopesStructure(UpvaluesText(), None);
  }

  lemma VisibleInThree(v0: Variable, v1: Variable, v2: Variable, position: nat)
    ensures VisibleIn([v0, v1, v2], position) == Keep(v0, position) + Keep(v1, position) + Keep(v2, position)
  {
    assert [v0, v1, v2][..2] == [v0, v1];
    VisibleInTwo(v0, v1, position);
  }

  /** The names visible at line 3, where the `local` statement has just
      ended. */
  lemma UpvaluesLocals()
    ensures Names(VisibleVariables(UpvaluesScopes(), 67)) == ["foo", "a", "fooing", "foobaz"]
  {
    var sc := UpvaluesScopes();
    var foo, a, fooing, foobaz := Var(24, 27, "foo"), Var(28, 29, "a"), Var(31, 37, "fooing"), Var(51, 67, "foobaz");
    assert VisibleVariables(sc, 67) == VisibleInScope(sc[0], 67) + VisibleInScope(sc[1], 67) by {
      VisibleVariablesOfTwo(sc[0], sc[1], 67);
      assert [sc[0], sc[1]] == sc;
    }
    assert VisibleInScope(sc[0], 67) == [foo] by {
      VisibleInOne(foo, 67);
    }
    assert VisibleInScope(sc[1], 67) == [a] + [fooing] + [foobaz] by {
      VisibleInThree(a, fooing, foobaz, 67);
    }
    NamesOfJoined(foo, a, fooing, foobaz);
  }

  /** The variables visible among two scopes are those visible in each. */
  lemma VisibleVariablesOfTwo(s0: Scope, s1: Scope, position: nat)
    ensures VisibleVariables([s0, s1], position) == VisibleInScope(s0, position) + VisibleInScope(s1, position)
  {
    assert VisibleVariables([s0], position) == VisibleInScope(s0, position) by {
      assert [s0][..0] == [];
      assert [] + VisibleInScope(s0, position) == VisibleInScope(s0, position);
    }
    assert [s0, s1][..1] == [s0];
  }

  /** The names of one variable followed by three more, in order. */
  lemma NamesOfJoined(v0: Variable, v1: Variable, v2: Variable, v3: Variable)
    ensures Names([v0] + ([v1] + [v2] + [v3])) == [v0.name, v1.name, v2.name, v3.name]
  {
  }

  /** Some globals of a fresh state with `foobar` set: one set of globals
      that meets the assumption of `UpvaluesScenario`. */
  function UpvaluesGlobals(): seq<string> {
    ["_G", "_VERSION", "foobar", "pairs", "print", "string", "table"]
  }

  lemma LocalsFiltered()
    ensures FilterPrefix("foo", ["foo", "a", "fooing", "foobaz"]) == ["foo", "fooing", "foobaz"]
  {
    assert FilterPrefix("foo", ["foobaz"]) == ["foobaz"] by {
      assert StartsWith("foobaz", "foo");
      FilterPrefixKeep("foo", "foobaz", [], []);
      assert ["foobaz"] + [] == ["foobaz"];
    }
    assert FilterPrefix("foo", ["fooing", "foobaz"]) == ["fooing", "foobaz"] by {
      assert StartsWith("fooing", "foo");
      FilterPrefixKeep("foo", "fooing", ["foobaz"], ["foobaz"]);
      assert ["fooing"] + ["foobaz"] == ["fooing", "foobaz"];
    }
    assert FilterPrefix("foo", ["a", "fooing", "foobaz"]) == ["fooing", "foobaz"] by {
      assert "a"[0] != 'f';
      FilterPrefixDrop("foo", "a", ["fooing", "foobaz"], ["fooing", "foobaz"]);
      assert ["a"] + ["fooing", "foobaz"] == ["a", "fooing", "foobaz"];
    }
    assert FilterPrefix("foo", ["foo", "a", "fooing", "foobaz"]) == ["foo", "fooing", "foobaz"] by {
      assert StartsWith("foo", "foo");
      FilterPrefixKeep("foo", "foo", ["a", "fooing", "foobaz"], ["fooing", "foobaz"]);
      assert ["foo"] + ["a", "fooing", "foobaz"] == ["foo", "a", "fooing", "foobaz"];
    }
  }

  lemma GlobalsFiltered()
    ensures FilterPrefix("foo", UpvaluesGlobals()) == ["foobar"]
  {
    assert FilterPrefix("foo", ["table"]) == [] by {
      assert "table"[0] != 'f';
      FilterPrefixDrop("foo", "table", [], []);
      assert ["table"] + [] == ["table"];
    }
    assert FilterPrefix("foo", ["string", "table"]) == [] by {
      assert "string"[0] != 'f';
      FilterPrefixDrop("foo", "string", ["table"], []);
      assert ["string"] + ["table"] == ["string", "table"];
    }
    assert FilterPrefix("foo", ["print", "string", "table"]) == [] by {
      assert "print"[0] != 'f';
      FilterPrefixDrop("foo", "print", ["string", "table"], []);
      assert ["print"] + ["string", "table"] == ["print", "string", "table"];
    }
    assert FilterPrefix("foo", ["pairs", "print", "string", "table"]) == [] by {
      assert "pairs"[0] != 'f';
      FilterPrefixDrop("foo", "pairs", ["print", "string", "table"], []);
      assert ["pairs"] + ["print", "string", "table"] == ["pairs", "print", "string", "table"];
    }
    assert FilterPrefix("foo", ["foobar", "pairs", "print", "string", "table"]) == ["foobar"] by {
      assert StartsWith("foobar", "foo");
      FilterPrefixKeep("foo", "foobar", ["pairs", "print", "string", "table"], []);
      assert ["foobar"] + ["pairs", "print", "string", "table"] == ["foobar", "pairs", "print", "string", "table"];
    }
    assert FilterPrefix("foo", ["_VERSION", "foobar", "pairs", "print", "string", "table"]) == ["foobar"] by {
      assert "_VERSION"[0] != 'f';
      FilterPrefixDrop("foo", "_VERSION", ["foobar", "pairs", "print", "string", "table"], ["foobar"]);
      assert ["_VERSION"] + ["foobar", "pairs", "print", "string", "table"] == ["_VERSION", "foobar", "pairs", "print", "string", "table"];
    }
    assert FilterPrefix("foo", ["_G", "_VERSION", "foobar", "pairs", "print", "string", "table"]) == ["foobar"] by {
      assert "_G"[0] != 'f';
      FilterPrefixDrop("foo", "_G", ["_VERSION", "foobar", "pairs", "print", "string", "table"], ["foobar"]);
      assert ["_G"] + ["_VERSION", "foobar", "pairs", "print", "string", "table"] == ["_G", "_VERSION", "foobar", "pairs", "print", "string", "table"];
    }
  }

  /** The candidates starting with `foo`, in the order the locals and then
      the globals list them, when `foobar` is the only global starting with
      `foo`. */
  lemma UpvaluesFiltered(globals: seq<string>)
    requires FilterPrefix("foo", globals) == ["foobar"]
    ensures FilterPrefix("foo", ["foo", "a", "fooing", "foobaz"] + globals) == ["foo", "fooing", "foobaz", "foobar"]
  {
    FilterPrefixAppend("foo", ["foo", "a", "fooing", "foobaz"], globals);
    LocalsFiltered();
  }

  lemma ExpectedSorted()
    ensures Sorted(["foo", "foobar", "foobaz", "fooing"])
  {
    var e := ["foo", "foobar", "foobaz", "fooing"];
    assert Le(e[0], e[1]) && Le(e[0], e[2]) && Le(e[0], e[3]);
    assert Le(e[1], e[2]) && Le(e[1], e[3]);
    assert Le(e[2], e[3]);
  }

  /** The `upvalues` test: whatever the other globals of a fresh state are,
      as long as `foobar` is the only one starting with `foo`, any result
      meeting the contract of `AutocompleteUpvalue` for `foo` at line 3 is
      exactly the expected list. */
  lemma UpvaluesScenario(globals: seq<string>, r: seq<string>)
    requires FilterPrefix("foo", globals) == ["foobar"]
    requires Sorted(r)
    requires multiset(r) == multiset(FilterPrefix("foo", Names(VisibleVariables(UpvaluesScopes(), 67)) + globals))
    ensures r == ["foo", "foobar", "foobaz", "fooing"]
  {
    UpvaluesLocals();
    UpvaluesFiltered(globals);
    ExpectedSorted();
    SortedPermutation(r, "foo", "fooing", "foobaz", "foobar");
  }

  /** A sorted sequence with the elements of `[a, b, c, d]` is `[a, d, c, b]`
      when that is sorted. */
  lemma SortedPermutation(r: seq<string>, a: string, b: string, c: string, d: string)
    requires Sorted(r) && Sorted([a, d, c, b])
    requires multiset(r) == multiset([a, b, c, d])
    ensures r == [a, d, c, b]
  {
    SwapKeepsMultiset(a, b, c, d);
    SortedUnique(r, [a, d, c, b]);
  }

  /** Swapping the second and fourth elements keeps the same elements. */
  lemma SwapKeepsMultiset<T>(a: T, b: T, c: T, d: T)
    ensures multiset([a, b, c, d]) == multiset([a, d, c, b])
  {
  }

}
