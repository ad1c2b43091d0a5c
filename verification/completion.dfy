/** Scope resolution and local-name completion (`src/completion.rs`).

    The parser's output is taken as given: a tree of nodes, each with a kind,
    a byte range and its direct children. The kinds the resolver inspects
    carry what the typed syntax accessors would return for them: the
    parameters of a closure, the names of a generic `for`, the counter of a
    numeric `for`, the name of a `local function`, and the names of a `local`
    statement. Every other node is `Other`. */
module Completion {
  import opened Results
  import opened Strings

  /** A byte range of the buffer, from `start` to `end`. */
  datatype Range = Range(start: nat, end: nat)

  /** A name token and its range. */
  datatype Token = Token(range: Range, text: string)

  /** A closure parameter: its own range, and its name token unless it is
      `...`. */
  datatype Param = Param(range: Range, name: Option<Token>)

  datatype Kind =
    | Chunk
    | Block
    | ClosureExpr(params: Option<seq<Param>>)
    | ForRangeStat(names: seq<Token>)
    | ForStat(counter: Option<Token>)
    | LocalFuncStat(name: Option<Token>)
    | LocalStat(declared: seq<Option<Token>>)
    | Other

  datatype Node = Node(kind: Kind, range: Range, children: seq<Node>)

  /** A declared name and the range whose end is the first position the name
      is visible from. */
  datatype Variable = Variable(range: Range, name: string)

  /** One block: its range and the names it declares. */
  datatype Scope = Scope(range: Range, variables: seq<Variable>)

  /** A node met by the walk, with the kind of its parent (none for the root). */
  datatype Visit = Visit(node: Node, parent: Option<Kind>)

  /* ---------------------------------------------------------------------- */
  /*  The tree walk                                                         */
  /* ---------------------------------------------------------------------- */

  /** `descendants()`: the node itself, then the descendants of each child in
      order (pre-order). */
  function Descendants(n: Node, parent: Option<Kind>): seq<Visit>
    decreases n, 1
  {
    [Visit(n, parent)] + DescendantsOfAll(n.children, Some(n.kind))
  }

  function DescendantsOfAll(ns: seq<Node>, parent: Option<Kind>): seq<Visit>
    decreases ns, 0
  {
    if |ns| == 0 then [] else Descendants(ns[0], parent) + DescendantsOfAll(ns[1..], parent)
  }

  /** Number of block nodes in a tree, counted structurally. */
  function BlockCount(n: Node): nat
    decreases n, 1
  {
    (if n.kind.Block? then 1 else 0) + BlockCountOfAll(n.children)
  }

  function BlockCountOfAll(ns: seq<Node>): nat
    decreases ns, 0
  {
    if |ns| == 0 then 0 else BlockCount(ns[0]) + BlockCountOfAll(ns[1..])
  }

  /* ---------------------------------------------------------------------- */
  /*  resolve_scopes                                                        */
  /* ---------------------------------------------------------------------- */

  /** The names a block's parent construct introduces: closure parameters
      (each with the parameter's range), generic-`for` names, or the
      numeric-`for` counter (each with its token's range). */
  function ParentVariables(parent: Option<Kind>): seq<Variable> {
    match parent
    case Some(ClosureExpr(Some(params))) => ParamVariables(params)
    case Some(ForRangeStat(names)) => seq(|names|, i requires 0 <= i < |names| => Variable(names[i].range, names[i].text))
    case Some(ForStat(Some(t))) => [Variable(t.range, t.text)]
    case _ => []
  }

  function ParamVariables(params: seq<Param>): seq<Variable> {
    if |params| == 0 then []
    else
      (match params[0].name
       case Some(t) => [Variable(params[0].range, t.text)]
       case None => [])
      + ParamVariables(params[1..])
  }

  /** The names one direct child statement of a block declares: a `local
      function` name is visible from the end of its name token, the names of
      a `local` statement from the end of the whole statement. */
  function StatementVariables(stat: Node): seq<Variable> {
    match stat.kind
    case LocalFuncStat(Some(t)) => [Variable(t.range, t.text)]
    case LocalStat(declared) => LocalNames(stat.range, declared)
    case _ => []
  }

  function LocalNames(range: Range, names: seq<Option<Token>>): seq<Variable> {
    if |names| == 0 then []
    else
      (match names[0]
       case Some(t) => [Variable(range, t.text)]
       case None => [])
      + LocalNames(range, names[1..])
  }

  function ChildrenVariables(stats: seq<Node>): seq<Variable> {
    if |stats| == 0 then [] else StatementVariables(stats[0]) + ChildrenVariables(stats[1..])
  }

  /** The scope of one block. */
  function ScopeOf(block: Node, parent: Option<Kind>): Scope {
    Scope(block.range, ParentVariables(parent) + ChildrenVariables(block.children))
  }

  function ScopesOfVisits(visits: seq<Visit>): seq<Scope> {
    if |visits| == 0 then []
    else
      (if visits[0].node.kind.Block? then [ScopeOf(visits[0].node, visits[0].parent)] else [])
      + ScopesOfVisits(visits[1..])
  }

  /** `resolve_scopes`: one scope per block of the tree, in walk order. */
  function ResolveScopes(root: Node): seq<Scope> {
    ScopesOfVisits(Descendants(root, None))
  }

  lemma ScopesOfVisitsAppend(a: seq<Visit>, b: seq<Visit>)
    ensures ScopesOfVisits(a + b) == ScopesOfVisits(a) + ScopesOfVisits(b)
  {
    if |a| > 0 {
      assert (a + b)[1..] == a[1..] + b;
      ScopesOfVisitsAppend(a[1..], b);
    } else {
      assert a + b == b;
    }
  }

  /** The walk yields exactly one scope per block of the tree. */
  lemma {:induction false} ResolveScopesCount(root: Node, parent: Option<Kind>)
    ensures |ScopesOfVisits(Descendants(root, parent))| == BlockCount(root)
    decreases root, 1
  {
    ScopesOfVisitsAppend([Visit(root, parent)], DescendantsOfAll(root.children, Some(root.kind)));
    ResolveScopesCountOfAll(root.children, Some(root.kind));
  }

  lemma {:induction false} ResolveScopesCountOfAll(ns: seq<Node>, parent: Option<Kind>)
    ensures |ScopesOfVisits(DescendantsOfAll(ns, parent))| == BlockCountOfAll(ns)
    decreases ns, 0
  {
    if |ns| > 0 {
      ScopesOfVisitsAppend(Descendants(ns[0], parent), DescendantsOfAll(ns[1..], parent));
      ResolveScopesCount(ns[0], parent);
      ResolveScopesCountOfAll(ns[1..], parent);
    }
  }

  /** The scopes of a tree, read off its structure: the node's own scope if
      it is a block, then those of each child subtree in order. */
  function TreeScopes(n: Node, parent: Option<Kind>): seq<Scope>
    decreases n, 1
  {
    (if n.kind.Block? then [ScopeOf(n, parent)] else []) + TreeScopesOfAll(n.children, Some(n.kind))
  }

  function TreeScopesOfAll(ns: seq<Node>, parent: Option<Kind>): seq<Scope>
    decreases ns, 0
  {
    if |ns| == 0 then [] else TreeScopes(ns[0], parent) + TreeScopesOfAll(ns[1..], parent)
  }

  /** Filtering the pre-order walk gives the structural reading. */
  lemma {:induction false} ResolveScopesStructure(n: Node, parent: Option<Kind>)
    ensures ScopesOfVisits(Descendants(n, parent)) == TreeScopes(n, parent)
    decreases n, 1
  {
    ScopesOfVisitsAppend([Visit(n, parent)], DescendantsOfAll(n.children, Some(n.kind)));
    ResolveScopesStructureOfAll(n.children, Some(n.kind));
  }

  lemma {:induction false} ResolveScopesStructureOfAll(ns: seq<Node>, parent: Option<Kind>)
    ensures ScopesOfVisits(DescendantsOfAll(ns, parent)) == TreeScopesOfAll(ns, parent)
    decreases ns, 0
  {
    if |ns| > 0 {
      ScopesOfVisitsAppend(Descendants(ns[0], parent), DescendantsOfAll(ns[1..], parent));
      ResolveScopesStructure(ns[0], parent);
      ResolveScopesStructureOfAll(ns[1..], parent);
    }
  }

  /** Every block met by the walk contributes its scope, with the block's own
      range and the variables of its parent construct and direct children. */
  lemma {:induction false} BlockHasScope(visits: seq<Visit>, i: nat)
    requires i < |visits| && visits[i].node.kind.Block?
    ensures ScopeOf(visits[i].node, visits[i].parent) in ScopesOfVisits(visits)
  {
    if i > 0 {
      BlockHasScope(visits[1..], i - 1);
    }
  }

  /** Every scope comes from a block met by the walk. */
  lemma {:induction false} ScopeHasBlock(visits: seq<Visit>, s: Scope)
    requires s in ScopesOfVisits(visits)
    ensures exists i :: 0 <= i < |visits| && visits[i].node.kind.Block? && s == ScopeOf(visits[i].node, visits[i].parent)
  {
    if |visits| > 0 && !(visits[0].node.kind.Block? && s == ScopeOf(visits[0].node, visits[0].parent)) {
      ScopeHasBlock(visits[1..], s);
      var i :| 0 <= i < |visits[1..]| && visits[1..][i].node.kind.Block? && s == ScopeOf(visits[1..][i].node, visits[1..][i].parent);
      assert visits[i + 1] == visits[1..][i];
    }
  }

  /* ---------------------------------------------------------------------- */
  /*  locals                                                                */
  /* ---------------------------------------------------------------------- */

  /** The query position lies in the range, both ends included. */
  predicate Covers(r: Range, position: nat) {
    r.start <= position <= r.end
  }

  /** The variables of one scope visible at `position`, in declaration order. */
  function VisibleIn(vs: seq<Variable>, position: nat): seq<Variable> {
    if |vs| == 0 then []
    else
      VisibleIn(vs[..|vs| - 1], position)
      + (if vs[|vs| - 1].range.end <= position then [vs[|vs| - 1]] else [])
  }

  /** Reference reading of `locals`: the visible variables of each covering
      scope, scope by scope. */
  function VisibleVariables(scopes: seq<Scope>, position: nat): seq<Variable> {
    if |scopes| == 0 then []
    else VisibleVariables(scopes[..|scopes| - 1], position) + VisibleInScope(scopes[|scopes| - 1], position)
  }

  /** The contribution of one scope: nothing unless it covers the position. */
  function VisibleInScope(scope: Scope, position: nat): seq<Variable> {
    if Covers(scope.range, position) then VisibleIn(scope.variables, position) else []
  }

  function Names(vs: seq<Variable>): seq<string> {
    seq(|vs|, i requires 0 <= i < |vs| => vs[i].name)
  }

  lemma NamesAppend(a: seq<Variable>, b: seq<Variable>)
    ensures Names(a + b) == Names(a) + Names(b)
  {
  }

  /** A variable is visible in a scope exactly when it is declared there and
      its range ends at or before the position. */
  lemma {:induction false} VisibleInSpec(vs: seq<Variable>, position: nat, v: Variable)
    ensures v in VisibleIn(vs, position) <==> v in vs && v.range.end <= position
  {
    if |vs| > 0 {
      VisibleInSpec(vs[..|vs| - 1], position, v);
      assert vs == vs[..|vs| - 1] + [vs[|vs| - 1]];
    }
  }

  /** A variable is visible at `position` exactly when some scope covering the
      position declares it with a range ending at or before the position. */
  lemma {:induction false} VisibleVariablesSpec(scopes: seq<Scope>, position: nat, v: Variable)
    ensures v in VisibleVariables(scopes, position) <==>
      exists s :: s in scopes && Covers(s.range, position) && v in s.variables && v.range.end <= position
  {
    if |scopes| > 0 {
      var init, last := scopes[..|scopes| - 1], scopes[|scopes| - 1];
      VisibleVariablesSpec(init, position, v);
      VisibleInSpec(last.variables, position, v);
      assert scopes == init + [last];
    }
  }

  /** `locals`: for each scope covering the position, in order, the names of
      its variables whose range ends at or before the position, in order. */
  method Locals(scopes: seq<Scope>, position: nat) returns (variables: seq<string>)
    ensures variables == Names(VisibleVariables(scopes, position))
  {
    variables := [];
    var i := 0;
    while i < |scopes|
      invariant i <= |scopes|
      invariant variables == Names(VisibleVariables(scopes[..i], position))
    {
      var scope := scopes[i];
      if scope.range.start <= position && position <= scope.range.end {
        var names := VisibleNames(scope.variables, position);
        variables := variables + names;
      }
      VisibleVariablesStep(scopes, i, position);
      i := i + 1;
    }
    assert scopes[..i] == scopes;
  }

  /** The inner loop of `locals`: the names of the variables whose range
      ends at or before the position, in order. */
  method VisibleNames(vs: seq<Variable>, position: nat) returns (names: seq<string>)
    ensures names == Names(VisibleIn(vs, position))
  {
    names := [];
    var j := 0;
    while j < |vs|
      invariant j <= |vs|
      invariant names == Names(VisibleIn(vs[..j], position))
    {
      var v := vs[j];
      VisibleInStep(vs, j, position);
      if position >= v.range.end {
        names := names + [v.name];
      }
      j := j + 1;
    }
    assert vs[..j] == vs;
  }

  /** One more variable of a scope: its name follows if it is visible. */
  lemma VisibleInStep(vs: seq<Variable>, j: nat, position: nat)
    requires j < |vs|
    ensures Names(VisibleIn(vs[..j + 1], position))
      == Names(VisibleIn(vs[..j], position)) + (if vs[j].range.end <= position then [vs[j].name] else [])
  {
    assert vs[..j + 1][..j] == vs[..j];
    NamesAppend(VisibleIn(vs[..j], position), if vs[j].range.end <= position then [vs[j]] else []);
  }

  /** One more scope: the names it contributes follow. */
  lemma VisibleVariablesStep(scopes: seq<Scope>, i: nat, position: nat)
    requires i < |scopes|
    ensures Names(VisibleVariables(scopes[..i + 1], position))
      == Names(VisibleVariables(scopes[..i], position)) + Names(VisibleInScope(scopes[i], position))
  {
    assert scopes[..i + 1][..i] == scopes[..i];
    NamesAppend(VisibleVariables(scopes[..i], position), VisibleInScope(scopes[i], position));
  }

  /** The names `locals` returns at a position: each is declared in a scope
      covering the position and visible there, and every such declaration
      contributes its name. */
  lemma LocalsMembership(scopes: seq<Scope>, position: nat, name: string)
    ensures name in Names(VisibleVariables(scopes, position)) <==>
      exists s, v :: s in scopes && v in s.variables && Covers(s.range, position) && v.range.end <= position && v.name == name
  {
    var vs := VisibleVariables(scopes, position);
    if name in Names(vs) {
      var i :| 0 <= i < |vs| && Names(vs)[i] == name;
      VisibleVariablesSpec(scopes, position, vs[i]);
    }
    if exists s, v :: s in scopes && v in s.variables && Covers(s.range, position) && v.range.end <= position && v.name == name {
      var s, v :| s in scopes && v in s.variables && Covers(s.range, position) && v.range.end <= position && v.name == name;
      VisibleVariablesSpec(scopes, position, v);
      var i :| 0 <= i < |vs| && vs[i] == v;
      assert Names(vs)[i] == name;
    }
  }

  /* ---------------------------------------------------------------------- */
  /*  Visibility rules, from the tree                                       */
  /* ---------------------------------------------------------------------- */

  /** The variable a block's direct child statement declares is part of that
      block's scope. */
  lemma {:induction false} ChildDeclares(stats: seq<Node>, k: nat, v: Variable)
    requires k < |stats| && v in StatementVariables(stats[k])
    ensures v in ChildrenVariables(stats)
  {
    if k > 0 {
      ChildDeclares(stats[1..], k - 1, v);
    }
  }

  /** Only the block's direct statements declare into it: every name it
      collects from its statements comes from one of them. */
  lemma {:induction false} ChildrenVariablesFrom(stats: seq<Node>, v: Variable)
    requires v in ChildrenVariables(stats)
    ensures exists k :: 0 <= k < |stats| && v in StatementVariables(stats[k])
  {
    if v !in StatementVariables(stats[0]) {
      ChildrenVariablesFrom(stats[1..], v);
      var k :| 0 <= k < |stats[1..]| && v in StatementVariables(stats[1..][k]);
      assert stats[k + 1] == stats[1..][k];
    }
  }

  /** `v` is declared into the block of `visit`: by the block's parent
      construct, or by one of the block's direct statements. */
  predicate DeclaredIn(v: Variable, visit: Visit) {
    || v in ParentVariables(visit.parent)
    || exists k :: 0 <= k < |visit.node.children| && v in StatementVariables(visit.node.children[k])
  }

  /** Some block of the walk covers the position and declares `v`. */
  predicate DeclaredInWalk(visits: seq<Visit>, position: nat, v: Variable) {
    exists i :: 0 <= i < |visits| && visits[i].node.kind.Block? && Covers(visits[i].node.range, position)
      && DeclaredIn(v, visits[i])
  }

  /** A variable visible among the scopes of a walk was declared into a
      block of that walk which covers the position. */
  lemma VisibleInWalk(visits: seq<Visit>, position: nat, v: Variable) returns (i: nat)
    requires v in VisibleVariables(ScopesOfVisits(visits), position)
    ensures v.range.end <= position
    ensures i < |visits| && visits[i].node.kind.Block? && Covers(visits[i].node.range, position)
    ensures DeclaredIn(v, visits[i])
  {
    var scopes := ScopesOfVisits(visits);
    VisibleVariablesSpec(scopes, position, v);
    var s :| s in scopes && Covers(s.range, position) && v in s.variables && v.range.end <= position;
    ScopeHasBlock(visits, s);
    i :| 0 <= i < |visits| && visits[i].node.kind.Block? && s == ScopeOf(visits[i].node, visits[i].parent);
    var block := visits[i].node;
    assert v in ParentVariables(visits[i].parent) + ChildrenVariables(block.children);
    if v !in ParentVariables(visits[i].parent) {
      ChildrenVariablesFrom(block.children, v);
    }
  }

  /** Names never leak out of their block: a visible variable was declared
      into a block met by the walk that covers the position, and its range
      ends by the position. */
  lemma VisibleVariableOrigin(root: Node, position: nat, v: Variable)
    requires v in VisibleVariables(ResolveScopes(root), position)
    ensures v.range.end <= position
    ensures DeclaredInWalk(Descendants(root, None), position, v)
  {
    var visits := Descendants(root, None);
    assert ResolveScopes(root) == ScopesOfVisits(visits);
    var i := VisibleInWalk(visits, position, v);
    assert DeclaredInWalk(visits, position, v);
  }

  lemma {:induction false} LocalNamesDeclare(range: Range, names: seq<Option<Token>>, k: nat)
    requires k < |names| && names[k].Some?
    ensures Variable(range, names[k].value.text) in LocalNames(range, names)
  {
    if k > 0 {
      LocalNamesDeclare(range, names[1..], k - 1);
    }
  }

  /** Visibility of one declaration of a block: at a position inside the
      block it is visible exactly from the end of its range on. */
  lemma DeclarationVisibility(root: Node, i: nat, v: Variable, position: nat)
    requires var visits := Descendants(root, None);
      i < |visits| && visits[i].node.kind.Block?
      && v in ScopeOf(visits[i].node, visits[i].parent).variables
    requires Covers(Descendants(root, None)[i].node.range, position)
    ensures v in VisibleVariables(ResolveScopes(root), position) <==> v.range.end <= position
  {
    var visits := Descendants(root, None);
    BlockHasScope(visits, i);
    VisibleVariablesSpec(ResolveScopes(root), position, v);
  }

  /** A `local` statement's name becomes visible at the end of the whole
      statement, so never inside the statement itself (its initialiser
      included). */
  lemma LocalStatementVisibility(root: Node, i: nat, k: nat, j: nat, position: nat)
    requires var visits := Descendants(root, None);
      i < |visits| && visits[i].node.kind.Block?
      && k < |visits[i].node.children| && visits[i].node.children[k].kind.LocalStat?
      && j < |visits[i].node.children[k].kind.declared| && visits[i].node.children[k].kind.declared[j].Some?
    requires Covers(Descendants(root, None)[i].node.range, position)
    ensures var stat := Descendants(root, None)[i].node.children[k];
      Variable(stat.range, stat.kind.declared[j].value.text) in VisibleVariables(ResolveScopes(root), position)
      <==> stat.range.end <= position
  {
    var visit := Descendants(root, None)[i];
    var stat := visit.node.children[k];
    var v := Variable(stat.range, stat.kind.declared[j].value.text);
    LocalNamesDeclare(stat.range, stat.kind.declared, j);
    ChildDeclares(visit.node.children, k, v);
    DeclarationVisibility(root, i, v, position);
  }

  /** A `local function`'s name becomes visible at the end of its name token,
      so the function can call itself from its own body. */
  lemma LocalFunctionVisibility(root: Node, i: nat, k: nat, position: nat)
    requires var visits := Descendants(root, None);
      i < |visits| && visits[i].node.kind.Block?
      && k < |visits[i].node.children| && visits[i].node.children[k].kind.LocalFuncStat?
      && visits[i].node.children[k].kind.name.Some?
    requires Covers(Descendants(root, None)[i].node.range, position)
    ensures var t := Descendants(root, None)[i].node.children[k].kind.name.value;
      Variable(t.range, t.text) in VisibleVariables(ResolveScopes(root), position)
      <==> t.range.end <= position
  {
    var visit := Descendants(root, None)[i];
    var t := visit.node.children[k].kind.name.value;
    ChildDeclares(visit.node.children, k, Variable(t.range, t.text));
    DeclarationVisibility(root, i, Variable(t.range, t.text), position);
  }

  /** A numeric `for` counter is declared in the loop's body block, visible
      there from the end of its token. */
  lemma ForCounterVisibility(root: Node, i: nat, position: nat)
    requires var visits := Descendants(root, None);
      i < |visits| && visits[i].node.kind.Block?
      && visits[i].parent.Some? && visits[i].parent.value.ForStat? && visits[i].parent.value.counter.Some?
    requires Covers(Descendants(root, None)[i].node.range, position)
    ensures var t := Descendants(root, None)[i].parent.value.counter.value;
      Variable(t.range, t.text) in VisibleVariables(ResolveScopes(root), position)
      <==> t.range.end <= position
  {
    var visit := Descendants(root, None)[i];
    var t := visit.parent.value.counter.value;
    DeclarationVisibility(root, i, Variable(t.range, t.text), position);
  }

  lemma {:induction false} ParamDeclares(params: seq<Param>, k: nat)
    requires k < |params| && params[k].name.Some?
    ensures Variable(params[k].range, params[k].name.value.text) in ParamVariables(params)
  {
    if k > 0 {
      ParamDeclares(params[1..], k - 1);
    }
  }

  /** A named closure parameter is declared in the closure's body block with
      the range of the whole parameter, and is visible there from its end. */
  lemma ClosureParamVisibility(root: Node, i: nat, k: nat, position: nat)
    requires var visits := Descendants(root, None);
      i < |visits| && visits[i].node.kind.Block?
      && visits[i].parent.Some? && visits[i].parent.value.ClosureExpr? && visits[i].parent.value.params.Some?
      && k < |visits[i].parent.value.params.value| && visits[i].parent.value.params.value[k].name.Some?
    requires Covers(Descendants(root, None)[i].node.range, position)
    ensures var p := Descendants(root, None)[i].parent.value.params.value[k];
      Variable(p.range, p.name.value.text) in VisibleVariables(ResolveScopes(root), position)
      <==> p.range.end <= position
  {
    var visit := Descendants(root, None)[i];
    var p := visit.parent.value.params.value[k];
    ParamDeclares(visit.parent.value.params.value, k);
    DeclarationVisibility(root, i, Variable(p.range, p.name.value.text), position);
  }

  /** Every name of a generic `for` is declared in the loop's body block,
      visible there from the end of its token. */
  lemma ForRangeVisibility(root: Node, i: nat, k: nat, position: nat)
    requires var visits := Descendants(root, None);
      i < |visits| && visits[i].node.kind.Block?
      && visits[i].parent.Some? && visits[i].parent.value.ForRangeStat?
      && k < |visits[i].parent.value.names|
    requires Covers(Descendants(root, None)[i].node.range, position)
    ensures var t := Descendants(root, None)[i].parent.value.names[k];
      Variable(t.range, t.text) in VisibleVariables(ResolveScopes(root), position)
      <==> t.range.end <= position
  {
    var visit := Descendants(root, None)[i];
    var t := visit.parent.value.names[k];
    assert ParentVariables(visit.parent)[k] == Variable(t.range, t.text);
    DeclarationVisibility(root, i, Variable(t.range, t.text), position);
  }

  /* ---------------------------------------------------------------------- */
  /*  autocomplete_upvalue and complete                                     */
  /* ---------------------------------------------------------------------- */

  /** `autocomplete_upvalue`: the local names and the global names together,
      sorted, keeping those that start with `query`; duplicates stay. */
  method AutocompleteUpvalue(scopes: seq<Scope>, globals: seq<string>, query: string, position: nat)
    returns (r: seq<string>)
    ensures Sorted(r)
    ensures multiset(r) == multiset(FilterPrefix(query, Names(VisibleVariables(scopes, position)) + globals))
    ensures forall i :: 0 <= i < |r| ==> StartsWith(r[i], query)
  {
    var upvalues := Locals(scopes, position);
    upvalues := upvalues + globals;
    var sorted := Sort(upvalues);
    r := FilterPrefix(query, sorted);
    FilterPrefixSorted(query, sorted);
    FilterPrefixCount(query, sorted);
    FilterPrefixCount(query, upvalues);
    assert multiset(r) == multiset(FilterPrefix(query, upvalues));
    forall i | 0 <= i < |r| ensures StartsWith(r[i], query) {
      assert r[i] in multiset(r);
    }
  }

  /** A completion offered to the editor: the text, and the span it replaces. */
  datatype Suggestion = Suggestion(value: string, span: Range)

  /** `current_identifier` as shipped: it never finds an identifier. */
  function CurrentIdentifier(position: nat): Option<(Range, string)> {
    None
  }

  /** `pos as u32`. */
  function TruncateU32(n: nat): nat {
    n % 0x1_0000_0000
  }

  /** `u32::saturating_sub(1)`. */
  function SaturatingPred(n: nat): nat {
    if n == 0 then 0 else n - 1
  }

  /** What `complete` does with the identifier found before the cursor, if
      any: every upvalue completion of its text, each replacing the
      identifier's whole range. */
  method Suggest(scopes: seq<Scope>, globals: seq<string>, identifier: Option<(Range, string)>, position: nat)
    returns (r: seq<Suggestion>)
    ensures identifier.None? ==> r == []
    ensures identifier.Some? ==> forall i :: 0 <= i < |r| ==> r[i].span == identifier.value.0
    ensures identifier.Some? ==>
      var values := seq(|r|, i requires 0 <= i < |r| => r[i].value);
      Sorted(values)
      && multiset(values) == multiset(FilterPrefix(identifier.value.1, Names(VisibleVariables(scopes, position)) + globals))
  {
    if identifier.None? {
      return [];
    }
    var (range, current) := identifier.value;
    var names := AutocompleteUpvalue(scopes, globals, current, position);
    r := seq(|names|, i requires 0 <= i < |names| => Suggestion(names[i], range));
    assert seq(|r|, i requires 0 <= i < |r| => r[i].value) == names;
  }

  /** `complete`: rebuild the scopes from the parsed line, look for the
      identifier one byte before the cursor, and complete it. Since the
      identifier lookup never finds one, no line and no cursor position,
      the start of the line included, yields a suggestion. */
  method Complete(tree: Node, globals: seq<string>, pos: nat) returns (r: seq<Suggestion>)
    ensures r == []
  {
    var position := TruncateU32(pos);
    var scopes := ResolveScopes(tree);
    r := Suggest(scopes, globals, CurrentIdentifier(SaturatingPred(position)), position);
  }
}
