/** What the planner's lateral-view consolidation computes, stated on values.

    The planner walks the `dependsUpon` chain from the greatest join. The first table join it meets
    becomes the dependent table join; every lateral view met after that is gathered, and at the
    next table join (or when the chain ends) the gathered views are folded into one inline-query
    join that the dependent table join then depends upon. The methods in `SparkQueryPlanner` do this
    in place on a `JoinHeap`; they are proved to compute `ReplaceSpec` and `Consolidate` below. */
module LateralViews {
  import opened Wrappers
  import opened Strings
  import opened Joins

  /** What the consolidation can throw. */
  datatype ConsolidationError =
    | EmptyPendingSet        // `last()` on an empty set of views: NoSuchElementException
    | NoAliasInvocation      // `group(1)` after `find()` failed: IllegalStateException
    | MissingUdtfExpression  // `tokenizePath(null)` once the `assert` is disabled

  // ---------------------------------------------------------------------------------------------
  // The pattern `.*\s<alias>\.(.*?)\s.*` and a `find()` on the dependent join's expression.

  predicate HasWhitespaceFrom(s: string, from: nat) {
    exists k :: from <= k < |s| && IsWhitespace(s[k])
  }

  /** The first whitespace at or after `from`, or `|s|` when there is none. */
  function NextWhitespace(s: string, from: nat): (k: nat)
    requires from <= |s|
    ensures from <= k <= |s|
    ensures forall i :: from <= i < k ==> !IsWhitespace(s[i])
    ensures k < |s| ==> IsWhitespace(s[k])
    ensures HasWhitespaceFrom(s, from) <==> k < |s|
    decreases |s| - from
  {
    if from == |s| then from
    else if IsWhitespace(s[from]) then from
    else NextWhitespace(s, from + 1)
  }

  /** The greedy `.*` can stop at whitespace position `p`: the alias and a dot follow it, and a
      whitespace follows somewhere after that, for the lazy group to stop at. */
  predicate InvocationAt(s: string, alias: string, p: nat) {
    && p < |s|
    && IsWhitespace(s[p])
    && OccursAt(s, alias + ".", p + 1)
    && HasWhitespaceFrom(s, p + |alias| + 2)
  }

  /** Group 1 of a match at `p`: everything after `alias.` up to the next whitespace. */
  function InvocationGroup(s: string, alias: string, p: nat): string
    requires InvocationAt(s, alias, p)
  {
    s[p + |alias| + 2..NextWhitespace(s, p + |alias| + 2)]
  }

  /** The match among positions below `bound` that the greedy prefix prefers: the last one. */
  function FindBefore(s: string, alias: string, bound: nat): (r: Option<string>)
    requires bound <= |s|
    ensures r.Some? <==> exists p: nat :: p < bound && InvocationAt(s, alias, p)
    ensures r.Some? ==> exists p: nat :: p < bound && InvocationAt(s, alias, p) && r.value == InvocationGroup(s, alias, p)
                                 && forall q: nat :: p < q < bound ==> !InvocationAt(s, alias, q)
    decreases bound
  {
    if bound == 0 then None
    else if InvocationAt(s, alias, bound - 1) then Some(InvocationGroup(s, alias, bound - 1))
    else FindBefore(s, alias, bound - 1)
  }

  /** Group 1 of `find()`, or `None` when the pattern does not match. */
  function FindAliasInvocation(expression: string, alias: string): (r: Option<string>)
    ensures r.Some? <==> exists p: nat :: p < |expression| && InvocationAt(expression, alias, p)
    ensures r.Some? ==> exists p: nat :: p < |expression| && InvocationAt(expression, alias, p)
                                 && r.value == InvocationGroup(expression, alias, p)
  {
    FindBefore(expression, alias, |expression|)
  }

  /** The group of a match at `p` is a whitespace-free field path; `alias.` and the group stand
      together right after the whitespace at `p`, and whitespace follows them. */
  lemma InvocationGroupShape(s: string, alias: string, p: nat)
    requires InvocationAt(s, alias, p)
    ensures var field := InvocationGroup(s, alias, p);
      && (forall i :: 0 <= i < |field| ==> !IsWhitespace(field[i]))
      && OccursAt(s, alias + "." + field, p + 1)
      && p + 1 + |alias + "." + field| < |s|
      && IsWhitespace(s[p + 1 + |alias + "." + field|])
  {
    var g := p + |alias| + 2;
    var k := NextWhitespace(s, g);
    var field := s[g..k];
    assert field == InvocationGroup(s, alias, p);
    assert s[p + 1..g] == alias + ".";
    assert s[p + 1..k] == s[p + 1..g] + s[g..k];
  }

  /** A found invocation is a whitespace-free field path, and `alias.field` occurs in the
      expression. */
  lemma AliasInvocationShape(expression: string, alias: string)
    requires FindAliasInvocation(expression, alias).Some?
    ensures var field := FindAliasInvocation(expression, alias).value;
      && (forall i :: 0 <= i < |field| ==> !IsWhitespace(field[i]))
      && Contains(expression, alias + "." + field)
  {
    var field := FindAliasInvocation(expression, alias).value;
    var p: nat :| p < |expression| && InvocationAt(expression, alias, p)
             && field == InvocationGroup(expression, alias, p);
    InvocationGroupShape(expression, alias, p);
    assert OccursAt(expression, alias + "." + field, p + 1);
  }

  // ---------------------------------------------------------------------------------------------
  // One conversion: `replaceLateralViews`.

  /** The walk's state: the join heap, the current join set, the dependent table join and the set of
      lateral views waiting to be converted. */
  datatype Consolidation = Consolidation(
    nodes: seq<Join>,
    joins: seq<JoinId>,
    dependent: Option<JoinId>,
    pending: seq<JoinId>)

  ghost predicate StateOK(st: Consolidation, rank: JoinId -> int) {
    && Injective(rank)
    && Sorted(st.joins, rank) && Sorted(st.pending, rank)
    && (forall k :: 0 <= k < |st.joins| ==> st.joins[k] < |st.nodes|)
    && (forall k :: 0 <= k < |st.pending| ==> st.pending[k] < |st.nodes|)
    && (st.dependent.Some? ==> st.dependent.value < |st.nodes|)
  }

  /** The expressions of the given joins, in order. */
  function Expressions(nodes: seq<Join>, ids: seq<JoinId>): (r: seq<string>)
    requires forall k :: 0 <= k < |ids| ==> ids[k] < |nodes|
    ensures |r| == |ids| && forall k :: 0 <= k < |ids| ==> r[k] == nodes[ids[k]].expression
    decreases |ids|
  {
    if ids == [] then [] else [nodes[ids[0]].expression] + Expressions(nodes, ids[1..])
  }

  /** The SQL text of the inline query that replaces the lateral views. */
  function InlineQueryExpression(finalAlias: string, invocation: string, table: string,
                                 viewExpressions: seq<string>, newAlias: string): string
  {
    "INNER JOIN (SELECT id, " + finalAlias + "." + invocation + " FROM " + table + " "
      + JoinWith(" ", viewExpressions)
      + ") " + newAlias + " ON " + table + ".id = " + newAlias + ".id"
  }

  /** The joins of `s` not in `removed`, order kept. */
  function Without(s: seq<JoinId>, removed: seq<JoinId>): (r: seq<JoinId>)
    ensures forall y :: y in r <==> y in s && y !in removed
    decreases |s|
  {
    if s == [] then []
    else
      var tail := Without(s[1..], removed);
      if s[0] in removed then tail else [s[0]] + tail
  }

  /** Keeping some joins of a sorted set keeps it sorted. */
  lemma {:induction false} WithoutSorted(s: seq<JoinId>, removed: seq<JoinId>, rank: JoinId -> int)
    requires Sorted(s, rank)
    ensures Sorted(Without(s, removed), rank)
    decreases |s|
  {
    if s != [] {
      WithoutSorted(s[1..], removed, rank);
      var tail := Without(s[1..], removed);
      assert forall y :: y in tail ==> y in s[1..];
      assert forall y :: y in s[1..] ==> rank(s[0]) < rank(y);
    }
  }

  /** The state once the pending views are converted, given the field path the dependent join reads
      through the greatest view's alias and the least view's table-generating expression. */
  function Converted(st: Consolidation, rank: JoinId -> int, invocation: string, udtf: string): (r: Consolidation)
    requires StateOK(st, rank) && st.dependent.Some? && st.pending != []
    ensures StateOK(r, rank) && r.pending == [] && r.dependent == st.dependent
    ensures |r.nodes| == |st.nodes| + 1
  {
    var lastView := st.nodes[st.pending[|st.pending| - 1]];
    var firstView := st.nodes[st.pending[0]];
    var d := st.dependent.value;
    var dependentJoin := st.nodes[d];
    var finalAlias := lastView.tableAlias;
    var newAlias := finalAlias + PathToUpperCamelCase(TokenizePath(invocation));
    TokenizePathShape(udtf);
    var table := TokenizePath(udtf)[0];
    var n := |st.nodes|;
    var inlineQuery := Join(
      InlineQueryExpression(finalAlias, invocation, table, Expressions(st.nodes, st.pending), newAlias),
      lastView.rootExpression, InlineQuery, newAlias, None, firstView.dependsUpon);
    var rewritten := dependentJoin.(
      dependsUpon := Some(n),
      expression := ReplaceAll(dependentJoin.expression, finalAlias + "." + invocation,
                               newAlias + "." + invocation));
    var nodes' := st.nodes[d := rewritten] + [inlineQuery];
    WithoutSorted(st.joins, st.pending, rank);
    var joins' := Insert(Without(st.joins, st.pending), n, rank);
    forall k | 0 <= k < |joins'| ensures joins'[k] < n + 1 {
      assert joins'[k] in joins';
    }
    Consolidation(nodes', joins', st.dependent, [])
  }

  /** `replaceLateralViews(joins, dependentTableJoin, lateralViewsToConvert)`: fails exactly when
      there is nothing to convert, the dependent join does not read a field through the greatest
      view's alias, or the least view has no table-generating expression. */
  function ReplaceSpec(st: Consolidation, rank: JoinId -> int): (r: Result<Consolidation, ConsolidationError>)
    requires StateOK(st, rank) && st.dependent.Some?
    ensures r.Failure? <==>
      || st.pending == []
      || FindAliasInvocation(st.nodes[st.dependent.value].expression,
                             st.nodes[st.pending[|st.pending| - 1]].tableAlias).None?
      || st.nodes[st.pending[0]].udtfExpression.None?
    ensures r.Success? ==> StateOK(r.value, rank) && r.value.pending == [] && r.value.dependent == st.dependent
    ensures r.Success? ==> |r.value.nodes| == |st.nodes| + 1
  {
    if st.pending == [] then Failure(EmptyPendingSet)
    else
      var lastView := st.nodes[st.pending[|st.pending| - 1]];
      var firstView := st.nodes[st.pending[0]];
      match FindAliasInvocation(st.nodes[st.dependent.value].expression, lastView.tableAlias)
      case None => Failure(NoAliasInvocation)
      case Some(invocation) =>
        match firstView.udtfExpression
        case None => Failure(MissingUdtfExpression)
        case Some(udtf) => Success(Converted(st, rank, invocation, udtf))
  }

  /** A conversion adds one inline-query join, changes no existing join but the dependent one, and
      replaces the converted views in the join set by the new join. */
  lemma ReplaceShape(st: Consolidation, rank: JoinId -> int)
    requires StateOK(st, rank) && st.dependent.Some?
    requires ReplaceSpec(st, rank).Success?
    ensures var st' := ReplaceSpec(st, rank).value;
      var n := |st.nodes|;
      && st'.nodes[n].joinType == InlineQuery
      && (forall i :: 0 <= i < n && i != st.dependent.value ==> st'.nodes[i] == st.nodes[i])
      && (forall x :: x in st'.joins <==> (x in st.joins && x !in st.pending) || x == n)
  {
  }

  /** After a conversion the dependent table join depends on the new inline query; that join depends
      on what the least view depended on, keeps the greatest view's root expression and is aliased by
      the greatest view's alias extended with the camel-cased field path, and the dependent join's
      expression now names the field through the new alias. */
  lemma ReplaceRewiresDependent(st: Consolidation, rank: JoinId -> int)
    requires StateOK(st, rank) && st.dependent.Some?
    requires ReplaceSpec(st, rank).Success?
    ensures var st' := ReplaceSpec(st, rank).value;
      var n := |st.nodes|;
      var d := st.dependent.value;
      var lastView := st.nodes[st.pending[|st.pending| - 1]];
      var firstView := st.nodes[st.pending[0]];
      var field := FindAliasInvocation(st.nodes[d].expression, lastView.tableAlias).value;
      var newAlias := lastView.tableAlias + PathToUpperCamelCase(TokenizePath(field));
      && st'.nodes[d].dependsUpon == Some(n)
      && st'.nodes[d].joinType == st.nodes[d].joinType && st'.nodes[d].tableAlias == st.nodes[d].tableAlias
      && st'.nodes[n].dependsUpon == firstView.dependsUpon
      && st'.nodes[n].rootExpression == lastView.rootExpression
      && st'.nodes[n].tableAlias == newAlias
      && StartsWith(newAlias, lastView.tableAlias)
      && Contains(st'.nodes[d].expression, newAlias + "." + field)
  {
    var d := st.dependent.value;
    var lastView := st.nodes[st.pending[|st.pending| - 1]];
    var field := FindAliasInvocation(st.nodes[d].expression, lastView.tableAlias).value;
    var newAlias := lastView.tableAlias + PathToUpperCamelCase(TokenizePath(field));
    AliasInvocationShape(st.nodes[d].expression, lastView.tableAlias);
    ReplaceAllIntroduces(st.nodes[d].expression, lastView.tableAlias + "." + field, newAlias + "." + field);
    assert newAlias[..|lastView.tableAlias|] == lastView.tableAlias;
  }

  // ---------------------------------------------------------------------------------------------
  // The walk: `convertUpstreamLateralViewsToInlineQueries`.

  /** The rest of the walk, given the joins the cursor has still to visit. */
  function WalkSpec(st: Consolidation, path: seq<JoinId>, rank: JoinId -> int): Result<Consolidation, ConsolidationError>
    requires StateOK(st, rank) && (forall k :: 0 <= k < |path| ==> path[k] < |st.nodes|)
    requires st.pending != [] ==> st.dependent.Some?
    decreases |path|
  {
    if path == [] then
      if st.pending == [] then Success(st) else ReplaceSpec(st, rank)
    else
      var cursor := path[0];
      var kind := st.nodes[cursor].joinType;
      if kind == TableJoin && st.dependent.None? then
        WalkSpec(st.(dependent := Some(cursor)), path[1..], rank)
      else if kind == TableJoin then
        match ReplaceSpec(st, rank)
        case Failure(e) => Failure(e)
        case Success(st') => WalkSpec(st', path[1..], rank)
      else if kind == LateralView && st.dependent.Some? then
        EntriesBelow(Insert(st.pending, cursor, rank), |st.nodes|);
        WalkSpec(st.(pending := Insert(st.pending, cursor, rank)), path[1..], rank)
      else
        WalkSpec(st, path[1..], rank)
  }

  /** The consolidated heap and join set: unchanged for an empty set, otherwise the walk along the
      chain from the greatest join. */
  ghost function Consolidate(nodes: seq<Join>, level: seq<nat>, joins: seq<JoinId>, rank: JoinId -> int)
    : Result<Consolidation, ConsolidationError>
    requires Ranked(nodes, level) && Injective(rank) && Sorted(joins, rank)
    requires forall k :: 0 <= k < |joins| ==> joins[k] < |nodes|
  {
    var start := Consolidation(nodes, joins, None, []);
    if joins == [] then Success(start)
    else WalkSpec(start, Chain(nodes, level, joins[|joins| - 1]), rank)
  }

  /** `x` is a lateral view that the walk along `path` gathers: one met once a table join has been
      recorded (`armed`). */
  ghost predicate Swept(nodes: seq<Join>, path: seq<JoinId>, armed: bool, x: JoinId)
    requires forall k :: 0 <= k < |path| ==> path[k] < |nodes|
    decreases |path|
  {
    && path != []
    && ((armed && path[0] == x && nodes[x].joinType == LateralView)
        || Swept(nodes, path[1..], armed || nodes[path[0]].joinType == TableJoin, x))
  }

  /** The first table join on `path`. */
  ghost function FirstTableJoin(nodes: seq<Join>, path: seq<JoinId>): Option<JoinId>
    requires forall k :: 0 <= k < |path| ==> path[k] < |nodes|
    decreases |path|
  {
    if path == [] then None
    else if nodes[path[0]].joinType == TableJoin then Some(path[0])
    else FirstTableJoin(nodes, path[1..])
  }

  /** Whether a join is gathered only depends on the joins on the path. */
  lemma {:induction false} SweptFrame(nodes: seq<Join>, nodes': seq<Join>, path: seq<JoinId>, armed: bool, x: JoinId)
    requires forall k :: 0 <= k < |path| ==> path[k] < |nodes| && path[k] < |nodes'|
    requires forall k :: 0 <= k < |path| ==> nodes'[path[k]] == nodes[path[k]]
    ensures Swept(nodes', path, armed, x) == Swept(nodes, path, armed, x)
    decreases |path|
  {
    if path != [] {
      SweptFrame(nodes, nodes', path[1..], armed || nodes[path[0]].joinType == TableJoin, x);
    }
  }

  /** Nothing on `path` is gathered when it is not. */
  lemma {:induction false} SweptOnPath(nodes: seq<Join>, path: seq<JoinId>, armed: bool, x: JoinId)
    requires forall k :: 0 <= k < |path| ==> path[k] < |nodes|
    requires x !in path
    ensures !Swept(nodes, path, armed, x)
    decreases |path|
  {
    if path != [] {
      SweptOnPath(nodes, path[1..], armed || nodes[path[0]].joinType == TableJoin, x);
    }
  }

  /** What a successful walk leaves behind, relative to the state it started from. */
  ghost predicate WalkOutcome(st: Consolidation, path: seq<JoinId>, st': Consolidation)
    requires forall k :: 0 <= k < |path| ==> path[k] < |st.nodes|
  {
    && st'.pending == []
    && |st'.nodes| >= |st.nodes|
    && st'.dependent == (if st.dependent.Some? then st.dependent else FirstTableJoin(st.nodes, path))
    && (forall i :: 0 <= i < |st.nodes| && Some(i) != st'.dependent ==> st'.nodes[i] == st.nodes[i])
    && (forall i :: |st.nodes| <= i < |st'.nodes| ==> st'.nodes[i].joinType == InlineQuery && i in st'.joins)
    && (forall x :: x < |st.nodes| ==>
          (x in st'.joins <==> x in st.joins && x !in st.pending && !Swept(st.nodes, path, st.dependent.Some?, x)))
    && (forall k :: 0 <= k < |st'.joins| ==> st'.joins[k] < |st'.nodes|)
  }

  /** The conditions under which the walk along `path` from `st` is examined: the joins still to be
      visited are distinct, and neither the dependent join nor a pending view is among them. */
  ghost predicate WalkPre(st: Consolidation, path: seq<JoinId>, rank: JoinId -> int) {
    && StateOK(st, rank) && (forall k :: 0 <= k < |path| ==> path[k] < |st.nodes|)
    && (st.pending != [] ==> st.dependent.Some?)
    && (forall i, j :: 0 <= i < j < |path| ==> path[i] != path[j])
    && (st.dependent.Some? ==> st.dependent.value !in path)
    && (forall x :: x in st.pending ==> x !in path)
  }

  /** A successful walk removes exactly the gathered lateral views (and those already pending), adds
      only inline queries, and changes no existing join but the dependent table join. */
  lemma {:induction false} WalkShape(st: Consolidation, path: seq<JoinId>, rank: JoinId -> int)
    requires WalkPre(st, path, rank)
    ensures WalkSpec(st, path, rank).Success? ==> WalkOutcome(st, path, WalkSpec(st, path, rank).value)
    decreases |path|, 1
  {
    if path == [] {
      if st.pending != [] && ReplaceSpec(st, rank).Success? {
        ReplaceShape(st, rank);
        ConversionOutcome(st, ReplaceSpec(st, rank).value);
      }
    } else {
      var kind := st.nodes[path[0]].joinType;
      if kind == TableJoin && st.dependent.None? {
        WalkRecordsDependent(st, path, rank);
      } else if kind == TableJoin {
        WalkConvertsAtTableJoin(st, path, rank);
      } else if kind == LateralView && st.dependent.Some? {
        WalkGathersView(st, path, rank);
      } else {
        WalkSkips(st, path, rank);
      }
    }
  }

  /** A conversion at the end of the walk. */
  lemma ConversionOutcome(st: Consolidation, st': Consolidation)
    requires st.dependent.Some?
    requires |st'.nodes| == |st.nodes| + 1 && st'.pending == [] && st'.dependent == st.dependent
    requires st'.nodes[|st.nodes|].joinType == InlineQuery
    requires forall i :: 0 <= i < |st.nodes| && i != st.dependent.value ==> st'.nodes[i] == st.nodes[i]
    requires forall x :: x in st'.joins <==> (x in st.joins && x !in st.pending) || x == |st.nodes|
    requires forall k :: 0 <= k < |st'.joins| ==> st'.joins[k] < |st'.nodes|
    ensures WalkOutcome(st, [], st')
  {
  }

  lemma {:induction false} WalkRecordsDependent(st: Consolidation, path: seq<JoinId>, rank: JoinId -> int)
    requires WalkPre(st, path, rank) && path != []
    requires st.nodes[path[0]].joinType == TableJoin && st.dependent.None?
    ensures WalkSpec(st, path, rank).Success? ==> WalkOutcome(st, path, WalkSpec(st, path, rank).value)
    decreases |path|, 0
  {
    var rest := path[1..];
    var st1 := st.(dependent := Some(path[0]));
    assert forall x :: x in rest ==> x in path && x != path[0];
    WalkShape(st1, rest, rank);
    forall x: JoinId | x < |st.nodes|
      ensures Swept(st.nodes, path, false, x) == Swept(st1.nodes, rest, true, x)
    {
    }
  }

  lemma {:induction false} WalkConvertsAtTableJoin(st: Consolidation, path: seq<JoinId>, rank: JoinId -> int)
    requires WalkPre(st, path, rank) && path != []
    requires st.nodes[path[0]].joinType == TableJoin && st.dependent.Some?
    ensures WalkSpec(st, path, rank).Success? ==> WalkOutcome(st, path, WalkSpec(st, path, rank).value)
    decreases |path|, 0
  {
    if ReplaceSpec(st, rank).Success? && WalkSpec(st, path, rank).Success? {
      var rest := path[1..];
      var st1 := ReplaceSpec(st, rank).value;
      var st' := WalkSpec(st, path, rank).value;
      assert st' == WalkSpec(st1, rest, rank).value;
      ReplaceShape(st, rank);
      assert forall x :: x in rest ==> x in path && x != path[0];
      assert WalkPre(st1, rest, rank);
      WalkShape(st1, rest, rank);
      ComposeAfterConversion(st, st1, st', path);
    }
  }

  /** A conversion at the table join heading `path`, followed by the rest of the walk. */
  lemma ComposeAfterConversion(st: Consolidation, st1: Consolidation, st': Consolidation, path: seq<JoinId>)
    requires path != [] && (forall k :: 0 <= k < |path| ==> path[k] < |st.nodes|)
    requires st.nodes[path[0]].joinType == TableJoin && st.dependent.Some? && st.dependent.value !in path
    requires st.dependent.value < |st.nodes|
    requires |st1.nodes| == |st.nodes| + 1 && st1.pending == [] && st1.dependent == st.dependent
    requires st1.nodes[|st.nodes|].joinType == InlineQuery
    requires forall i :: 0 <= i < |st.nodes| && i != st.dependent.value ==> st1.nodes[i] == st.nodes[i]
    requires forall x :: x in st1.joins <==> (x in st.joins && x !in st.pending) || x == |st.nodes|
    requires WalkOutcome(st1, path[1..], st')
    ensures WalkOutcome(st, path, st')
  {
    var rest := path[1..];
    var n := |st.nodes|;
    forall k | 0 <= k < |rest| ensures st1.nodes[rest[k]] == st.nodes[rest[k]] {
      assert rest[k] in path;
    }
    SweptOnPath(st1.nodes, rest, true, n);
    forall x: JoinId | x < n
      ensures x in st'.joins <==> x in st.joins && x !in st.pending && !Swept(st.nodes, path, true, x)
    {
      SweptFrame(st.nodes, st1.nodes, rest, true, x);
      assert Swept(st.nodes, path, true, x) == Swept(st.nodes, rest, true, x);
    }
    forall i | n <= i < |st'.nodes| ensures st'.nodes[i].joinType == InlineQuery && i in st'.joins {
      if i == n {
        assert st'.nodes[n] == st1.nodes[n];
      }
    }
    forall i | 0 <= i < n && Some(i) != st'.dependent ensures st'.nodes[i] == st.nodes[i] {
      assert st'.nodes[i] == st1.nodes[i];
    }
  }

  lemma {:induction false} WalkGathersView(st: Consolidation, path: seq<JoinId>, rank: JoinId -> int)
    requires WalkPre(st, path, rank) && path != []
    requires st.nodes[path[0]].joinType == LateralView && st.dependent.Some?
    ensures WalkSpec(st, path, rank).Success? ==> WalkOutcome(st, path, WalkSpec(st, path, rank).value)
    decreases |path|, 0
  {
    var rest := path[1..];
    var st1 := st.(pending := Insert(st.pending, path[0], rank));
    EntriesBelow(st1.pending, |st.nodes|);
    assert forall x :: x in rest ==> x in path && x != path[0];
    WalkShape(st1, rest, rank);
  }

  lemma {:induction false} WalkSkips(st: Consolidation, path: seq<JoinId>, rank: JoinId -> int)
    requires WalkPre(st, path, rank) && path != []
    requires st.nodes[path[0]].joinType != TableJoin
    requires st.nodes[path[0]].joinType != LateralView || st.dependent.None?
    ensures WalkSpec(st, path, rank).Success? ==> WalkOutcome(st, path, WalkSpec(st, path, rank).value)
    decreases |path|, 0
  {
    var rest := path[1..];
    assert forall x :: x in rest ==> x in path;
    WalkShape(st, rest, rank);
    forall x: JoinId | x < |st.nodes|
      ensures Swept(st.nodes, path, st.dependent.Some?, x) == Swept(st.nodes, rest, st.dependent.Some?, x)
    {
    }
  }

  /** The consolidated join set keeps every join except the lateral views gathered on the chain from
      the greatest join, adds inline queries only, and changes no existing join but the first table
      join on that chain. */
  lemma ConsolidateShape(nodes: seq<Join>, level: seq<nat>, joins: seq<JoinId>, rank: JoinId -> int)
    requires Ranked(nodes, level) && Injective(rank) && Sorted(joins, rank)
    requires forall k :: 0 <= k < |joins| ==> joins[k] < |nodes|
    requires joins != []
    requires Consolidate(nodes, level, joins, rank).Success?
    ensures WalkOutcome(Consolidation(nodes, joins, None, []), Chain(nodes, level, joins[|joins| - 1]),
                  Consolidate(nodes, level, joins, rank).value)
  {
    var last := joins[|joins| - 1];
    ChainShape(nodes, level, last);
    var path := Chain(nodes, level, last);
    forall i, j | 0 <= i < j < |path| ensures path[i] != path[j] {
      assert level[path[j]] < level[path[i]];
    }
    assert WalkPre(Consolidation(nodes, joins, None, []), path, rank);
    WalkShape(Consolidation(nodes, joins, None, []), path, rank);
  }

  /** A walk that meets no table join changes nothing. */
  lemma {:induction false} WalkWithoutTableJoin(st: Consolidation, path: seq<JoinId>, rank: JoinId -> int)
    requires StateOK(st, rank) && (forall k :: 0 <= k < |path| ==> path[k] < |st.nodes|)
    requires st.dependent.None? && st.pending == []
    requires FirstTableJoin(st.nodes, path).None?
    ensures WalkSpec(st, path, rank) == Success(st)
    decreases |path|
  {
    if path != [] {
      WalkWithoutTableJoin(st, path[1..], rank);
    }
  }

  /** When no table join is on the chain from the greatest join, consolidation changes nothing. */
  lemma ConsolidateWithoutTableJoin(nodes: seq<Join>, level: seq<nat>, joins: seq<JoinId>, rank: JoinId -> int)
    requires Ranked(nodes, level) && Injective(rank) && Sorted(joins, rank)
    requires forall k :: 0 <= k < |joins| ==> joins[k] < |nodes|
    requires joins != [] ==> FirstTableJoin(nodes, Chain(nodes, level, joins[|joins| - 1])).None?
    ensures Consolidate(nodes, level, joins, rank) == Success(Consolidation(nodes, joins, None, []))
  {
    if joins != [] {
      WalkWithoutTableJoin(Consolidation(nodes, joins, None, []), Chain(nodes, level, joins[|joins| - 1]), rank);
    }
  }

  /** A table join that depends directly on another table join: the walk records the first as the
      dependent join and, at the second, converts an empty set of views, which fails (`last()` on an
      empty set). */
  lemma AdjacentTableJoinsFail(nodes: seq<Join>, level: seq<nat>, joins: seq<JoinId>, rank: JoinId -> int,
                               t2: JoinId, t1: JoinId)
    requires Ranked(nodes, level) && Injective(rank) && Sorted(joins, rank)
    requires forall k :: 0 <= k < |joins| ==> joins[k] < |nodes|
    requires joins != [] && joins[|joins| - 1] == t2
    requires nodes[t2].joinType == TableJoin && nodes[t2].dependsUpon == Some(t1)
    requires nodes[t1].joinType == TableJoin
    ensures Consolidate(nodes, level, joins, rank) == Failure(EmptyPendingSet)
  {
    var rest := Chain(nodes, level, t1);
    assert Chain(nodes, level, t2) == [t2] + rest;
    var st := Consolidation(nodes, joins, None, []);
    assert ([t2] + rest)[1..] == rest;
    assert WalkSpec(st, [t2] + rest, rank) == WalkSpec(st.(dependent := Some(t2)), rest, rank);
  }

  /** A table join that reads through two chained lateral views: the views are folded into one inline
      query that depends on nothing, and the table join depends on that query instead. */
  lemma TwoViewsFeedingTableJoin(nodes: seq<Join>, level: seq<nat>, joins: seq<JoinId>, rank: JoinId -> int,
                                 t: JoinId, v2: JoinId, v1: JoinId)
    requires Ranked(nodes, level) && Injective(rank) && Sorted(joins, rank)
    requires forall k :: 0 <= k < |joins| ==> joins[k] < |nodes|
    requires joins != [] && joins[|joins| - 1] == t
    requires nodes[t].joinType == TableJoin && nodes[t].dependsUpon == Some(v2)
    requires nodes[v2].joinType == LateralView && nodes[v2].dependsUpon == Some(v1)
    requires nodes[v1].joinType == LateralView && nodes[v1].dependsUpon.None?
    requires rank(v1) < rank(v2)
    ensures var r := Consolidate(nodes, level, joins, rank);
      r.Success? <==> FindAliasInvocation(nodes[t].expression, nodes[v2].tableAlias).Some?
                      && nodes[v1].udtfExpression.Some?
    ensures var r := Consolidate(nodes, level, joins, rank);
      r.Success? ==>
        var n := |nodes|;
        && |r.value.nodes| == n + 1
        && r.value.nodes[t].dependsUpon == Some(n)
        && r.value.nodes[n].joinType == InlineQuery && r.value.nodes[n].dependsUpon.None?
        && r.value.nodes[n].rootExpression == nodes[v2].rootExpression
        && (forall i :: 0 <= i < n && i != t ==> r.value.nodes[i] == nodes[i])
        && (forall x :: x in r.value.joins <==> (x in joins && x != v1 && x != v2) || x == n)
  {
    assert Chain(nodes, level, v1) == [v1];
    assert Chain(nodes, level, v2) == [v2, v1];
    assert Chain(nodes, level, t) == [t, v2, v1];
    var st3 := Consolidation(nodes, joins, Some(t), [v1, v2]);
    TwoViewsWalk(Consolidation(nodes, joins, None, []), rank, t, v2, v1);
    assert Consolidate(nodes, level, joins, rank) == ReplaceSpec(st3, rank);
    if ReplaceSpec(st3, rank).Success? {
      ReplaceShape(st3, rank);
      ReplaceRewiresDependent(st3, rank);
    }
  }

  lemma TwoViewsWalk(st: Consolidation, rank: JoinId -> int, t: JoinId, v2: JoinId, v1: JoinId)
    requires StateOK(st, rank) && st.dependent.None? && st.pending == []
    requires t < |st.nodes| && v2 < |st.nodes| && v1 < |st.nodes|
    requires st.nodes[t].joinType == TableJoin
    requires st.nodes[v2].joinType == LateralView && st.nodes[v1].joinType == LateralView
    requires rank(v1) < rank(v2)
    ensures WalkSpec(st, [t, v2, v1], rank) == ReplaceSpec(st.(dependent := Some(t), pending := [v1, v2]), rank)
  {
    var st1 := st.(dependent := Some(t));
    var st2 := st1.(pending := [v2]);
    assert Insert([v2], v1, rank) == [v1, v2];
    assert [t, v2, v1][1..] == [v2, v1] && [v2, v1][1..] == [v1];
    assert WalkSpec(st2, [v1], rank) == WalkSpec(st2.(pending := [v1, v2]), [], rank);
    assert WalkSpec(st1, [v2, v1], rank) == WalkSpec(st2, [v1], rank);
  }
}
