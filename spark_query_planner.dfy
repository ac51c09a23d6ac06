/** `SparkQueryPlanner`: validates an aggregate query, parses its aggregation and grouping
    expressions, gathers what the parse results need into a `QueryPlan`, and consolidates the joins
    by converting upstream lateral views into inline queries.

    The expression parser is not part of this model: it is the function `parse` the planner is given,
    and the joins its results mention are already in the `JoinHeap`. */
module SparkQueryPlanner {
  import opened Wrappers
  import opened Strings
  import opened Joins
  import opened LateralViews

  /** The kind of element a parsed expression resolves to. */
  datatype ElementType = Primitive | Complex

  /** What parsing one expression yields: its SQL expression, result type and type code, the base
      tables it reads, and the joins it needs. */
  datatype ParseResult = ParseResult(
    sqlExpression: string,
    resultType: ElementType,
    resultTypeCode: string,
    fromTable: set<string>,
    joins: seq<JoinId>)

  /** An aggregation or grouping component; its expression is absent when the component has none. */
  datatype Component = Component(expression: Option<string>)

  /** The incoming `AggregateQuery`; either list may be absent. */
  datatype AggregateQuery = AggregateQuery(aggregation: Option<seq<Component>>, grouping: Option<seq<Component>>)

  datatype PlanError =
    | InvalidRequest(message: string)
      /** The grouping tables no aggregation reads (the message lists them in hash order). */
    | UnreferencedGroupingTables(tables: set<string>)
    | ConsolidationFailed(error: ConsolidationError)

  /** A planner holds the parse results of the query's aggregations and groupings. */
  datatype Planner = Planner(aggregationParseResults: seq<ParseResult>, groupingParseResults: seq<ParseResult>)

  datatype QueryPlan = QueryPlan(
    aggregations: seq<string>,
    aggregationTypes: seq<string>,
    groupings: seq<string>,
    groupingTypes: seq<string>,
    fromTables: set<string>,
    joins: seq<JoinId>)

  // ---------------------------------------------------------------------------------------------
  // The constructor and the parsing of components.

  /** What one aggregation component parses to. */
  function AggregationOutcome(c: Component, parse: string -> Result<ParseResult, PlanError>): Result<ParseResult, PlanError> {
    match c.expression
    case None => Failure(InvalidRequest("Aggregation component must have expression"))
    case Some(e) => parse(e)
  }

  /** What one grouping component parses to: only a primitive result is accepted. */
  function GroupingOutcome(c: Component, parse: string -> Result<ParseResult, PlanError>): Result<ParseResult, PlanError> {
    match c.expression
    case None => Failure(InvalidRequest("Grouping component must have expression"))
    case Some(e) =>
      match parse(e)
      case Failure(err) => Failure(err)
      case Success(result) =>
        if result.resultType != Primitive then
          Failure(InvalidRequest("Grouping expression is not of primitive type: " + e + " ("
                                 + result.resultTypeCode + ")"))
        else Success(result)
  }

  /** `parseAggregation`: one parse result per aggregation, in order. */
  function ParseAggregation(aggregations: seq<Component>, parse: string -> Result<ParseResult, PlanError>)
    : (r: Result<seq<ParseResult>, PlanError>)
    ensures r.Success? <==> forall k :: 0 <= k < |aggregations| ==>
                              aggregations[k].expression.Some? && parse(aggregations[k].expression.value).Success?
    ensures r.Success? ==> |r.value| == |aggregations| && forall k :: 0 <= k < |aggregations| ==>
                              parse(aggregations[k].expression.value) == Success(r.value[k])
    ensures r.Failure? ==> exists k :: && 0 <= k < |aggregations| && AggregationOutcome(aggregations[k], parse) == Failure(r.error)
                                       && forall j :: 0 <= j < k ==> AggregationOutcome(aggregations[j], parse).Success?
  {
    var outcome := c => AggregationOutcome(c, parse);
    var r := MapAll(aggregations, outcome);
    assert forall k :: 0 <= k < |aggregations| ==> outcome(aggregations[k]) == AggregationOutcome(aggregations[k], parse);
    r
  }

  /** `parseGroupings`: no groupings give no parse results; every accepted grouping is primitive and
      is what the parser made of its expression, in order. */
  function ParseGroupings(groupings: Option<seq<Component>>, parse: string -> Result<ParseResult, PlanError>)
    : (r: Result<seq<ParseResult>, PlanError>)
    ensures groupings.None? ==> r == Success([])
    ensures groupings.Some? && r.Success? ==>
      && |r.value| == |groupings.value|
      && forall k :: 0 <= k < |groupings.value| ==>
           && r.value[k].resultType == Primitive
           && groupings.value[k].expression.Some?
           && parse(groupings.value[k].expression.value) == Success(r.value[k])
    ensures groupings.Some? && r.Failure? ==>
      exists k :: && 0 <= k < |groupings.value| && GroupingOutcome(groupings.value[k], parse) == Failure(r.error)
                  && forall j :: 0 <= j < k ==> GroupingOutcome(groupings.value[j], parse).Success?
  {
    match groupings
    case None => Success([])
    case Some(gs) =>
      var outcome := c => GroupingOutcome(c, parse);
      var r := MapAll(gs, outcome);
      assert forall k :: 0 <= k < |gs| ==> outcome(gs[k]) == GroupingOutcome(gs[k], parse);
      r
  }

  /** A grouping of non-primitive type is refused with a message naming its expression and type code. */
  lemma GroupingRejectsComplexType(c: Component, parse: string -> Result<ParseResult, PlanError>)
    requires c.expression.Some? && parse(c.expression.value).Success?
    requires parse(c.expression.value).value.resultType != Primitive
    ensures GroupingOutcome(c, parse).Failure?
    ensures var message := GroupingOutcome(c, parse).error.message;
      && StartsWith(message, "Grouping expression is not of primitive type: " + c.expression.value)
      && Contains(message, " (" + parse(c.expression.value).value.resultTypeCode + ")")
  {
    var e := c.expression.value;
    var prefix := "Grouping expression is not of primitive type: " + e;
    var suffix := " (" + parse(e).value.resultTypeCode + ")";
    var message := GroupingOutcome(c, parse).error.message;
    assert message == prefix + suffix;
    assert message[..|prefix|] == prefix;
    assert OccursAt(message, suffix, |prefix|);
  }

  /** The `SparkQueryPlanner` constructor: an absent or empty aggregation list is refused before
      anything is parsed; otherwise the aggregations, then the groupings, are parsed. */
  function NewPlanner(query: AggregateQuery, parse: string -> Result<ParseResult, PlanError>)
    : (r: Result<Planner, PlanError>)
    ensures (query.aggregation.None? || query.aggregation.value == []) ==>
              r == Failure(InvalidRequest("Missing aggregation component within query"))
    ensures r.Success? <==> && query.aggregation.Some? && query.aggregation.value != []
                            && ParseAggregation(query.aggregation.value, parse).Success?
                            && ParseGroupings(query.grouping, parse).Success?
    ensures r.Success? ==> r.value.aggregationParseResults == ParseAggregation(query.aggregation.value, parse).value
                           && r.value.groupingParseResults == ParseGroupings(query.grouping, parse).value
  {
    if query.aggregation.None? || query.aggregation.value == [] then
      Failure(InvalidRequest("Missing aggregation component within query"))
    else
      match ParseAggregation(query.aggregation.value, parse)
      case Failure(e) => Failure(e)
      case Success(aggregations) =>
        match ParseGroupings(query.grouping, parse)
        case Failure(e) => Failure(e)
        case Success(groupings) => Success(Planner(aggregations, groupings))
  }

  // ---------------------------------------------------------------------------------------------
  // `buildQueryPlan`.

  /** The union of the base tables of the given parse results. */
  function TablesOf(results: seq<ParseResult>): (tables: set<string>)
    ensures forall t :: t in tables <==> exists k :: 0 <= k < |results| && t in results[k].fromTable
    decreases |results|
  {
    if results == [] then {}
    else
      var rest := TablesOf(results[1..]);
      assert forall k :: 1 <= k < |results| ==> results[k] == results[1..][k - 1];
      results[0].fromTable + rest
  }

  /** Adding each parse result's joins in turn to a sorted set (`joins.addAll(parseResult.getJoins())`). */
  function MergeJoins(s: seq<JoinId>, results: seq<ParseResult>, rank: JoinId -> int): (r: seq<JoinId>)
    requires Injective(rank) && Sorted(s, rank)
    ensures Sorted(r, rank)
    ensures forall x :: x in r <==> x in s || exists k :: 0 <= k < |results| && x in results[k].joins
    decreases |results|
  {
    if results == [] then s
    else
      var r := MergeJoins(InsertEach(s, results[0].joins, rank), results[1..], rank);
      assert forall k :: 1 <= k < |results| ==> results[k] == results[1..][k - 1];
      r
  }

  /** The joins of all parse results, as one sorted set. */
  function AllJoins(planner: Planner, rank: JoinId -> int): (r: seq<JoinId>)
    requires Injective(rank)
    ensures Sorted(r, rank)
    ensures forall x :: x in r <==>
      || (exists k :: 0 <= k < |planner.aggregationParseResults| && x in planner.aggregationParseResults[k].joins)
      || (exists k :: 0 <= k < |planner.groupingParseResults| && x in planner.groupingParseResults[k].joins)
  {
    MergeJoins(MergeJoins([], planner.aggregationParseResults, rank), planner.groupingParseResults, rank)
  }

  /** The base tables of the parse results, gathered into one set. */
  method CollectFromTables(results: seq<ParseResult>) returns (tables: set<string>)
    ensures tables == TablesOf(results)
  {
    tables := {};
    var i := 0;
    while i < |results|
      invariant 0 <= i <= |results|
      invariant forall t :: t in tables <==> exists k :: 0 <= k < i && t in results[k].fromTable
    {
      tables := tables + results[i].fromTable;
      i := i + 1;
    }
  }

  /** The joins of the parse results, added one result at a time to a set. */
  method AddJoinsOf(joins: JoinSet, results: seq<ParseResult>)
    requires joins.Valid()
    modifies joins
    ensures joins.Valid()
    ensures joins.elements == MergeJoins(old(joins.elements), results, joins.rank)
  {
    var i := 0;
    while i < |results|
      invariant 0 <= i <= |results| && joins.Valid()
      invariant MergeJoins(joins.elements, results[i..], joins.rank) == MergeJoins(old(joins.elements), results, joins.rank)
    {
      assert results[i..][1..] == results[i + 1..];
      joins.AddAll(results[i].joins);
      i := i + 1;
    }
  }

  /** `buildQueryPlan`: the expressions and type codes in order, the aggregation tables (once every
      grouping table is among them), and the consolidated union of all joins. */
  method BuildQueryPlan(planner: Planner, heap: JoinHeap, rank: JoinId -> int) returns (r: Result<QueryPlan, PlanError>)
    requires heap.Valid() && Injective(rank)
    requires forall k :: 0 <= k < |AllJoins(planner, rank)| ==> AllJoins(planner, rank)[k] < |heap.nodes|
    modifies heap
    ensures heap.Valid()
    ensures var aggregationTables := TablesOf(planner.aggregationParseResults);
      var groupingTables := TablesOf(planner.groupingParseResults);
      var spec := Consolidate(old(heap.nodes), old(heap.level), AllJoins(planner, rank), rank);
      && (!(groupingTables <= aggregationTables) <==> r == Failure(UnreferencedGroupingTables(groupingTables - aggregationTables)))
      && (groupingTables <= aggregationTables ==>
            && (r.Failure? <==> spec.Failure?)
            && (spec.Failure? ==> r.error == ConsolidationFailed(spec.error)))
      && (r.Success? ==> && spec.Success?
                         && r.value.fromTables == aggregationTables
                         && r.value.joins == spec.value.joins && heap.nodes == spec.value.nodes)
    ensures r.Success? ==>
      var aggregations := planner.aggregationParseResults;
      var groupings := planner.groupingParseResults;
      && |r.value.aggregations| == |aggregations| == |r.value.aggregationTypes|
      && |r.value.groupings| == |groupings| == |r.value.groupingTypes|
      && (forall k :: 0 <= k < |aggregations| ==> r.value.aggregations[k] == aggregations[k].sqlExpression
                                                  && r.value.aggregationTypes[k] == aggregations[k].resultTypeCode)
      && (forall k :: 0 <= k < |groupings| ==> r.value.groupings[k] == groupings[k].sqlExpression
                                               && r.value.groupingTypes[k] == groupings[k].resultTypeCode)
  {
    var aggregationResults := planner.aggregationParseResults;
    var groupingResults := planner.groupingParseResults;
    var aggregations := seq(|aggregationResults|, k requires 0 <= k < |aggregationResults| => aggregationResults[k].sqlExpression);
    var aggregationTypes := seq(|aggregationResults|, k requires 0 <= k < |aggregationResults| => aggregationResults[k].resultTypeCode);
    var groupings := seq(|groupingResults|, k requires 0 <= k < |groupingResults| => groupingResults[k].sqlExpression);
    var groupingTypes := seq(|groupingResults|, k requires 0 <= k < |groupingResults| => groupingResults[k].resultTypeCode);

    var aggregationFromTables := CollectFromTables(aggregationResults);
    var groupingFromTables := CollectFromTables(groupingResults);
    if !(groupingFromTables <= aggregationFromTables) {
      return Failure(UnreferencedGroupingTables(groupingFromTables - aggregationFromTables));
    }

    var joins := new JoinSet(rank);
    AddJoinsOf(joins, aggregationResults);
    AddJoinsOf(joins, groupingResults);
    assert joins.elements == AllJoins(planner, rank);
    var converted := ConvertUpstreamLateralViewsToInlineQueries(heap, joins);
    if converted.Failure? {
      return Failure(ConsolidationFailed(converted.error));
    }
    return Success(QueryPlan(aggregations, aggregationTypes, groupings, groupingTypes, aggregationFromTables,
                             converted.value.elements));
  }

  // ---------------------------------------------------------------------------------------------
  // Join consolidation, in place on the heap of join objects.

  /** `convertUpstreamLateralViewsToInlineQueries(joins)`: walks from the greatest join along
      `dependsUpon`, converting the lateral views gathered behind each table join, and returns the
      resulting join set; it computes `Consolidate`. */
  method ConvertUpstreamLateralViewsToInlineQueries(heap: JoinHeap, joins: JoinSet)
    returns (r: Result<JoinSet, ConsolidationError>)
    requires heap.Valid() && joins.Valid()
    requires forall k :: 0 <= k < |joins.elements| ==> joins.elements[k] < |heap.nodes|
    modifies heap
    ensures heap.Valid()
    ensures var spec := Consolidate(old(heap.nodes), old(heap.level), joins.elements, joins.rank);
      && (r.Failure? <==> spec.Failure?)
      && (r.Failure? ==> r.error == spec.error)
      && (r.Success? ==> && r.value.Valid() && r.value.rank == joins.rank
                         && r.value.elements == spec.value.joins && heap.nodes == spec.value.nodes)
  {
    if joins.IsEmpty() {
      return Success(joins);
    }
    ghost var target := Consolidate(heap.nodes, heap.level, joins.elements, joins.rank);
    var cursor: Option<JoinId> := joins.Last();
    ghost var remaining := Chain(heap.nodes, heap.level, cursor.value);
    var dependentTableJoin: Option<JoinId> := None;
    var lateralViewsToConvert := new JoinSet(joins.rank);
    var current := joins;
    while cursor.Some? || !lateralViewsToConvert.IsEmpty()
      invariant heap.Valid() && current.Valid() && current.rank == joins.rank
      invariant fresh(lateralViewsToConvert) && lateralViewsToConvert != current
      invariant lateralViewsToConvert.Valid() && lateralViewsToConvert.rank == joins.rank
      invariant Walking(heap.level, Consolidation(heap.nodes, current.elements, dependentTableJoin,
                                                  lateralViewsToConvert.elements), cursor, remaining, joins.rank)
      invariant WalkSpec(Consolidation(heap.nodes, current.elements, dependentTableJoin,
                                       lateralViewsToConvert.elements), remaining, joins.rank) == target
      decreases |remaining|, |lateralViewsToConvert.elements|
    {
      ghost var st := Consolidation(heap.nodes, current.elements, dependentTableJoin, lateralViewsToConvert.elements);
      ghost var level0 := heap.level;
      if cursor.None? {
        var converted := ReplaceLateralViews(heap, current, dependentTableJoin.value, lateralViewsToConvert);
        if converted.Failure? {
          assert target == Failure(converted.error);
          return Failure(converted.error);
        }
        current := converted.value;
        StepAtEnd(level0, st, joins.rank, heap.level);
      } else {
        var c := cursor.value;
        if heap.nodes[c].joinType == TableJoin {
          if dependentTableJoin.None? {
            StepRecordsDependent(heap.level, st, c, remaining, joins.rank);
            dependentTableJoin := Some(c);
          } else {
            WalkConverts(st, remaining, joins.rank);
            var converted := ReplaceLateralViews(heap, current, dependentTableJoin.value, lateralViewsToConvert);
            if converted.Failure? {
              assert target == Failure(converted.error);
              return Failure(converted.error);
            }
            current := converted.value;
            ReplaceShape(st, joins.rank);
            StepConverts(level0, st, c, remaining, joins.rank, heap.level, ReplaceSpec(st, joins.rank).value);
          }
        } else if heap.nodes[c].joinType == LateralView && dependentTableJoin.Some? {
          StepGathersView(heap.level, st, c, remaining, joins.rank);
          lateralViewsToConvert.Add(c);
        } else {
          StepPasses(heap.level, st, c, remaining, joins.rank);
        }
        cursor := heap.nodes[c].dependsUpon;
        remaining := remaining[1..];
      }
    }
    return Success(current);
  }

  /** What holds of the walk between two iterations: the state is well formed, the cursor's chain is
      what remains to visit, and the dependent table join sits above the cursor and the pending views. */
  ghost predicate Walking(level: seq<nat>, st: Consolidation, cursor: Option<JoinId>, remaining: seq<JoinId>,
                          rank: JoinId -> int)
  {
    && Ranked(st.nodes, level) && StateOK(st, rank)
    && (st.pending != [] ==> st.dependent.Some?)
    && (cursor.None? ==> remaining == [])
    && (cursor.Some? ==> cursor.value < |st.nodes| && remaining == Chain(st.nodes, level, cursor.value))
    && (st.dependent.Some? ==>
          && (forall x :: x in st.pending ==> level[x] < level[st.dependent.value])
          && (cursor.Some? ==> level[cursor.value] < level[st.dependent.value]))
  }

  // One iteration of the walk, branch by branch: the state it leaves is again `Walking`, and the
  // rest of `WalkSpec` from there is the rest from before.

  lemma StepAtEnd(level: seq<nat>, st: Consolidation, rank: JoinId -> int, level': seq<nat>)
    requires Walking(level, st, None, [], rank) && st.pending != []
    requires ReplaceSpec(st, rank).Success?
    requires var st' := ReplaceSpec(st, rank).value;
      Ranked(st'.nodes, level') && |level'| == |level| + 1 && level'[..|level|] == level
    ensures var st' := ReplaceSpec(st, rank).value;
      Walking(level', st', None, [], rank) && WalkSpec(st', [], rank) == WalkSpec(st, [], rank)
  {
  }

  lemma StepRecordsDependent(level: seq<nat>, st: Consolidation, c: JoinId, remaining: seq<JoinId>, rank: JoinId -> int)
    requires Walking(level, st, Some(c), remaining, rank)
    requires st.nodes[c].joinType == TableJoin && st.dependent.None?
    ensures Walking(level, st.(dependent := Some(c)), st.nodes[c].dependsUpon, remaining[1..], rank)
    ensures WalkSpec(st.(dependent := Some(c)), remaining[1..], rank) == WalkSpec(st, remaining, rank)
  {
    ChainShape(st.nodes, level, c);
  }

  lemma StepConverts(level: seq<nat>, st: Consolidation, c: JoinId, remaining: seq<JoinId>, rank: JoinId -> int,
                     level': seq<nat>, st': Consolidation)
    requires Walking(level, st, Some(c), remaining, rank)
    requires st.dependent.Some?
    requires StateOK(st', rank) && st'.pending == [] && st'.dependent == st.dependent
    requires |st'.nodes| == |st.nodes| + 1
    requires forall i :: 0 <= i < |st.nodes| && i != st.dependent.value ==> st'.nodes[i] == st.nodes[i]
    requires Ranked(st'.nodes, level') && |level'| == |level| + 1 && level'[..|level|] == level
    ensures st'.nodes[c] == st.nodes[c]
    ensures Walking(level', st', st.nodes[c].dependsUpon, remaining[1..], rank)
  {
    var d := st.dependent.value;
    ChainShape(st.nodes, level, c);
    assert c != d;
    assert level'[d] == level[d] && level'[c] == level[c];
    match st.nodes[c].dependsUpon
    case None =>
      assert remaining[1..] == [];
    case Some(next) =>
      assert remaining[1..] == Chain(st.nodes, level, next);
      assert level'[next] == level[next];
      ChainFrame(st.nodes, level, st'.nodes, level', next, level[next]);
  }

  lemma StepGathersView(level: seq<nat>, st: Consolidation, c: JoinId, remaining: seq<JoinId>, rank: JoinId -> int)
    requires Walking(level, st, Some(c), remaining, rank)
    requires st.nodes[c].joinType == LateralView && st.dependent.Some?
    ensures var st' := st.(pending := Insert(st.pending, c, rank));
      && Walking(level, st', st.nodes[c].dependsUpon, remaining[1..], rank)
      && WalkSpec(st', remaining[1..], rank) == WalkSpec(st, remaining, rank)
  {
    ChainShape(st.nodes, level, c);
    EntriesBelow(Insert(st.pending, c, rank), |st.nodes|);
    WalkGathers(st, remaining, rank);
  }

  lemma StepPasses(level: seq<nat>, st: Consolidation, c: JoinId, remaining: seq<JoinId>, rank: JoinId -> int)
    requires Walking(level, st, Some(c), remaining, rank)
    requires st.nodes[c].joinType != TableJoin
    requires st.nodes[c].joinType != LateralView || st.dependent.None?
    ensures Walking(level, st, st.nodes[c].dependsUpon, remaining[1..], rank)
    ensures WalkSpec(st, remaining[1..], rank) == WalkSpec(st, remaining, rank)
  {
    ChainShape(st.nodes, level, c);
    WalkPasses(st, remaining, rank);
  }

  // One step of `WalkSpec` for each branch of the loop.

  lemma WalkConverts(st: Consolidation, path: seq<JoinId>, rank: JoinId -> int)
    requires StateOK(st, rank) && (forall k :: 0 <= k < |path| ==> path[k] < |st.nodes|)
    requires st.dependent.Some?
    requires path != [] && st.nodes[path[0]].joinType == TableJoin
    ensures ReplaceSpec(st, rank).Failure? ==> WalkSpec(st, path, rank) == Failure(ReplaceSpec(st, rank).error)
    ensures ReplaceSpec(st, rank).Success? ==> WalkSpec(st, path, rank) == WalkSpec(ReplaceSpec(st, rank).value, path[1..], rank)
  {
  }

  lemma WalkGathers(st: Consolidation, path: seq<JoinId>, rank: JoinId -> int)
    requires StateOK(st, rank) && (forall k :: 0 <= k < |path| ==> path[k] < |st.nodes|)
    requires st.dependent.Some?
    requires path != [] && st.nodes[path[0]].joinType == LateralView
    requires forall k :: 0 <= k < |Insert(st.pending, path[0], rank)| ==> Insert(st.pending, path[0], rank)[k] < |st.nodes|
    ensures WalkSpec(st, path, rank) == WalkSpec(st.(pending := Insert(st.pending, path[0], rank)), path[1..], rank)
  {
  }

  lemma WalkPasses(st: Consolidation, path: seq<JoinId>, rank: JoinId -> int)
    requires StateOK(st, rank) && (forall k :: 0 <= k < |path| ==> path[k] < |st.nodes|)
    requires st.pending != [] ==> st.dependent.Some?
    requires path != [] && st.nodes[path[0]].joinType != TableJoin
    requires st.nodes[path[0]].joinType != LateralView || st.dependent.None?
    ensures WalkSpec(st, path, rank) == WalkSpec(st, path[1..], rank)
  {
  }

  /** `replaceLateralViews(joins, dependentTableJoin, lateralViewsToConvert)`: builds the inline query,
      rewires and rewrites the dependent join, returns a new set without the converted views and with
      the inline query, and empties the pending set. A failure leaves everything as it was. */
  method ReplaceLateralViews(heap: JoinHeap, joins: JoinSet, dependent: JoinId, pending: JoinSet)
    returns (r: Result<JoinSet, ConsolidationError>)
    requires heap.Valid() && joins.Valid() && pending.Valid() && pending.rank == joins.rank
    requires StateOK(Consolidation(heap.nodes, joins.elements, Some(dependent), pending.elements), joins.rank)
    requires forall x :: x in pending.elements ==> heap.level[x] < heap.level[dependent]
    modifies heap, pending
    ensures heap.Valid() && pending.Valid()
    ensures var spec := ReplaceSpec(Consolidation(old(heap.nodes), old(joins.elements), Some(dependent),
                                                  old(pending.elements)), joins.rank);
      && (r.Failure? <==> spec.Failure?)
      && (r.Failure? ==> r.error == spec.error && heap.nodes == old(heap.nodes) && heap.level == old(heap.level)
                         && pending.elements == old(pending.elements))
      && (r.Success? ==> && fresh(r.value) && r.value.Valid() && r.value.rank == joins.rank
                         && spec.value == Consolidation(heap.nodes, r.value.elements, Some(dependent), pending.elements))
    ensures r.Success? ==> |heap.level| == |old(heap.level)| + 1 && heap.level[..|old(heap.level)|] == old(heap.level)
  {
    ghost var st := Consolidation(heap.nodes, joins.elements, Some(dependent), pending.elements);
    var last := pending.Last();
    if last.None? {
      assert ReplaceSpec(st, joins.rank) == Failure(EmptyPendingSet);
      return Failure(EmptyPendingSet);
    }
    var finalTableAlias := heap.nodes[last.value].tableAlias;
    var found := FindAliasInvocation(heap.nodes[dependent].expression, finalTableAlias);
    if found.None? {
      assert ReplaceSpec(st, joins.rank) == Failure(NoAliasInvocation);
      return Failure(NoAliasInvocation);
    }
    var tableAliasInvocation := found.value;
    var newTableAlias := finalTableAlias + PathToUpperCamelCase(TokenizePath(tableAliasInvocation));
    var first := pending.First();
    var udtfExpression := heap.nodes[first.value].udtfExpression;
    if udtfExpression.None? {
      assert ReplaceSpec(st, joins.rank) == Failure(MissingUdtfExpression);
      return Failure(MissingUdtfExpression);
    }
    TokenizePathShape(udtfExpression.value);
    var table := TokenizePath(udtfExpression.value)[0];
    var joinExpression := "INNER JOIN (SELECT id, " + finalTableAlias + "." + tableAliasInvocation + " FROM " + table + " ";
    joinExpression := joinExpression + JoinWith(" ", Expressions(heap.nodes, pending.elements));
    joinExpression := joinExpression + ") " + newTableAlias + " ON " + table + ".id = " + newTableAlias + ".id";
    assert joinExpression == InlineQueryExpression(finalTableAlias, tableAliasInvocation, table,
                                                   Expressions(heap.nodes, pending.elements), newTableAlias);
    WithoutSorted(joins.elements, pending.elements, joins.rank);
    ReplaceSpecConverts(st, joins.rank, tableAliasInvocation, udtfExpression.value);

    var inlineQuery := InsertInlineQuery(heap, dependent, first.value, last.value, joinExpression,
                                         newTableAlias, tableAliasInvocation);
    var newJoins := JoinsWithout(joins, pending.elements);
    newJoins.Add(inlineQuery);
    pending.Clear();
    assert heap.nodes == Converted(st, joins.rank, tableAliasInvocation, udtfExpression.value).nodes;
    return Success(newJoins);
  }

  /** On success, `ReplaceSpec` is the conversion with the found field path and the least view's
      table-generating expression. */
  lemma ReplaceSpecConverts(st: Consolidation, rank: JoinId -> int, invocation: string, udtf: string)
    requires StateOK(st, rank) && st.dependent.Some? && st.pending != []
    requires FindAliasInvocation(st.nodes[st.dependent.value].expression,
                                 st.nodes[st.pending[|st.pending| - 1]].tableAlias) == Some(invocation)
    requires st.nodes[st.pending[0]].udtfExpression == Some(udtf)
    requires Sorted(Without(st.joins, st.pending), rank)
    ensures ReplaceSpec(st, rank) == Success(Converted(st, rank, invocation, udtf))
    ensures var lastView := st.nodes[st.pending[|st.pending| - 1]];
      var d := st.dependent.value;
      var newAlias := lastView.tableAlias + PathToUpperCamelCase(TokenizePath(invocation));
      var table := TokenizePath(udtf)[0];
      var c := Converted(st, rank, invocation, udtf);
      && c.joins == Insert(Without(st.joins, st.pending), |st.nodes|, rank)
      && c.nodes == st.nodes[d := st.nodes[d].(
                      dependsUpon := Some(|st.nodes|),
                      expression := ReplaceAll(st.nodes[d].expression, lastView.tableAlias + "." + invocation,
                                               newAlias + "." + invocation))]
                    + [Join(InlineQueryExpression(lastView.tableAlias, invocation, table,
                                                  Expressions(st.nodes, st.pending), newAlias),
                            lastView.rootExpression, InlineQuery, newAlias, None,
                            st.nodes[st.pending[0]].dependsUpon)]
  {
    TokenizePathShape(udtf);
  }

  /** Creates the inline-query join (`new Join` and the first `setDependsUpon`), makes the dependent join
      depend on it and rewrites the dependent join's expression. */
  method InsertInlineQuery(heap: JoinHeap, dependent: JoinId, first: JoinId, last: JoinId,
                           joinExpression: string, newTableAlias: string, tableAliasInvocation: string)
    returns (inlineQuery: JoinId)
    requires heap.Valid() && dependent < |heap.nodes| && first < |heap.nodes| && last < |heap.nodes|
    requires heap.level[first] < heap.level[dependent] && last != dependent
    modifies heap
    ensures heap.Valid() && inlineQuery == old(|heap.nodes|)
    ensures |heap.level| == |old(heap.level)| + 1 && heap.level[..|old(heap.level)|] == old(heap.level)
    ensures var old' := old(heap.nodes);
      heap.nodes == old'[dependent := old'[dependent].(
                      dependsUpon := Some(inlineQuery),
                      expression := ReplaceAll(old'[dependent].expression,
                                               old'[last].tableAlias + "." + tableAliasInvocation,
                                               newTableAlias + "." + tableAliasInvocation))]
                    + [Join(joinExpression, old'[last].rootExpression, InlineQuery, newTableAlias, None,
                            old'[first].dependsUpon)]
  {
    inlineQuery := heap.NewJoin(joinExpression, heap.nodes[last].rootExpression, InlineQuery,
                                newTableAlias, heap.level[first]);
    heap.SetDependsUpon(inlineQuery, heap.nodes[first].dependsUpon);
    heap.SetDependsUpon(dependent, Some(inlineQuery));
    var transformedExpression := ReplaceAll(heap.nodes[dependent].expression,
                                            heap.nodes[last].tableAlias + "." + tableAliasInvocation,
                                            heap.nodes[inlineQuery].tableAlias + "." + tableAliasInvocation);
    heap.SetExpression(dependent, transformedExpression);
  }

  /** The loop building `newJoins`: every join of the set that is not one of the views to convert. */
  method JoinsWithout(joins: JoinSet, lateralViewsToConvert: seq<JoinId>) returns (newJoins: JoinSet)
    requires joins.Valid()
    ensures fresh(newJoins) && newJoins.Valid() && newJoins.rank == joins.rank
    ensures newJoins.elements == Without(joins.elements, lateralViewsToConvert)
  {
    newJoins := new JoinSet(joins.rank);
    var i := 0;
    while i < |joins.elements|
      invariant 0 <= i <= |joins.elements|
      invariant fresh(newJoins) && newJoins.Valid() && newJoins.rank == joins.rank
      invariant newJoins.elements == Without(joins.elements[..i], lateralViewsToConvert)
      modifies newJoins
    {
      var join := joins.elements[i];
      var inLateralViewsToConvert := IsMember(join, lateralViewsToConvert);
      WithoutStep(joins.elements, i, lateralViewsToConvert, joins.rank);
      if !inLateralViewsToConvert {
        newJoins.Add(join);
      }
      i := i + 1;
    }
    assert joins.elements[..i] == joins.elements;
  }

  /** The inner loop of `replaceLateralViews`: whether `join` equals some element of the set. */
  method IsMember(join: JoinId, elements: seq<JoinId>) returns (found: bool)
    ensures found <==> join in elements
  {
    found := false;
    var j := 0;
    while j < |elements|
      invariant 0 <= j <= |elements|
      invariant found <==> join in elements[..j]
    {
      assert elements[..j + 1] == elements[..j] + [elements[j]];
      if join == elements[j] {
        found := true;
      }
      j := j + 1;
    }
    assert elements[..j] == elements;
  }

  /** Filtering one more join at the end. */
  lemma {:induction false} WithoutSnoc(s: seq<JoinId>, x: JoinId, removed: seq<JoinId>)
    ensures Without(s + [x], removed) == Without(s, removed) + (if x in removed then [] else [x])
    decreases |s|
  {
    if s == [] {
      assert [x][1..] == [];
    } else {
      assert (s + [x])[1..] == s[1..] + [x];
      WithoutSnoc(s[1..], x, removed);
    }
  }

  /** One step of the loop: the next join is kept unless it is to be converted, and keeping it puts it
      at the end. */
  lemma WithoutStep(s: seq<JoinId>, i: nat, removed: seq<JoinId>, rank: JoinId -> int)
    requires Injective(rank) && Sorted(s, rank) && i < |s|
    ensures Sorted(Without(s[..i], removed), rank)
    ensures s[i] in removed ==> Without(s[..i + 1], removed) == Without(s[..i], removed)
    ensures s[i] !in removed ==> Without(s[..i + 1], removed) == Insert(Without(s[..i], removed), s[i], rank)
  {
    var prefix := s[..i];
    assert s[..i + 1] == prefix + [s[i]];
    WithoutSnoc(prefix, s[i], removed);
    AppendInOrder(s, i, removed, rank);
  }

  /** The joins kept so far all sort before the next one, so adding it appends it. */
  lemma AppendInOrder(s: seq<JoinId>, i: nat, removed: seq<JoinId>, rank: JoinId -> int)
    requires Injective(rank) && Sorted(s, rank) && i < |s|
    ensures Sorted(Without(s[..i], removed), rank)
    ensures Insert(Without(s[..i], removed), s[i], rank) == Without(s[..i], removed) + [s[i]]
  {
    var kept := Without(s[..i], removed);
    WithoutSorted(s[..i], removed, rank);
    forall y | y in kept ensures rank(y) < rank(s[i]) {
      var k :| 0 <= k < i && s[..i][k] == y;
    }
    InsertGreatest(kept, s[i], rank);
  }
}
