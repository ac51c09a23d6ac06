# Pathling query core, modelled in Dafny

This project models six parts of Pathling, a FHIR analytics server, and proves properties of the model.

- **The aggregate query planner** (`SparkQueryPlanner`) has three jobs.
  - It validates an aggregate query and parses its aggregation and grouping expressions.
  - It builds a `QueryPlan`. The plan holds the SQL expressions and type codes, the base tables, and the sorted union of the joins the parse results need. It checks first that every base table a grouping reads is also read by an aggregation.
  - It consolidates the joins. A cursor walks from the greatest join along `dependsUpon`. A run of lateral views (`LATERAL_VIEW` joins) that feeds a table join (`TABLE_JOIN`) is folded into one inline-query join. The table join's expression is then rewritten to read through the new alias.
- **Path traversal** (`PathTraversalOperator.invoke`) is the FHIRPath `.` operator over a dataset of rows.
  - A child of maximum cardinality one adds an index column and a field column to each row.
  - A repeating child is exploded the way `posexplode_outer` does it.
  - The element identity of each row gets the index appended.
- **Terminology guards** (`DefaultTerminologyService2`) are the checks made before the client is called for the FHIR R4 operations `ValueSet/$validate-code`, `ConceptMap/$translate` and `CodeSystem/$subsumes`.
- **Lookup results** (`LookupExecutor`) are the short-circuit for an invalid coding, the fallback, and the mapping of a `CodeSystem/$lookup` response to properties.
- **Bundle support** (`R4FhirConversionSupport`) picks the entry resources of one class out of a bundle. It also rewrites `urn:` references in place, at any depth, to the id of the resource attached to them.
- **Reference matching** (`Referrer`) compares a reference with a target's literal form, resource type + `/` + id, as in FHIR R4 `Reference.reference`.

Modules:
- `Wrappers`: `Option`, `Result`, and a first-failure map.
- `Strings`: Java string operations.
- `Joins`: joins, the join heap, and sorted join sets.
- `LateralViews`: the consolidation stated on values.
- `SparkQueryPlanner`: the planner, with imperative methods proved against `LateralViews`.
- `PathTraversal`, `TerminologyService`, `LookupExecutor`, `R4Conversion`, `Referrer`: the other five parts.

How the code is represented:
- **Model on values, code in place.** Where the Java code changes objects in place, the model does too: the join heap, the sorted join sets, and FHIR elements whose `reference` field is rewritten. Each method is proved against a function or predicate on values.
- **Joins.** Joins live in an arena class, `JoinHeap`, and refer to each other by index. A ghost level on each join decreases along `dependsUpon`, which shows that chains end.
- **Sorted sets.** A `TreeSet<Join>` is a sorted sequence under an abstract injective order, `rank`.
- **Parser and client.** The expression parser is a function parameter. So are the terminology client's operations.
- **Spark columns.** Spark column expressions are evaluated one row at a time, on a small cell model.

Behaviour of the code the model keeps:
- **No uniqueness check on the field reference.** The greedy `find` at SparkQueryPlanner.java:175-181 takes the last whitespace-preceded `alias.` occurrence. It does not check that the reference is unique.
- **A second table join with no pending views fails.** `replaceLateralViews` is called even when no views are pending, and `last()` on the empty set then throws. The model returns `EmptyPendingSet` here; see `LateralViews.AdjacentTableJoinsFail`.
- **The dependent table join is never replaced.** Once recorded, it stays the dependent join for the whole walk.
- **Join equality.** In the model, join equality is identity of the arena entry. It is not equality of alias and expression, because `Join.java` is not part of this model.

## Model

In the source column:
- `SQP` is fhir-server/src/main/java/au/csiro/clinsight/query/spark/SparkQueryPlanner.java.
- Every other path is written out in full.

| member | source | states |
|---|---|---|
| Wrappers.MapAll | fhir-server/src/main/java/au/csiro/clinsight/query/spark/SparkQueryPlanner.java:50-59 | A stream map whose lambda may throw. It succeeds iff every element's outcome succeeds, and then holds those outcomes in order. Otherwise it fails with the error of an element all of whose predecessors succeeded. |
| Strings.ReplaceAll | fhir-server/src/main/java/au/csiro/clinsight/query/spark/SparkQueryPlanner.java:199-201 | Definition of `String.replace` for a non-empty target: every occurrence, scanned left to right without overlap, is replaced literally. Properties in `ReplaceAllAbsent`, `ReplaceAllIntroduces` and `ReplaceAllIdentity`. |
| Strings.ReplaceAllAbsent | fhir-server/src/main/java/au/csiro/clinsight/query/spark/SparkQueryPlanner.java:199-201 | `String.replace` leaves a string without the target unchanged. |
| Strings.ReplaceAllIntroduces | fhir-server/src/main/java/au/csiro/clinsight/query/spark/SparkQueryPlanner.java:199-201 | Where the target occurs, the replacement occurs in the result. |
| Strings.ReplaceAllIdentity | fhir-server/src/main/java/au/csiro/clinsight/query/spark/SparkQueryPlanner.java:199-201 | Replacing a string by itself changes nothing. |
| Strings.JoinWith | fhir-server/src/main/java/au/csiro/clinsight/query/spark/SparkQueryPlanner.java:189-190 | Definition of `Collectors.joining(separator)`: the parts with the separator between neighbours. Properties in `TokenizePathJoin`, `JoinTokenizePath` and `CamelCaseLength`. |
| Strings.TokenizePath | fhir-server/src/main/java/au/csiro/clinsight/query/spark/SparkQueryPlanner.java:186 | A tokenised path always has a first component, so `getFirst()` is defined. |
| Strings.TokenizePathShape | fhir-server/src/main/java/au/csiro/clinsight/query/spark/SparkQueryPlanner.java:183-186 | There is at least one component, and no component holds a dot. |
| Strings.TokenizePathJoin | fhir-server/src/main/java/au/csiro/clinsight/query/spark/SparkQueryPlanner.java:183 | Joining the components with dots gives back the path. |
| Strings.JoinTokenizePath | fhir-server/src/main/java/au/csiro/clinsight/query/spark/SparkQueryPlanner.java:183 | Tokenising dot-joined dot-free components gives back the components. |
| Strings.PathToUpperCamelCase | fhir-server/src/main/java/au/csiro/clinsight/query/spark/SparkQueryPlanner.java:182-183 | Definition, an assumption about a helper that is not part of this model: each component with its first letter upper-cased, concatenated. Properties in `CamelCaseLength`. |
| Strings.CamelCaseLength | fhir-server/src/main/java/au/csiro/clinsight/query/spark/SparkQueryPlanner.java:182-183 | Camel-casing a tokenised path drops exactly one character per separator. |
| Joins.Insert | fhir-server/src/main/java/au/csiro/clinsight/query/spark/SparkQueryPlanner.java:163 | `TreeSet.add` keeps the set sorted, and its members are the old members plus the new element. |
| Joins.InsertGreatest | fhir-server/src/main/java/au/csiro/clinsight/query/spark/SparkQueryPlanner.java:211-213 | Adding an element that sorts after every member appends it. |
| Joins.InsertPresent | fhir-server/src/main/java/au/csiro/clinsight/query/spark/SparkQueryPlanner.java:132-138 | Adding a member again changes nothing, so duplicate joins collapse. |
| Joins.SortedLast | fhir-server/src/main/java/au/csiro/clinsight/query/spark/SparkQueryPlanner.java:149 | The last element of a sorted set is its greatest. |
| Joins.SortedFirst | fhir-server/src/main/java/au/csiro/clinsight/query/spark/SparkQueryPlanner.java:184 | The first element of a sorted set is its least. |
| Joins.InsertEach | fhir-server/src/main/java/au/csiro/clinsight/query/spark/SparkQueryPlanner.java:134 | `addAll` keeps the set sorted, and its members are the old members plus the added ones. |
| Joins.Chain | fhir-server/src/main/java/au/csiro/clinsight/query/spark/SparkQueryPlanner.java:149-165 | The joins the cursor meets from `start`: `start` first, then each join's `dependsUpon`, all of them in the heap. |
| Joins.ChainShape | fhir-server/src/main/java/au/csiro/clinsight/query/spark/SparkQueryPlanner.java:149-165 | The chain steps along `dependsUpon`, ends at a join that depends on nothing, and never visits a join twice. |
| Joins.ChainFrame | fhir-server/src/main/java/au/csiro/clinsight/query/spark/SparkQueryPlanner.java:194-202 | Changing joins above the start of a chain, or adding new ones, leaves the chain as it was. |
| Joins.JoinHeap.NewJoin | fhir-server/src/main/java/au/csiro/clinsight/query/spark/SparkQueryPlanner.java:194-196 | `new Join(...)` appends a join with the given fields, no table-generating expression and no dependency. |
| Joins.JoinHeap.SetDependsUpon | fhir-server/src/main/java/au/csiro/clinsight/query/spark/SparkQueryPlanner.java:197-198 | Only that join's `dependsUpon` changes, and the heap stays acyclic. |
| Joins.JoinHeap.SetExpression | fhir-server/src/main/java/au/csiro/clinsight/query/spark/SparkQueryPlanner.java:202 | Only that join's expression changes. |
| Joins.JoinSet.constructor | fhir-server/src/main/java/au/csiro/clinsight/query/spark/SparkQueryPlanner.java:132 | A new `TreeSet` is empty and uses the given order. |
| Joins.JoinSet.IsEmpty | fhir-server/src/main/java/au/csiro/clinsight/query/spark/SparkQueryPlanner.java:146-152 | Definition of `isEmpty()`: the set has no elements. Used by `SparkQueryPlanner.ConvertUpstreamLateralViewsToInlineQueries`. |
| Joins.JoinSet.Last | fhir-server/src/main/java/au/csiro/clinsight/query/spark/SparkQueryPlanner.java:174 | `last()` is absent exactly for the empty set; otherwise it is the greatest member. |
| Joins.JoinSet.First | fhir-server/src/main/java/au/csiro/clinsight/query/spark/SparkQueryPlanner.java:184 | `first()` is absent exactly for the empty set; otherwise it is the least member. |
| Joins.JoinSet.Add | fhir-server/src/main/java/au/csiro/clinsight/query/spark/SparkQueryPlanner.java:163 | The elements become `Insert` of the element, and the set stays sorted. |
| Joins.JoinSet.AddAll | fhir-server/src/main/java/au/csiro/clinsight/query/spark/SparkQueryPlanner.java:134 | The elements become `InsertEach` of the added joins, in order. |
| Joins.JoinSet.Clear | fhir-server/src/main/java/au/csiro/clinsight/query/spark/SparkQueryPlanner.java:220 | The set is empty afterwards. |
| LateralViews.NextWhitespace | fhir-server/src/main/java/au/csiro/clinsight/query/spark/SparkQueryPlanner.java:176 | The first whitespace at or after a position. There is none before it, and the result is the length exactly when there is none at all. |
| LateralViews.FindBefore | fhir-server/src/main/java/au/csiro/clinsight/query/spark/SparkQueryPlanner.java:175-181 | The regex matches iff some whitespace is followed by `alias.` and then, later, by whitespace. The group is taken at the last such position, as the greedy prefix picks. |
| LateralViews.FindAliasInvocation | fhir-server/src/main/java/au/csiro/clinsight/query/spark/SparkQueryPlanner.java:175-181 | `find()` succeeds iff some whitespace in the expression is followed by `alias.` and then, later, by whitespace. `group(1)` is then the text after `alias.` at such a position, up to the next whitespace. |
| LateralViews.InvocationGroupShape | fhir-server/src/main/java/au/csiro/clinsight/query/spark/SparkQueryPlanner.java:176-181 | Group 1 holds no whitespace, `alias.group` stands right after the whitespace, and whitespace follows it. |
| LateralViews.AliasInvocationShape | fhir-server/src/main/java/au/csiro/clinsight/query/spark/SparkQueryPlanner.java:175-181 | A found field path holds no whitespace, and `alias.field` occurs in the dependent join's expression. |
| LateralViews.Expressions | fhir-server/src/main/java/au/csiro/clinsight/query/spark/SparkQueryPlanner.java:190-191 | The pending views' expressions, one per view, in set order. |
| LateralViews.InlineQueryExpression | fhir-server/src/main/java/au/csiro/clinsight/query/spark/SparkQueryPlanner.java:187-193 | Definition of the inline query's SQL text: `INNER JOIN (SELECT id, alias.field FROM table`, the views' expressions joined by spaces, then `) newAlias ON table.id = newAlias.id`. It is used by `Converted` and `ReplaceSpecConverts`. |
| LateralViews.Without | fhir-server/src/main/java/au/csiro/clinsight/query/spark/SparkQueryPlanner.java:203-214 | A join is kept iff it is in the set and not among the views to convert. |
| LateralViews.WithoutSorted | fhir-server/src/main/java/au/csiro/clinsight/query/spark/SparkQueryPlanner.java:203-214 | Filtering a sorted set leaves it sorted. |
| LateralViews.Converted | fhir-server/src/main/java/au/csiro/clinsight/query/spark/SparkQueryPlanner.java:182-221 | One conversion gives a well-formed state with one more join, the same dependent join and no pending views. |
| LateralViews.ReplaceSpec | fhir-server/src/main/java/au/csiro/clinsight/query/spark/SparkQueryPlanner.java:171-222 | The conversion fails iff nothing is pending, the alias search fails, or the least view has no table-generating expression. On success it adds one join and empties the pending set. |
| LateralViews.ReplaceShape | fhir-server/src/main/java/au/csiro/clinsight/query/spark/SparkQueryPlanner.java:194-221 | The new join is an inline query, and no other existing join changes but the dependent one. The join set is the old set minus the pending views plus the new join. |
| LateralViews.ReplaceRewiresDependent | fhir-server/src/main/java/au/csiro/clinsight/query/spark/SparkQueryPlanner.java:174-202 | The dependent join now depends on the inline query and keeps its type and alias. The query depends on what the least view depended on and takes the greatest view's root expression. Its alias extends the greatest view's alias with the camel-cased field path. The rewritten expression names the field through that alias. |
| LateralViews.WalkSpec | fhir-server/src/main/java/au/csiro/clinsight/query/spark/SparkQueryPlanner.java:149-168 | Definition of the loop on values, one case per Java branch: record the first table join, convert at a later one, gather a lateral view once a table join is recorded, pass over anything else, and convert at the end if views are pending. Properties in `WalkShape` and the `Walk*` lemmas; `SparkQueryPlanner.ConvertUpstreamLateralViewsToInlineQueries` is proved to compute it. |
| LateralViews.Consolidate | fhir-server/src/main/java/au/csiro/clinsight/query/spark/SparkQueryPlanner.java:145-169 | Definition: an empty set is returned unchanged; otherwise `WalkSpec` along the chain from the greatest join. Properties in `ConsolidateShape`, `ConsolidateWithoutTableJoin` and `AdjacentTableJoinsFail`. |
| LateralViews.WalkShape | fhir-server/src/main/java/au/csiro/clinsight/query/spark/SparkQueryPlanner.java:149-168 | A successful walk removes exactly the lateral views gathered after a table join has been recorded, plus those already pending. It adds only inline queries, changes no existing join but the dependent one, and records the first table join on the path. |
| LateralViews.WalkRecordsDependent | fhir-server/src/main/java/au/csiro/clinsight/query/spark/SparkQueryPlanner.java:156-158 | The same, for the walk step that records the first table join. |
| LateralViews.WalkConvertsAtTableJoin | fhir-server/src/main/java/au/csiro/clinsight/query/spark/SparkQueryPlanner.java:159-161 | The same, for the walk step that converts at a later table join. |
| LateralViews.WalkGathersView | fhir-server/src/main/java/au/csiro/clinsight/query/spark/SparkQueryPlanner.java:162-163 | The same, for the walk step that gathers a lateral view. |
| LateralViews.WalkSkips | fhir-server/src/main/java/au/csiro/clinsight/query/spark/SparkQueryPlanner.java:164-165 | The same, for the walk step that passes over any other join. |
| LateralViews.ConsolidateShape | fhir-server/src/main/java/au/csiro/clinsight/query/spark/SparkQueryPlanner.java:145-169 | Consolidating a non-empty set has the `WalkShape` outcome along the chain from the greatest join. |
| LateralViews.WalkWithoutTableJoin | fhir-server/src/main/java/au/csiro/clinsight/query/spark/SparkQueryPlanner.java:152-167 | A walk that meets no table join changes nothing. |
| LateralViews.ConsolidateWithoutTableJoin | fhir-server/src/main/java/au/csiro/clinsight/query/spark/SparkQueryPlanner.java:145-169 | With no table join on the chain from the greatest join (or no joins at all), the heap and join set are returned unchanged. |
| LateralViews.AdjacentTableJoinsFail | fhir-server/src/main/java/au/csiro/clinsight/query/spark/SparkQueryPlanner.java:156-161 | A table join that depends directly on another table join makes consolidation fail with `EmptyPendingSet`, as written. |
| LateralViews.TwoViewsFeedingTableJoin | fhir-server/src/main/java/au/csiro/clinsight/query/spark/SparkQueryPlanner.java:145-222 | Two chained lateral views feeding the greatest join, a table join, are replaced by exactly one inline query. That query is the table join's new dependency and depends on nothing. Success holds iff the field reference is found and the least view has a table-generating expression. |
| LateralViews.TwoViewsWalk | fhir-server/src/main/java/au/csiro/clinsight/query/spark/SparkQueryPlanner.java:149-167 | On that chain, the walk records the table join, gathers both views in order, and converts once at the end. |
| SparkQueryPlanner.AggregationOutcome | fhir-server/src/main/java/au/csiro/clinsight/query/spark/SparkQueryPlanner.java:51-59 | Definition of the `map` lambda: a missing expression is refused with "Aggregation component must have expression"; otherwise the parser's outcome. Properties in `ParseAggregation`. |
| SparkQueryPlanner.GroupingOutcome | fhir-server/src/main/java/au/csiro/clinsight/query/spark/SparkQueryPlanner.java:67-80 | Definition of the `map` lambda: a missing expression is refused; a parse error is passed on; a non-primitive result is refused. Properties in `ParseGroupings` and `GroupingRejectsComplexType`. |
| SparkQueryPlanner.ParseAggregation | fhir-server/src/main/java/au/csiro/clinsight/query/spark/SparkQueryPlanner.java:49-60 | It succeeds iff every aggregation has an expression and that expression parses. Then there is one parse result per aggregation, in order. A failure is the error of the first aggregation that fails. |
| SparkQueryPlanner.ParseGroupings | fhir-server/src/main/java/au/csiro/clinsight/query/spark/SparkQueryPlanner.java:62-83 | Absent groupings give no parse results. Accepted groupings are all primitive and in order. A failure is the error of the first grouping that fails. |
| SparkQueryPlanner.GroupingRejectsComplexType | fhir-server/src/main/java/au/csiro/clinsight/query/spark/SparkQueryPlanner.java:74-78 | A non-primitive grouping is refused, with a message that names its expression and its type code. |
| SparkQueryPlanner.NewPlanner | fhir-server/src/main/java/au/csiro/clinsight/query/spark/SparkQueryPlanner.java:38-47 | An absent or empty aggregation list is refused with "Missing aggregation component within query". Otherwise the planner is built iff both lists parse, and it holds their parse results. |
| SparkQueryPlanner.TablesOf | fhir-server/src/main/java/au/csiro/clinsight/query/spark/SparkQueryPlanner.java:114-119 | A table is in the union iff some parse result reads it. |
| SparkQueryPlanner.MergeJoins | fhir-server/src/main/java/au/csiro/clinsight/query/spark/SparkQueryPlanner.java:132-138 | The merged set is sorted, and its members are the old members plus every parse result's joins. |
| SparkQueryPlanner.AllJoins | fhir-server/src/main/java/au/csiro/clinsight/query/spark/SparkQueryPlanner.java:132-138 | Before consolidation, the join set is sorted and is exactly the union of the aggregation and grouping joins. |
| SparkQueryPlanner.CollectFromTables | fhir-server/src/main/java/au/csiro/clinsight/query/spark/SparkQueryPlanner.java:114-119 | The `forEach`/`addAll` loop computes the union `TablesOf`. |
| SparkQueryPlanner.AddJoinsOf | fhir-server/src/main/java/au/csiro/clinsight/query/spark/SparkQueryPlanner.java:133-138 | The `for`/`addAll` loop computes `MergeJoins`, and the set stays sorted. |
| SparkQueryPlanner.BuildQueryPlan | fhir-server/src/main/java/au/csiro/clinsight/query/spark/SparkQueryPlanner.java:85-143 | It fails with exactly the set difference iff the grouping tables are not all aggregation tables. Otherwise it fails iff consolidation fails. On success it holds the expressions and type codes in input order, the aggregation tables, and the consolidated joins and heap. |
| SparkQueryPlanner.ConvertUpstreamLateralViewsToInlineQueries | fhir-server/src/main/java/au/csiro/clinsight/query/spark/SparkQueryPlanner.java:145-169 | The loop computes `Consolidate`: the same error, or the same join set and heap. The empty set is returned unchanged. |
| SparkQueryPlanner.StepAtEnd | fhir-server/src/main/java/au/csiro/clinsight/query/spark/SparkQueryPlanner.java:153-154 | Converting once the cursor is exhausted keeps the loop invariant, and leaves the rest of the walk as it was. |
| SparkQueryPlanner.StepRecordsDependent | fhir-server/src/main/java/au/csiro/clinsight/query/spark/SparkQueryPlanner.java:156-158 | Recording the first table join and stepping keeps the invariant and the rest of the walk. |
| SparkQueryPlanner.StepConverts | fhir-server/src/main/java/au/csiro/clinsight/query/spark/SparkQueryPlanner.java:159-165 | Converting at a later table join leaves the cursor's join and its remaining chain as they were. |
| SparkQueryPlanner.StepGathersView | fhir-server/src/main/java/au/csiro/clinsight/query/spark/SparkQueryPlanner.java:162-165 | Gathering a view and stepping keeps the invariant and the rest of the walk. |
| SparkQueryPlanner.StepPasses | fhir-server/src/main/java/au/csiro/clinsight/query/spark/SparkQueryPlanner.java:164-165 | Passing over any other join keeps the invariant and the rest of the walk. |
| SparkQueryPlanner.WalkConverts | fhir-server/src/main/java/au/csiro/clinsight/query/spark/SparkQueryPlanner.java:159-161 | At a later table join, the walk is the conversion followed by the rest of the walk, or that conversion's error. |
| SparkQueryPlanner.WalkGathers | fhir-server/src/main/java/au/csiro/clinsight/query/spark/SparkQueryPlanner.java:162-163 | A lateral view met after a table join is added to the pending set. |
| SparkQueryPlanner.WalkPasses | fhir-server/src/main/java/au/csiro/clinsight/query/spark/SparkQueryPlanner.java:164-165 | Any other join is stepped over. |
| SparkQueryPlanner.ReplaceLateralViews | fhir-server/src/main/java/au/csiro/clinsight/query/spark/SparkQueryPlanner.java:171-222 | The in-place conversion computes `ReplaceSpec`: the same error with nothing changed, or a fresh join set and a new heap equal to the specification, with the pending set cleared. |
| SparkQueryPlanner.ReplaceSpecConverts | fhir-server/src/main/java/au/csiro/clinsight/query/spark/SparkQueryPlanner.java:182-219 | With the field path found and a table-generating expression present, the conversion writes out the new heap and join set: the rewired, rewritten dependent join plus the inline-query join. |
| SparkQueryPlanner.InsertInlineQuery | fhir-server/src/main/java/au/csiro/clinsight/query/spark/SparkQueryPlanner.java:194-202 | Appends the inline query, with the greatest view's root expression and the least view's dependency. The dependent join then depends on it and has its expression rewritten; nothing else changes. |
| SparkQueryPlanner.JoinsWithout | fhir-server/src/main/java/au/csiro/clinsight/query/spark/SparkQueryPlanner.java:203-214 | The `newJoins` loop computes `Without` into a fresh sorted set. |
| SparkQueryPlanner.IsMember | fhir-server/src/main/java/au/csiro/clinsight/query/spark/SparkQueryPlanner.java:205-210 | The inner loop finds the join iff it is among the views to convert. |
| PathTraversal.TraversalExpression | fhir-server/src/main/java/au/csiro/pathling/fhirpath/operator/PathTraversalOperator.java:50-53 | The child name alone when the left expression is the input context's expression; otherwise `left`, a dot, then `right`. |
| PathTraversal.SingularRow | fhir-server/src/main/java/au/csiro/pathling/fhirpath/operator/PathTraversalOperator.java:64-72 | The input row, then index 0 (null when the field is null), then the field. |
| PathTraversal.ExplodeRow | fhir-server/src/main/java/au/csiro/pathling/fhirpath/operator/PathTraversalOperator.java:73-74 | At least one row per input row, each the input row followed by an index that is null or an integer. |
| PathTraversal.ExplodeRowPositions | fhir-server/src/main/java/au/csiro/pathling/fhirpath/operator/PathTraversalOperator.java:62-74 | N array elements give N rows with indices 0..N-1, and reading the field column back gives the array in order. |
| PathTraversal.ExplodeRowOuter | fhir-server/src/main/java/au/csiro/pathling/fhirpath/operator/PathTraversalOperator.java:73-74 | A null, empty or non-array field gives one row with a null index and a null field, so no row is dropped. |
| PathTraversal.Explode | fhir-server/src/main/java/au/csiro/pathling/fhirpath/operator/PathTraversalOperator.java:69-77 | The exploded dataset never has fewer rows than the input. |
| PathTraversal.ExplodeAppend | fhir-server/src/main/java/au/csiro/pathling/fhirpath/operator/PathTraversalOperator.java:69-77 | Exploding keeps the input row order. |
| PathTraversal.ExplodeSources | fhir-server/src/main/java/au/csiro/pathling/fhirpath/operator/PathTraversalOperator.java:69-77 | Every exploded row is an input row followed by an index and a field. |
| PathTraversal.Invoke | fhir-server/src/main/java/au/csiro/pathling/fhirpath/operator/PathTraversalOperator.java:40-89 | A literal left side, an unknown child (with "No such child: " and the expression) and a missing eid column are errors. Otherwise the computed expression, the child definition, singular iff left singular and max cardinality one, and id, foreign resource and `$this` passed through. |
| PathTraversal.InvokeSingularRows | fhir-server/src/main/java/au/csiro/pathling/fhirpath/operator/PathTraversalOperator.java:64-72 | For max cardinality one, the row count is unchanged and each row keeps its input cells. The value is the field, and the index is 0, or null exactly when the field is. |
| PathTraversal.InvokeRows | fhir-server/src/main/java/au/csiro/pathling/fhirpath/operator/PathTraversalOperator.java:69-77 | Every output row is an input row followed by an index and a field. |
| PathTraversal.RowEid | fhir-server/src/main/java/au/csiro/pathling/fhirpath/operator/PathTraversalOperator.java:79-80 | The new eid of one row is null iff its index is null (or the left eid is null); otherwise it is the left eid with the index appended. |
| PathTraversal.InvokeEid | fhir-server/src/main/java/au/csiro/pathling/fhirpath/operator/PathTraversalOperator.java:79-80 | The same, for every output row of the traversal. |
| PathTraversal.InvokeKeepsColumns | fhir-server/src/main/java/au/csiro/pathling/fhirpath/operator/PathTraversalOperator.java:69-88 | All input columns are kept, and the id and `$this` columns read the same values as on the input row. |
| TerminologyService.Optional | terminology/src/main/java/au/csiro/pathling/terminology/DefaultTerminologyService2.java:41-47 | Null stays null; anything else is converted. |
| TerminologyService.Required | terminology/src/main/java/au/csiro/pathling/terminology/DefaultTerminologyService2.java:49-53 | It fails on null, with a null-value error, and succeeds otherwise. |
| TerminologyService.RequiredAgreesWithOptional | terminology/src/main/java/au/csiro/pathling/terminology/DefaultTerminologyService2.java:41-53 | `required` accepts exactly what `optional` keeps, and both convert it the same way. |
| TerminologyService.EquivalenceFromCode | terminology/src/main/java/au/csiro/pathling/terminology/DefaultTerminologyService2.java:101 | A decoded equivalence has the code it came from, and the empty code decodes to null. Decoding fails, naming the code, iff the code is non-empty and no equivalence has it. |
| TerminologyService.EquivalenceRoundTrip | terminology/src/main/java/au/csiro/pathling/terminology/DefaultTerminologyService2.java:101 | Every equivalence decodes from its own code. |
| TerminologyService.OutcomeFromCode | terminology/src/main/java/au/csiro/pathling/terminology/DefaultTerminologyService2.java:62-63 | The same, for subsumption outcomes. |
| TerminologyService.OutcomeRoundTrip | terminology/src/main/java/au/csiro/pathling/terminology/DefaultTerminologyService2.java:62-63 | Every subsumption outcome decodes from its own code. |
| TerminologyService.IsResultTrue | terminology/src/main/java/au/csiro/pathling/terminology/DefaultTerminologyService2.java:55-57 | Definition: the `result` parameter is present and true. It is used by `Validate`, whose contract states the outcome. |
| TerminologyService.GetSubsumptionOutcome | terminology/src/main/java/au/csiro/pathling/terminology/DefaultTerminologyService2.java:59-64 | A missing `outcome` parameter is a null-value error; otherwise its value is decoded. |
| TerminologyService.Validate | terminology/src/main/java/au/csiro/pathling/terminology/DefaultTerminologyService2.java:67-79 | False when the coding lacks a system or a code. Otherwise true iff the client's `result` is true for that url, system, optional version and code. |
| TerminologyService.ValidateGuardIgnoresClient | terminology/src/main/java/au/csiro/pathling/terminology/DefaultTerminologyService2.java:70-72 | The guard decides alone: every client gives false for such a coding. |
| TerminologyService.TranslateRequestFor | terminology/src/main/java/au/csiro/pathling/terminology/DefaultTerminologyService2.java:93-99 | The request carries the concept map url, the system, the code, the reverse flag, and the version and target exactly when present. |
| TerminologyService.ToTranslation | terminology/src/main/java/au/csiro/pathling/terminology/DefaultTerminologyService2.java:100-102 | An entry becomes `Translation.of(equivalence, concept)`, or the error for an unknown equivalence code. |
| TerminologyService.Translate | terminology/src/main/java/au/csiro/pathling/terminology/DefaultTerminologyService2.java:81-104 | No translations when the coding lacks a system or a code. Otherwise one translation per client entry, in order, succeeding iff every equivalence code is known; a failure names the code of the first entry that is unknown. |
| TerminologyService.ResolvedVersion | terminology/src/main/java/au/csiro/pathling/terminology/DefaultTerminologyService2.java:125-127 | A's version when present, otherwise B's. |
| TerminologyService.VersionsCompatible | terminology/src/main/java/au/csiro/pathling/terminology/DefaultTerminologyService2.java:121-124 | Definition of the version guard: one version is missing or both are equal. It is used by `SubsumesAsWritten`, `SubsumesGuarded` and `ResolvedVersionSymmetric`. |
| TerminologyService.ResolvedVersionSymmetric | terminology/src/main/java/au/csiro/pathling/terminology/DefaultTerminologyService2.java:121-127 | For compatible versions, the resolved version does not depend on the order of the codings. |
| TerminologyService.AskSubsumes | terminology/src/main/java/au/csiro/pathling/terminology/DefaultTerminologyService2.java:132-137 | A missing code on B is a null-value error raised before the client is called. Otherwise the outcome the client gives for both codes, A's system and the resolved version. |
| TerminologyService.SubsumesAsWritten | terminology/src/main/java/au/csiro/pathling/terminology/DefaultTerminologyService2.java:106-138 | Not subsumed when A's system is missing or differs from B's, when A's code is missing, or when the versions clash. Otherwise the client is asked, as written. |
| TerminologyService.SubsumesAsWrittenRefusesMissingCodeB | terminology/src/main/java/au/csiro/pathling/terminology/DefaultTerminologyService2.java:115-117 | A = (system "s", code "a") and B = (system "s", no code) give a null-value error, for every client. |
| TerminologyService.SubsumesGuarded | terminology/src/main/java/au/csiro/pathling/terminology/DefaultTerminologyService2.java:106-138 | As above, but also not subsumed when B's code is missing. Otherwise the client's outcome for A's system and the resolved version. |
| TerminologyService.SubsumesGuardsCodeB | terminology/src/main/java/au/csiro/pathling/terminology/DefaultTerminologyService2.java:115-117 | With both codes guarded, a null-value error only comes from a response without an outcome. It agrees with the code as written whenever B has a code, and says not subsumed when B has none. |
| LookupExecutor.Validate | terminology/src/main/java/au/csiro/pathling/terminology/lookup/LookupExecutor.java:63-71 | A present empty list iff the coding lacks a system or a code; otherwise absent. |
| LookupExecutor.InvalidRequestFallback | terminology/src/main/java/au/csiro/pathling/terminology/lookup/LookupExecutor.java:92-95 | Always the empty list. |
| LookupExecutor.HasPart | terminology/src/main/java/au/csiro/pathling/terminology/lookup/LookupExecutor.java:101 | Definition: the parameter has nested parts. Used by `Partless` and `ExtractedMembers`. |
| LookupExecutor.NameMatches | terminology/src/main/java/au/csiro/pathling/terminology/lookup/LookupExecutor.java:102 | Definition: no property code is given, or the name equals it. Used by `Named` and `ExtractedMembers`. |
| LookupExecutor.Partless | terminology/src/main/java/au/csiro/pathling/terminology/lookup/LookupExecutor.java:101 | A parameter is kept iff it has no parts. |
| LookupExecutor.Named | terminology/src/main/java/au/csiro/pathling/terminology/lookup/LookupExecutor.java:102 | A parameter is kept iff no property code is given or its name equals the code. |
| LookupExecutor.ToProperties | terminology/src/main/java/au/csiro/pathling/terminology/lookup/LookupExecutor.java:103 | One `Property(name, value)` per parameter, in order. |
| LookupExecutor.ToPropertiesAndDesignations | terminology/src/main/java/au/csiro/pathling/terminology/lookup/LookupExecutor.java:97-105 | The filter, filter and map pipeline computes the one-pass definition `Extracted`. |
| LookupExecutor.PipelineIsSinglePass | terminology/src/main/java/au/csiro/pathling/terminology/lookup/LookupExecutor.java:100-104 | The three-stage pipeline equals one pass that keeps each partless, name-matching parameter in order. |
| LookupExecutor.ExtractResult | terminology/src/main/java/au/csiro/pathling/terminology/lookup/LookupExecutor.java:87-90 | The response is extracted with the property the request asked for. |
| LookupExecutor.ExtractedMembers | terminology/src/main/java/au/csiro/pathling/terminology/lookup/LookupExecutor.java:100-103 | A property is extracted iff it comes from a partless response parameter whose name matches. |
| LookupExecutor.ExtractedKeepsAllWithoutCode | terminology/src/main/java/au/csiro/pathling/terminology/lookup/LookupExecutor.java:101-103 | Without a property code, extraction is the partless parameters of any response, each made a property, in order. |
| LookupExecutor.ExtractedAppend | terminology/src/main/java/au/csiro/pathling/terminology/lookup/LookupExecutor.java:100-104 | Extraction keeps the response order. |
| R4Conversion.IsURNReference | encoders/src/main/java/au/csiro/pathling/support/r4/R4FhirConversionSupport.java:69-71 | Definition: a reference string is present and starts with `urn:`. Properties in `ResolveChangesOnlyURNReferences`. |
| R4Conversion.Resolve | encoders/src/main/java/au/csiro/pathling/support/r4/R4FhirConversionSupport.java:73-78 | Definition of the reference string after resolution: a `urn:` reference with an attached resource takes that resource's id value; everything else keeps its string. Properties in `ResolveIdempotent` and `ResolveChangesOnlyURNReferences`. |
| R4Conversion.ResolveIdempotent | encoders/src/main/java/au/csiro/pathling/support/r4/R4FhirConversionSupport.java:73-78 | Resolving twice is resolving once, so an element reached along two paths ends up the same. |
| R4Conversion.ResolveChangesOnlyURNReferences | encoders/src/main/java/au/csiro/pathling/support/r4/R4FhirConversionSupport.java:69-78 | Only a reference whose string starts with `urn:` and that has an attached resource changes. Non-references and other references keep their string. |
| R4Conversion.ResolveURNReference | encoders/src/main/java/au/csiro/pathling/support/r4/R4FhirConversionSupport.java:73-78 | The reference string becomes the attached resource's id for a `urn:` reference with a resource, and is unchanged otherwise. |
| R4Conversion.ProcessTypeValue | encoders/src/main/java/au/csiro/pathling/support/r4/R4FhirConversionSupport.java:87-92 | Every element at or below the value, at any depth, holds the resolution of its original reference string. |
| R4Conversion.ResolveURNReferences | encoders/src/main/java/au/csiro/pathling/support/r4/R4FhirConversionSupport.java:80-85 | Every element strictly below the object is resolved, through every non-null child value in order; the object itself is left alone. |
| R4Conversion.ExtractEntryFromBundle | encoders/src/main/java/au/csiro/pathling/support/r4/R4FhirConversionSupport.java:57-66 | Exactly the entry resources that are instances of the class. |
| R4Conversion.ExtractEntryAppend | encoders/src/main/java/au/csiro/pathling/support/r4/R4FhirConversionSupport.java:62-65 | Extraction keeps the entry order. |
| R4Conversion.ResolveReferences | encoders/src/main/java/au/csiro/pathling/support/r4/R4FhirConversionSupport.java:97-106 | It succeeds iff every entry has a resource, and then returns the same bundle with everything below the entries resolved. Otherwise it fails at the first entry without one, with the earlier entries resolved and the rest untouched. |
| Referrer.ReferenceColumnFor | fhirpath/src/main/java/au/csiro/pathling/fhirpath/Referrer.java:34-49 | The `reference` field of the value struct, and null when there is no such field. |
| Referrer.ResourceEqualityFor | fhirpath/src/main/java/au/csiro/pathling/fhirpath/Referrer.java:78-82 | Null iff the reference, the code or the id is null. True iff the reference is the code, `/`, then the id. |
| Referrer.ResourceEqualityForPath | fhirpath/src/main/java/au/csiro/pathling/fhirpath/Referrer.java:58-67 | The target code is the resource type's code. The id is the current resource's id when there is one, otherwise the path's own. |
| Referrer.ReferenceRoundTrip | fhirpath/src/main/java/au/csiro/pathling/fhirpath/Referrer.java:39-82 | A literal reference built from a slash-free code and an id splits back, at its first slash, into that code and id. |
| Referrer.MatchIdentifiesTarget | fhirpath/src/main/java/au/csiro/pathling/fhirpath/Referrer.java:78-82 | A reference matches at most one target with a slash-free code. |

## Left out

- The expression parser, which is not part of this model, is a function parameter of the planner. The joins in its parse results are assumed to be in the join heap already.
- Spark execution is not modelled: lazy datasets, schemas, column names such as `index` and `field`, and catalyst. Column expressions are evaluated one row at a time on a small cell model, and a dataset is a sequence of rows.
- `Join.java`, with its `equals` and `compareTo`, is not part of this model.
  - Join equality is identity of the arena entry.
  - The `TreeSet` order is a fixed abstract injective order. It is not recomputed after the in-place updates at SparkQueryPlanner.java:198-202.
- The `assert` statements at SparkQueryPlanner.java:180 and :185 are off by default. Their failures are therefore modelled as the errors that follow: `NoAliasInvocation` for `group(1)` after a failed `find`, and `MissingUdtfExpression` for a missing table-generating expression.
- The regex at SparkQueryPlanner.java:175-176 is modelled for aliases without regex metacharacters, and `.` is treated as matching every character. Line terminators are not modelled.
- `tokenizePath` and `pathToUpperCamelCase` are not part of this model. The model assumes that tokenising splits on every `.` and that camel-casing capitalises each component with ASCII upper-casing and concatenates them.
- The grouping-table error keeps the set difference. It does not keep the message text that joins the tables in hash order.
- The `DefaultTerminologyService2` constructor and `close()` are left out because they only manage resources.
- The terminology client is abstract.
  - `TranslateMapping.entriesFromParameters` is folded into the client's `translate`, which returns the entries directly.
  - `getParameterBool("result")` is modelled as "the `result` parameter is present and true".
- `ConceptMapEquivalence.fromCode` and `ConceptSubsumptionOutcome.fromCode` are library code that is not part of this model. They are modelled from the FHIR R4 code lists, with the empty code decoding to null and an unknown code as an error.
- `LookupExecutor.buildRequest` is left out because it only passes the coding to the client's request builder, which is not part of this model. The `CacheableListCollector` is a plain list here.
- `R4Conversion.ResolveReferences`: an entry without a resource makes the Java code throw a `NullPointerException`. The model returns a `NullEntryResource` failure and states what has been resolved by then.
- Element children are fixed: only a reference's `reference` string is updated in place. HAPI's `children()`/`getValues()` is one sequence of child values per element, nulls included.
- `Referrer` is evaluated on the values of one row, not built as a Spark column. A reference cell that is not text is treated as SQL null.
- Join graphs with a cycle in `dependsUpon` are excluded: the heap's validity asks for a level that decreases along every dependency. The `while` at SparkQueryPlanner.java:152 would not end on such a graph, and the model does not capture that.
- `PathTraversal.Explode`: its own contract only bounds the row count. Row order, the source of each row and the positions are stated by `ExplodeAppend`, `ExplodeSources`, `ExplodeRow` and `ExplodeRowPositions`.

## Findings

| source | as written | input that shows it | evidently intended | confidence | as-written member | corrected member |
|---|---|---|---|---|---|---|
| terminology/src/main/java/au/csiro/pathling/terminology/DefaultTerminologyService2.java:115 | The code guard tests A's code twice (`codingA.getCode() == null \|\| codingA.getCode() == null`), so a missing code on B passes the guards and `required` throws at line 134 | A = (system "s", code "a"), B = (system "s", no code) | Guard B's code as well and answer not-subsumed | high, not executed | TerminologyService.SubsumesAsWrittenRefusesMissingCodeB | TerminologyService.SubsumesGuardsCodeB |
