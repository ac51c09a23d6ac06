/** The join records the query planner works on, the heap of join objects they live in, and the
    sorted sets (`TreeSet<Join>`) that hold them.

    Joins are objects that reference each other through `dependsUpon` and are updated in place by
    the planner, so they live in an arena, `JoinHeap`, and are addressed by index. The order of a
    `TreeSet<Join>` is taken as an abstract strict total order on joins, given by an injective
    `rank`: join `a` sorts before join `b` iff `rank(a) < rank(b)`. */
module Joins {
  import opened Wrappers

  /** The index of a join in the heap. */
  type JoinId = nat

  datatype JoinType = TableJoin | LateralView | InlineQuery

  /** One join: its SQL text, the expression it was created for, its kind, the alias it introduces,
      the table-generating expression of a lateral view, and the join it depends upon. */
  datatype Join = Join(
    expression: string,
    rootExpression: string,
    joinType: JoinType,
    tableAlias: string,
    udtfExpression: Option<string>,
    dependsUpon: Option<JoinId>)

  /** The order is strict and total: distinct joins never share a rank. */
  ghost predicate Injective(rank: JoinId -> int) {
    forall a, b :: rank(a) == rank(b) ==> a == b
  }

  /** The elements of a sorted set, in ascending order, each once. */
  ghost predicate Sorted(s: seq<JoinId>, rank: JoinId -> int) {
    forall i, j :: 0 <= i < j < |s| ==> rank(s[i]) < rank(s[j])
  }

  /** `TreeSet.add`: the element goes to its place in the order, unless it is already there. */
  function Insert(s: seq<JoinId>, x: JoinId, rank: JoinId -> int): (r: seq<JoinId>)
    requires Injective(rank) && Sorted(s, rank)
    ensures Sorted(r, rank)
    ensures forall y :: y in r <==> y in s || y == x
    decreases |s|
  {
    if s == [] then [x]
    else if rank(x) < rank(s[0]) then [x] + s
    else if x == s[0] then s
    else
      var tail := Insert(s[1..], x, rank);
      assert rank(s[0]) < rank(x);
      assert forall y :: y in s[1..] ==> rank(s[0]) < rank(y);
      assert forall y :: y in tail ==> rank(s[0]) < rank(y);
      [s[0]] + tail
  }

  /** Adding an element that sorts after every element appends it. */
  lemma {:induction false} InsertGreatest(s: seq<JoinId>, x: JoinId, rank: JoinId -> int)
    requires Injective(rank) && Sorted(s, rank)
    requires forall y :: y in s ==> rank(y) < rank(x)
    ensures Insert(s, x, rank) == s + [x]
    decreases |s|
  {
    if s != [] {
      assert s[0] in s;
      InsertGreatest(s[1..], x, rank);
      assert [s[0]] + (s[1..] + [x]) == s + [x];
    }
  }

  /** Adding an element that is already there changes nothing. */
  lemma {:induction false} InsertPresent(s: seq<JoinId>, x: JoinId, rank: JoinId -> int)
    requires Injective(rank) && Sorted(s, rank)
    requires x in s
    ensures Insert(s, x, rank) == s
    decreases |s|
  {
    if s[0] != x {
      assert rank(s[0]) < rank(x) by {
        var k :| 0 <= k < |s| && s[k] == x;
        assert k > 0;
      }
      assert x in s[1..];
      InsertPresent(s[1..], x, rank);
    }
  }

  /** The last element of a sorted set is its greatest (`TreeSet.last`). */
  lemma SortedLast(s: seq<JoinId>, rank: JoinId -> int)
    requires Sorted(s, rank) && |s| > 0
    ensures forall y :: y in s && y != s[|s| - 1] ==> rank(y) < rank(s[|s| - 1])
  {
    forall y | y in s && y != s[|s| - 1] ensures rank(y) < rank(s[|s| - 1]) {
      var k :| 0 <= k < |s| && s[k] == y;
    }
  }

  /** The first element of a sorted set is its least (`TreeSet.first`). */
  lemma SortedFirst(s: seq<JoinId>, rank: JoinId -> int)
    requires Sorted(s, rank) && |s| > 0
    ensures forall y :: y in s && y != s[0] ==> rank(s[0]) < rank(y)
  {
    forall y | y in s && y != s[0] ensures rank(s[0]) < rank(y) {
      var k :| 0 <= k < |s| && s[k] == y;
    }
  }

  /** A bound on the members of a sequence bounds each of its entries. */
  lemma EntriesBelow(s: seq<JoinId>, n: nat)
    requires forall y :: y in s ==> y < n
    ensures forall k :: 0 <= k < |s| ==> s[k] < n
  {
    forall k | 0 <= k < |s| ensures s[k] < n {
      assert s[k] in s;
    }
  }

  /** Adding every element of `xs` in turn (`addAll`). */
  function InsertEach(s: seq<JoinId>, xs: seq<JoinId>, rank: JoinId -> int): (r: seq<JoinId>)
    requires Injective(rank) && Sorted(s, rank)
    ensures Sorted(r, rank)
    ensures forall y :: y in r <==> y in s || y in xs
    decreases |xs|
  {
    if xs == [] then s
    else
      var r := InsertEach(Insert(s, xs[0], rank), xs[1..], rank);
      assert forall y :: y in xs <==> y == xs[0] || y in xs[1..];
      r
  }

  /** `dependsUpon` strictly lowers a level that every join carries: the joins form chains that end. */
  ghost predicate Ranked(nodes: seq<Join>, level: seq<nat>) {
    && |level| == |nodes|
    && forall i :: 0 <= i < |nodes| && nodes[i].dependsUpon.Some? ==>
         nodes[i].dependsUpon.value < |nodes| && level[nodes[i].dependsUpon.value] < level[i]
  }

  /** The joins met by following `dependsUpon` from `start`, `start` first. */
  ghost function Chain(nodes: seq<Join>, level: seq<nat>, start: JoinId): (c: seq<JoinId>)
    requires Ranked(nodes, level) && start < |nodes|
    ensures |c| >= 1 && c[0] == start && forall k :: 0 <= k < |c| ==> c[k] < |nodes|
    decreases level[start]
  {
    match nodes[start].dependsUpon
    case None => [start]
    case Some(d) => [start] + Chain(nodes, level, d)
  }

  /** A chain starts at its start, steps along `dependsUpon`, ends at a join that depends on nothing,
      and strictly descends in level (so it visits no join twice). */
  lemma {:induction false} ChainShape(nodes: seq<Join>, level: seq<nat>, start: JoinId)
    requires Ranked(nodes, level) && start < |nodes|
    ensures var c := Chain(nodes, level, start);
      && |c| >= 1 && c[0] == start
      && (forall k :: 0 <= k < |c| ==> c[k] < |nodes| && level[c[k]] <= level[start])
      && (forall k :: 0 <= k < |c| - 1 ==> nodes[c[k]].dependsUpon == Some(c[k + 1]))
      && nodes[c[|c| - 1]].dependsUpon.None?
      && (forall i, j :: 0 <= i < j < |c| ==> level[c[j]] < level[c[i]])
    decreases level[start]
  {
    match nodes[start].dependsUpon
    case None =>
    case Some(d) =>
      ChainShape(nodes, level, d);
      var c := Chain(nodes, level, start);
      var rest := Chain(nodes, level, d);
      assert c == [start] + rest;
      forall i, j | 0 <= i < j < |c| ensures level[c[j]] < level[c[i]] {
        if i > 0 {
          assert c[i] == rest[i - 1] && c[j] == rest[j - 1];
        } else {
          assert c[j] == rest[j - 1];
        }
      }
      forall k | 0 <= k < |c| - 1 ensures nodes[c[k]].dependsUpon == Some(c[k + 1]) {
        if k > 0 { assert c[k] == rest[k - 1] && c[k + 1] == rest[k]; }
      }
  }

  /** A chain only reads joins at or below its start's level: changing joins above that level, or
      adding new ones, does not change it. */
  lemma {:induction false} ChainFrame(nodes: seq<Join>, level: seq<nat>, nodes': seq<Join>, level': seq<nat>,
                                      start: JoinId, bound: nat)
    requires Ranked(nodes, level) && Ranked(nodes', level') && start < |nodes| <= |nodes'|
    requires level[start] <= bound
    requires forall i :: 0 <= i < |nodes| && level[i] <= bound ==> nodes'[i] == nodes[i] && level'[i] == level[i]
    ensures Chain(nodes', level', start) == Chain(nodes, level, start)
    decreases level[start]
  {
    match nodes[start].dependsUpon
    case None =>
    case Some(d) =>
      ChainFrame(nodes, level, nodes', level', d, bound);
  }

  /** The heap of join objects. `level` is proof-only: it shows that no `dependsUpon` chain cycles. */
  class JoinHeap {
    var nodes: seq<Join>
    ghost var level: seq<nat>

    ghost predicate Valid()
      reads this
    {
      Ranked(nodes, level)
    }

    constructor (initial: seq<Join>, ghost levels: seq<nat>)
      requires Ranked(initial, levels)
      ensures Valid() && nodes == initial && level == levels
    {
      nodes := initial;
      level := levels;
    }

    /** `new Join(expression, rootExpression, joinType, tableAlias)`: no table-generating expression
        and no dependency yet. */
    method NewJoin(expression: string, rootExpression: string, joinType: JoinType, tableAlias: string,
                   ghost atLevel: nat)
      returns (id: JoinId)
      requires Valid()
      modifies this
      ensures Valid()
      ensures id == old(|nodes|)
      ensures nodes == old(nodes) + [Join(expression, rootExpression, joinType, tableAlias, None, None)]
      ensures level == old(level) + [atLevel]
    {
      id := |nodes|;
      nodes := nodes + [Join(expression, rootExpression, joinType, tableAlias, None, None)];
      level := level + [atLevel];
    }

    /** `join.setDependsUpon(target)`. */
    method SetDependsUpon(id: JoinId, target: Option<JoinId>)
      requires Valid() && id < |nodes|
      requires target.Some? ==> target.value < |nodes| && level[target.value] < level[id]
      modifies this
      ensures Valid() && level == old(level)
      ensures nodes == old(nodes)[id := old(nodes)[id].(dependsUpon := target)]
    {
      nodes := nodes[id := nodes[id].(dependsUpon := target)];
    }

    /** `join.setExpression(expression)`. */
    method SetExpression(id: JoinId, expression: string)
      requires Valid() && id < |nodes|
      modifies this
      ensures Valid() && level == old(level)
      ensures nodes == old(nodes)[id := old(nodes)[id].(expression := expression)]
    {
      nodes := nodes[id := nodes[id].(expression := expression)];
    }
  }

  /** A `TreeSet<Join>`: its elements in ascending order. */
  class JoinSet {
    var elements: seq<JoinId>
    const rank: JoinId -> int

    ghost predicate Valid()
      reads this
    {
      Injective(rank) && Sorted(elements, rank)
    }

    constructor (rank: JoinId -> int)
      requires Injective(rank)
      ensures Valid() && elements == [] && this.rank == rank
    {
      elements := [];
      this.rank := rank;
    }

    predicate IsEmpty()
      reads this
    {
      elements == []
    }

    /** `last()`, absent where Java throws `NoSuchElementException`. */
    function Last(): (r: Option<JoinId>)
      requires Valid()
      reads this
      ensures r.None? <==> elements == []
      ensures r.Some? ==> r.value in elements && forall y :: y in elements ==> rank(y) <= rank(r.value)
    {
      if elements == [] then None
      else
        SortedLast(elements, rank);
        Some(elements[|elements| - 1])
    }

    /** `first()`, absent where Java throws `NoSuchElementException`. */
    function First(): (r: Option<JoinId>)
      requires Valid()
      reads this
      ensures r.None? <==> elements == []
      ensures r.Some? ==> r.value in elements && forall y :: y in elements ==> rank(r.value) <= rank(y)
    {
      if elements == [] then None
      else
        SortedFirst(elements, rank);
        Some(elements[0])
    }

    method Add(x: JoinId)
      requires Valid()
      modifies this
      ensures Valid()
      ensures elements == Insert(old(elements), x, rank)
    {
      elements := Insert(elements, x, rank);
    }

    /** `addAll(xs)`. */
    method AddAll(xs: seq<JoinId>)
      requires Valid()
      modifies this
      ensures Valid()
      ensures elements == InsertEach(old(elements), xs, rank)
    {
      var i := 0;
      while i < |xs|
        invariant 0 <= i <= |xs| && Valid()
        invariant InsertEach(elements, xs[i..], rank) == InsertEach(old(elements), xs, rank)
      {
        assert xs[i..][1..] == xs[i + 1..];
        Add(xs[i]);
        i := i + 1;
      }
    }

    method Clear()
      requires Valid()
      modifies this
      ensures Valid() && elements == []
    {
      elements := [];
    }
  }
}
