/** FHIRPath path selection (`PathTraversalOperator.invoke`): moving from an element to one of its
    child elements. A dataset is a sequence of rows and a column is an expression evaluated on a
    row; the operator keeps every input column and appends two columns, `index` and `field`. */
module PathTraversal {
  import opened Wrappers

  /** A cell of a row. `Eid` is an element identity: the positions walked to reach an element. */
  datatype Cell =
    | Null
    | Int(i: int)
    | Text(s: string)
    | Eid(indices: seq<int>)
    | Struct(fields: map<string, Cell>)
    | Array(items: seq<Cell>)

  type Row = seq<Cell>

  /** A column expression: a reference to a position of the row, or the element identity built by
      the operator (`when(index.isNull(), null).otherwise(concat(base, array(index)))`). */
  datatype Column =
    | Col(position: nat)
    | EidAppend(indexPosition: nat, base: Column)

  /** The value of a column on a row; a reference beyond the row is null. */
  function Eval(row: Row, c: Column): Cell
    decreases c
  {
    match c
    case Col(p) => if p < |row| then row[p] else Null
    case EidAppend(p, base) =>
      var index := if p < |row| then row[p] else Null;
      var prefix := Eval(row, base);
      if index.Null? then Null
      else if index.Int? && prefix.Eid? then Eid(prefix.indices + [index.i])
      else Null
  }

  /** Every position the column reads is below `width`. */
  predicate ReadsBelow(c: Column, width: nat)
    decreases c
  {
    match c
    case Col(p) => p < width
    case EidAppend(p, base) => p < width && ReadsBelow(base, width)
  }

  /** Appending cells to a row does not change the value of a column that reads only its prefix. */
  lemma {:induction false} EvalPrefix(row: Row, extra: Row, c: Column)
    requires ReadsBelow(c, |row|)
    ensures Eval(row + extra, c) == Eval(row, c)
    decreases c
  {
    match c
    case Col(p) =>
    case EidAppend(p, base) => EvalPrefix(row, extra, base);
  }

  /** `Column.getField(name)`: the named field of a struct, null otherwise. */
  function GetField(v: Cell, name: string): Cell {
    if v.Struct? && name in v.fields then v.fields[name] else Null
  }

  datatype ElementDefinition = ElementDefinition(name: string, maxCardinality: int)

  /** The left operand: a literal, or a non-literal path over a dataset of rows `width` cells wide. */
  datatype Path =
    | LiteralPath(expression: string)
    | NonLiteralPath(
        expression: string,
        dataset: seq<Row>,
        width: nat,
        idColumn: Column,
        eidColumn: Option<Column>,
        valueColumn: Column,
        singular: bool,
        foreignResource: Option<string>,
        thisColumn: Option<Column>,
        children: map<string, ElementDefinition>)

  /** The operands: the left path, the child name, and the expression of the input context. */
  datatype PathTraversalInput = PathTraversalInput(left: Path, right: string, inputContextExpression: string)

  datatype ElementPath = ElementPath(
    expression: string,
    dataset: seq<Row>,
    idColumn: Column,
    eidColumn: Column,
    valueColumn: Column,
    singular: bool,
    foreignResource: Option<string>,
    thisColumn: Option<Column>,
    definition: ElementDefinition)

  datatype TraversalError =
    | InvalidUserInput(message: string)
      /** The left path has no element identity column (`Optional.get` on an empty optional). */
    | MissingEidColumn

  /** The left path is well formed: every row is `width` cells wide and every column reads within it. */
  ghost predicate WellFormed(left: Path) {
    && left.NonLiteralPath?
    && (forall k :: 0 <= k < |left.dataset| ==> |left.dataset[k]| == left.width)
    && ReadsBelow(left.idColumn, left.width) && ReadsBelow(left.valueColumn, left.width)
    && (left.eidColumn.Some? ==> ReadsBelow(left.eidColumn.value, left.width))
    && (left.thisColumn.Some? ==> ReadsBelow(left.thisColumn.value, left.width))
  }

  /** The expression of the result: the child alone when the left side is the input context itself
      (`gender` rather than `Patient.gender`), otherwise the two joined with a dot. */
  function TraversalExpression(leftExpression: string, right: string, inputContextExpression: string): (e: string)
    ensures leftExpression == inputContextExpression ==> e == right
    ensures leftExpression != inputContextExpression ==>
      && |e| == |leftExpression| + 1 + |right|
      && e[..|leftExpression|] == leftExpression && e[|leftExpression|] == '.' && e[|leftExpression| + 1..] == right
  {
    if leftExpression == inputContextExpression then right else leftExpression + "." + right
  }

  /** One row for a child of maximum cardinality one: the input row, then index 0 (null when the field
      is null), then the field. */
  function SingularRow(row: Row, value: Column, right: string): (out: Row)
    ensures |out| == |row| + 2 && out[..|row|] == row
    ensures out[|row| + 1] == GetField(Eval(row, value), right)
    ensures out[|row|] == (if GetField(Eval(row, value), right).Null? then Null else Int(0))
  {
    var field := GetField(Eval(row, value), right);
    row + [if field.Null? then Null else Int(0), field]
  }

  /** The rows `posexplode_outer` makes of one input row: one per element of a non-empty array, with
      its position; a single row of nulls when the field is null, empty or not an array. */
  function ExplodeRow(row: Row, value: Column, right: string): (out: seq<Row>)
    ensures |out| >= 1
    ensures forall k :: 0 <= k < |out| ==> |out[k]| == |row| + 2 && out[k][..|row|] == row
                                           && (out[k][|row|].Null? || out[k][|row|].Int?)
  {
    var field := GetField(Eval(row, value), right);
    if field.Array? && |field.items| > 0 then
      seq(|field.items|, k requires 0 <= k < |field.items| => row + [Int(k), field.items[k]])
    else [row + [Null, Null]]
  }

  /** Exploding a non-empty array numbers its elements 0 .. N-1 in order and carries each element as
      the field: reading the two new columns back gives the array and its positions. */
  lemma ExplodeRowPositions(row: Row, value: Column, right: string)
    requires GetField(Eval(row, value), right).Array?
    requires |GetField(Eval(row, value), right).items| > 0
    ensures var items := GetField(Eval(row, value), right).items;
      var out := ExplodeRow(row, value, right);
      && |out| == |items|
      && seq(|out|, k requires 0 <= k < |out| => out[k][|row| + 1]) == items
      && forall k :: 0 <= k < |out| ==> out[k][|row|] == Int(k)
  {
  }

  /** A null, empty or non-array field still keeps its row, with a null index and a null field. */
  lemma ExplodeRowOuter(row: Row, value: Column, right: string)
    requires var f := GetField(Eval(row, value), right); !(f.Array? && |f.items| > 0)
    ensures ExplodeRow(row, value, right) == [row + [Null, Null]]
  {
  }

  /** `leftDataset.select(allColumns)` for a repeating child: the exploded rows of every input row, in
      order. */
  function Explode(rows: seq<Row>, value: Column, right: string): (out: seq<Row>)
    ensures |out| >= |rows|
    decreases |rows|
  {
    if rows == [] then [] else ExplodeRow(rows[0], value, right) + Explode(rows[1..], value, right)
  }

  /** Exploding keeps the order of the input rows: the rows of a later input row come after. */
  lemma {:induction false} ExplodeAppend(rows: seq<Row>, row: Row, value: Column, right: string)
    ensures Explode(rows + [row], value, right) == Explode(rows, value, right) + ExplodeRow(row, value, right)
    decreases |rows|
  {
    if rows == [] {
      assert Explode([row], value, right) == ExplodeRow(row, value, right) + Explode([], value, right);
    } else {
      assert (rows + [row])[1..] == rows[1..] + [row];
      ExplodeAppend(rows[1..], row, value, right);
    }
  }

  /** `out` is one of `rows` followed by an index (null or an integer) and a field. */
  ghost predicate Extends(out: Row, rows: seq<Row>) {
    |out| >= 2 && out[..|out| - 2] in rows && (out[|out| - 2].Null? || out[|out| - 2].Int?)
  }

  /** Every exploded row is an input row followed by an index and a field. */
  lemma {:induction false} ExplodeSources(rows: seq<Row>, value: Column, right: string)
    ensures forall k :: 0 <= k < |Explode(rows, value, right)| ==> Extends(Explode(rows, value, right)[k], rows)
    decreases |rows|
  {
    if rows != [] {
      ExplodeSources(rows[1..], value, right);
      var head := ExplodeRow(rows[0], value, right);
      var tail := Explode(rows[1..], value, right);
      var out := Explode(rows, value, right);
      forall k | 0 <= k < |out| ensures Extends(out[k], rows) {
        if k < |head| {
          assert out[k] == head[k];
          assert |out[k]| - 2 == |rows[0]|;
        } else {
          assert out[k] == tail[k - |head|];
          assert Extends(tail[k - |head|], rows[1..]);
          assert forall x :: x in rows[1..] ==> x in rows;
        }
      }
    }
  }

  /** `invoke`. */
  function Invoke(input: PathTraversalInput): (r: Result<ElementPath, TraversalError>)
    ensures input.left.LiteralPath? ==>
      r == Failure(InvalidUserInput("Path traversal operator cannot be invoked on a literal value: " + input.left.expression))
    ensures input.left.NonLiteralPath? && input.right !in input.left.children ==>
      r == Failure(InvalidUserInput("No such child: " +
                   TraversalExpression(input.left.expression, input.right, input.inputContextExpression)))
    ensures input.left.NonLiteralPath? && input.right in input.left.children && input.left.eidColumn.None? ==>
      r == Failure(MissingEidColumn)
    ensures r.Success? <==> input.left.NonLiteralPath? && input.right in input.left.children && input.left.eidColumn.Some?
    ensures r.Success? ==>
      var left := input.left;
      var child := left.children[input.right];
      && r.value.expression == TraversalExpression(left.expression, input.right, input.inputContextExpression)
      && r.value.definition == child
      && (r.value.singular <==> left.singular && child.maxCardinality == 1)
      && r.value.idColumn == left.idColumn && r.value.foreignResource == left.foreignResource
      && r.value.thisColumn == left.thisColumn
      && r.value.valueColumn == Col(left.width + 1)
      && r.value.eidColumn == EidAppend(left.width, left.eidColumn.value)
      && r.value.dataset == if child.maxCardinality == 1
                           then seq(|left.dataset|, k requires 0 <= k < |left.dataset| => SingularRow(left.dataset[k], left.valueColumn, input.right))
                           else Explode(left.dataset, left.valueColumn, input.right)
  {
    match input.left
    case LiteralPath(e) =>
      Failure(InvalidUserInput("Path traversal operator cannot be invoked on a literal value: " + e))
    case NonLiteralPath(leftExpression, dataset, width, idColumn, eidColumn, valueColumn, singular, foreignResource, thisColumn, children) =>
      var right := input.right;
      var expression := TraversalExpression(leftExpression, right, input.inputContextExpression);
      if right !in children then Failure(InvalidUserInput("No such child: " + expression))
      else
        var child := children[right];
        if eidColumn.None? then Failure(MissingEidColumn)
        else
          var maxCardinalityOfOne := child.maxCardinality == 1;
          var exploded :=
            if maxCardinalityOfOne
            then seq(|dataset|, k requires 0 <= k < |dataset| => SingularRow(dataset[k], valueColumn, right))
            else Explode(dataset, valueColumn, right);
          Success(ElementPath(expression, exploded, idColumn, EidAppend(width, eidColumn.value), Col(width + 1),
                              singular && maxCardinalityOfOne, foreignResource, thisColumn, child))
  }

  /** For a child of maximum cardinality one the rows stay one-to-one with the input: each keeps its
      input cells, its value is the child field, and its index is 0, or null exactly when the field is. */
  lemma InvokeSingularRows(input: PathTraversalInput)
    requires WellFormed(input.left) && Invoke(input).Success?
    requires input.left.children[input.right].maxCardinality == 1
    ensures var left := input.left;
      var out := Invoke(input).value;
      && |out.dataset| == |left.dataset|
      && forall k :: 0 <= k < |out.dataset| ==>
           var field := GetField(Eval(left.dataset[k], left.valueColumn), input.right);
           && out.dataset[k][..left.width] == left.dataset[k]
           && Eval(out.dataset[k], out.valueColumn) == field
           && (Eval(out.dataset[k], Col(left.width)).Null? <==> field.Null?)
           && (!field.Null? ==> Eval(out.dataset[k], Col(left.width)) == Int(0))
  {
  }

  /** Every output row of the traversal is an input row followed by an index and a field. */
  lemma InvokeRows(input: PathTraversalInput)
    requires WellFormed(input.left) && Invoke(input).Success?
    ensures forall k :: 0 <= k < |Invoke(input).value.dataset| ==>
      Extends(Invoke(input).value.dataset[k], input.left.dataset)
  {
    var left := input.left;
    if left.children[input.right].maxCardinality == 1 {
      var out := Invoke(input).value.dataset;
      forall k | 0 <= k < |out| ensures Extends(out[k], left.dataset) {
        assert out[k][..|out[k]| - 2] == left.dataset[k];
      }
    } else {
      ExplodeSources(left.dataset, left.valueColumn, input.right);
    }
  }

  /** The element identity on one output row. */
  lemma RowEid(row: Row, width: nat, eid: Column)
    requires |row| == width + 2 && ReadsBelow(eid, width)
    requires row[width].Null? || row[width].Int?
    ensures var source := row[..width];
      var value := Eval(row, EidAppend(width, eid));
      && (value.Null? <==> (row[width].Null? || !Eval(source, eid).Eid?))
      && (row[width].Int? && Eval(source, eid).Eid? ==> value == Eid(Eval(source, eid).indices + [row[width].i]))
  {
    assert row == row[..width] + [row[width], row[width + 1]];
    EvalPrefix(row[..width], [row[width], row[width + 1]], eid);
  }

  /** The element identity of every output row is null exactly when its index is (or the left one is
      null), and is otherwise the left element identity of its input row with the index appended. */
  lemma InvokeEid(input: PathTraversalInput)
    requires WellFormed(input.left) && Invoke(input).Success?
    ensures var left := input.left;
      var out := Invoke(input).value;
      forall k :: 0 <= k < |out.dataset| ==>
        && |out.dataset[k]| == left.width + 2
        && (var row := out.dataset[k];
            var source := row[..left.width];
            var index := Eval(row, Col(left.width));
            && (Eval(row, out.eidColumn).Null? <==> (index.Null? || !Eval(source, left.eidColumn.value).Eid?))
            && (index.Int? && Eval(source, left.eidColumn.value).Eid? ==>
                  Eval(row, out.eidColumn) == Eid(Eval(source, left.eidColumn.value).indices + [index.i])))
  {
    var left := input.left;
    var out := Invoke(input).value;
    InvokeRows(input);
    forall k | 0 <= k < |out.dataset|
      ensures |out.dataset[k]| == left.width + 2
      ensures var row := out.dataset[k];
        var index := Eval(row, Col(left.width));
        && (Eval(row, out.eidColumn).Null? <==> (index.Null? || !Eval(row[..left.width], left.eidColumn.value).Eid?))
        && (index.Int? && Eval(row[..left.width], left.eidColumn.value).Eid? ==>
              Eval(row, out.eidColumn) == Eid(Eval(row[..left.width], left.eidColumn.value).indices + [index.i]))
    {
      var row := out.dataset[k];
      assert Extends(row, left.dataset);
      RowEid(row, left.width, left.eidColumn.value);
    }
  }

  /** Every output row is an input row followed by the index and the field, so all input columns, and
      the id and `$this` columns, keep their values. */
  lemma InvokeKeepsColumns(input: PathTraversalInput)
    requires WellFormed(input.left) && Invoke(input).Success?
    ensures var left := input.left;
      var out := Invoke(input).value;
      forall k :: 0 <= k < |out.dataset| ==>
        && |out.dataset[k]| == left.width + 2
        && out.dataset[k][..left.width] in left.dataset
        && Eval(out.dataset[k], out.idColumn) == Eval(out.dataset[k][..left.width], left.idColumn)
        && (left.thisColumn.Some? ==>
              Eval(out.dataset[k], out.thisColumn.value) == Eval(out.dataset[k][..left.width], left.thisColumn.value))
  {
    var left := input.left;
    var out := Invoke(input).value;
    InvokeRows(input);
    forall k | 0 <= k < |out.dataset|
      ensures && |out.dataset[k]| == left.width + 2
              && out.dataset[k][..left.width] in left.dataset
              && Eval(out.dataset[k], out.idColumn) == Eval(out.dataset[k][..left.width], left.idColumn)
              && (left.thisColumn.Some? ==>
                    Eval(out.dataset[k], out.thisColumn.value) == Eval(out.dataset[k][..left.width], left.thisColumn.value))
    {
      var row := out.dataset[k];
      assert Extends(row, left.dataset);
      assert |row| == left.width + 2;
      assert row == row[..left.width] + [row[left.width], row[left.width + 1]];
      EvalPrefix(row[..left.width], [row[left.width], row[left.width + 1]], left.idColumn);
      if left.thisColumn.Some? {
        EvalPrefix(row[..left.width], [row[left.width], row[left.width + 1]], left.thisColumn.value);
      }
    }
  }
}
