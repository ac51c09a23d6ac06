/** `Referrer`: matching the `Reference` values of a path to target resources. A FHIR R4 literal
    reference is the target's resource type, a slash, and the target's id. The column expressions
    are evaluated here on one row: a cell value, or `None` for SQL null. */
module Referrer {
  import opened Wrappers
  import opened PathTraversal

  /** The field of a `Reference` struct that holds the reference string. */
  const REFERENCE_FIELD_NAME: string := "reference"

  /** The separator between the resource type and the id in a literal reference. */
  const PATH_SEPARATOR: string := "/"

  /** `referenceColumnFor`: the `reference` field of the referrer's value; null when the value has no
      such field. */
  function ReferenceColumnFor(value: Cell): (c: Cell)
    ensures value.Struct? && "reference" in value.fields ==> c == value.fields["reference"]
    ensures !(value.Struct? && "reference" in value.fields) ==> c == Null
  {
    GetField(value, REFERENCE_FIELD_NAME)
  }

  /** A cell as an SQL string: a text cell is its text, anything else is null. */
  function AsText(c: Cell): Option<string> {
    if c.Text? then Some(c.s) else None
  }

  /** `equalTo(concat(targetCode, lit("/"), targetId))` on the reference: null when the reference, the
      code or the id is null (SQL `concat` and `=` propagate null), otherwise whether the reference
      string is the code, a slash and the id. */
  function ResourceEqualityFor(value: Cell, targetCode: Option<string>, targetId: Option<string>): (r: Option<bool>)
    ensures r.None? <==> AsText(ReferenceColumnFor(value)).None? || targetCode.None? || targetId.None?
    ensures r == Some(true) <==>
      && AsText(ReferenceColumnFor(value)).Some? && targetCode.Some? && targetId.Some?
      && AsText(ReferenceColumnFor(value)).value == targetCode.value + PATH_SEPARATOR + targetId.value
  {
    var reference := AsText(ReferenceColumnFor(value));
    if reference.None? || targetCode.None? || targetId.None? then None
    else Some(reference.value == targetCode.value + PATH_SEPARATOR + targetId.value)
  }

  /** A resource path as a join target: the code of its resource type, the value of its id column, and
      the current resource it stands for, if any. */
  datatype ResourcePath = ResourcePath(resourceTypeCode: string, id: Option<string>, currentResource: Option<ResourcePath>)

  /** `resourceEqualityFor` on a resource path: the code is the path's resource type; the id is the
      current resource's id when there is a current resource, otherwise the path's own. */
  function ResourceEqualityForPath(value: Cell, target: ResourcePath): (r: Option<bool>)
    ensures target.currentResource.Some? ==>
      r == ResourceEqualityFor(value, Some(target.resourceTypeCode), target.currentResource.value.id)
    ensures target.currentResource.None? ==> r == ResourceEqualityFor(value, Some(target.resourceTypeCode), target.id)
  {
    var targetId := if target.currentResource.Some? then target.currentResource.value.id else target.id;
    ResourceEqualityFor(value, Some(target.resourceTypeCode), targetId)
  }

  /** The position of the first slash in `s`, or `|s|` when there is none. */
  function SlashIndex(s: string): (k: nat)
    ensures k <= |s|
    ensures k < |s| ==> s[k] == '/'
    ensures forall j :: 0 <= j < k ==> s[j] != '/'
    decreases |s|
  {
    if s == [] || s[0] == '/' then 0 else 1 + SlashIndex(s[1..])
  }

  /** Reading a literal reference back: the text before the first slash and the text after it. */
  function SplitReference(s: string): (r: Option<(string, string)>)
    ensures r.Some? ==> r.value.0 + PATH_SEPARATOR + r.value.1 == s && '/' !in r.value.0
    ensures r.None? <==> '/' !in s
  {
    var k := SlashIndex(s);
    if k == |s| then None
    else
      assert s == s[..k] + "/" + s[k + 1..];
      Some((s[..k], s[k + 1..]))
  }

  /** A literal reference built from a resource type code (which never holds a slash) is read back as
      that code and the id. */
  lemma ReferenceRoundTrip(code: string, id: string)
    requires '/' !in code
    ensures SplitReference(code + PATH_SEPARATOR + id) == Some((code, id))
  {
    var s := code + PATH_SEPARATOR + id;
    var k := SlashIndex(s);
    assert s[|code|] == '/';
    assert forall j :: 0 <= j < |code| ==> s[j] == code[j];
    assert k == |code|;
    assert s[..k] == code && s[k + 1..] == id;
  }

  /** A reference matches at most one target: two matching (code, id) pairs with slash-free codes are
      the same pair. */
  lemma MatchIdentifiesTarget(value: Cell, code1: string, id1: string, code2: string, id2: string)
    requires '/' !in code1 && '/' !in code2
    requires ResourceEqualityFor(value, Some(code1), Some(id1)) == Some(true)
    requires ResourceEqualityFor(value, Some(code2), Some(id2)) == Some(true)
    ensures code1 == code2 && id1 == id2
  {
    ReferenceRoundTrip(code1, id1);
    ReferenceRoundTrip(code2, id2);
  }
}
