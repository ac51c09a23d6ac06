/** FHIR R4 bundle support (`R4FhirConversionSupport`): picking the entry resources of one class out
    of a bundle, and resolving `urn:` references in place to the id of the resource attached to them.
    An element of a resource is an object whose children are fixed; only a reference's `reference`
    string is updated. */
module R4Conversion {
  import opened Wrappers
  import opened Strings

  /** The resource attached to a reference (`Reference.getResource()`), seen through the value of its
      id element, which may be absent. */
  datatype AttachedResource = AttachedResource(idValue: Option<string>)

  /** An element of a FHIR resource: whether it is a `Reference` (with its reference string and
      attached resource), and the values of all its child properties in order (`children()` flattened
      through `getValues()`), nulls included. */
  class Element {
    const isReference: bool
    var reference: Option<string>
    const resource: Option<AttachedResource>
    const children: seq<Element?>
    /** The element and everything below it. */
    ghost const Repr: set<Element>

    /** A leaf element (or reference) with the given children, none of which reaches it. */
    constructor (isReference: bool, reference: Option<string>, resource: Option<AttachedResource>,
                 children: seq<Element>)
      requires forall k :: 0 <= k < |children| ==> Wf(children[k])
      ensures this.isReference == isReference && this.reference == reference
      ensures this.resource == resource && this.children == children
      ensures Wf(this)
    {
      this.isReference := isReference;
      this.reference := reference;
      this.resource := resource;
      this.children := children;
      this.Repr := {this} + ReprOf(children);
      new;
      ReprOfCovers(children);
    }
  }

  /** A bundle: its entries' resources, in order; an entry without a resource is null. */
  class Bundle {
    const entries: seq<Element?>
    /** Everything below the entries' resources. */
    ghost const Below: set<Element>

    constructor (entries: seq<Element?>)
      requires forall k :: 0 <= k < |entries| && entries[k] != null ==> Wf(entries[k])
      ensures this.entries == entries
      ensures Valid(this)
    {
      this.entries := entries;
      this.Below := BelowOf(entries);
    }
  }

  /** The non-null entry resources are well formed and `Below` is what lies below them. */
  ghost predicate Valid(bundle: Bundle) {
    && bundle.Below == BelowOf(bundle.entries)
    && forall k :: 0 <= k < |bundle.entries| && bundle.entries[k] != null ==> Wf(bundle.entries[k])
  }

  /** The footprint of `e` is exactly `e` and the footprints of its non-null children, none of which
      reaches `e` again. */
  ghost predicate Closed(e: Element) {
    && e in e.Repr
    && (forall x :: x in e.Repr ==> x == e || exists k :: 0 <= k < |e.children| && e.children[k] != null && x in e.children[k].Repr)
    && forall k :: 0 <= k < |e.children| && e.children[k] != null ==> e.children[k].Repr <= e.Repr && e !in e.children[k].Repr
  }

  /** Every element below `e` is closed: the elements form a finite tree, possibly with shared
      subtrees. */
  ghost predicate Wf(e: Element)
    decreases e.Repr
  {
    && Closed(e)
    && forall k :: 0 <= k < |e.children| && e.children[k] != null ==> Wf(e.children[k])
  }

  /** The union of the footprints of the non-null nodes. */
  ghost function ReprOf(nodes: seq<Element?>): set<Element>
    decreases |nodes|
  {
    if nodes == [] then {}
    else ReprOf(nodes[..|nodes| - 1]) + (if nodes[|nodes| - 1] == null then {} else nodes[|nodes| - 1].Repr)
  }

  /** `ReprOf` is the union of the nodes' footprints. */
  lemma {:induction false} ReprOfCovers(nodes: seq<Element?>)
    ensures forall k :: 0 <= k < |nodes| && nodes[k] != null ==> nodes[k].Repr <= ReprOf(nodes)
    ensures forall x :: x in ReprOf(nodes) ==> exists k :: 0 <= k < |nodes| && nodes[k] != null && x in nodes[k].Repr
    decreases |nodes|
  {
    if nodes != [] {
      var init := nodes[..|nodes| - 1];
      ReprOfCovers(init);
      assert forall k :: 0 <= k < |init| ==> init[k] == nodes[k];
      forall x | x in ReprOf(nodes) ensures exists k :: 0 <= k < |nodes| && nodes[k] != null && x in nodes[k].Repr {
        if x in ReprOf(init) {
          var k :| 0 <= k < |init| && init[k] != null && x in init[k].Repr;
          assert nodes[k] == init[k];
        }
      }
    }
  }

  /** Everything strictly below the non-null nodes: their footprints without the nodes themselves. */
  ghost function BelowOf(nodes: seq<Element?>): set<Element>
    decreases |nodes|
  {
    if nodes == [] then {}
    else BelowOf(nodes[..|nodes| - 1]) + (if nodes[|nodes| - 1] == null then {} else nodes[|nodes| - 1].Repr - {nodes[|nodes| - 1]})
  }

  /** `isURNReference`: the reference has a reference string and it starts with `urn:`. */
  predicate IsURNReference(reference: Option<string>) {
    reference.Some? && StartsWith(reference.value, "urn:")
  }

  /** The reference string an element ends up with: a `urn:` reference with an attached resource takes
      that resource's id value; every other element keeps what it had. */
  function Resolve(isReference: bool, reference: Option<string>, resource: Option<AttachedResource>): Option<string> {
    if isReference && IsURNReference(reference) && resource.Some? then resource.value.idValue else reference
  }

  /** Resolving twice is resolving once, so an element reached along two paths ends up the same. */
  lemma ResolveIdempotent(isReference: bool, reference: Option<string>, resource: Option<AttachedResource>)
    ensures Resolve(isReference, Resolve(isReference, reference, resource), resource) == Resolve(isReference, reference, resource)
  {
  }

  /** Only a `urn:` reference with an attached resource changes. */
  lemma ResolveChangesOnlyURNReferences(isReference: bool, reference: Option<string>, resource: Option<AttachedResource>)
    ensures Resolve(isReference, reference, resource) != reference ==>
      isReference && IsURNReference(reference) && resource.Some? && resource.value.idValue != reference
  {
  }

  /** `resolveURNReference`. */
  method ResolveURNReference(reference: Element)
    requires reference.isReference
    modifies reference
    ensures reference.reference == Resolve(true, old(reference.reference), reference.resource)
  {
    var resource := reference.resource;
    if IsURNReference(reference.reference) && resource.Some? {
      reference.reference := resource.value.idValue;
    }
  }

  /** Every element of `s` holds the resolution of the reference string it had on entry. */
  twostate predicate ResolvedIn(s: set<Element>)
    reads s
  {
    forall x :: x in s ==> x.reference == Resolve(x.isReference, old(x.reference), x.resource)
  }

  /** Part way through a walk over `all`: the elements of `done` are resolved, the rest still hold the
      reference string they had on entry. */
  twostate predicate Progress(all: set<Element>, done: set<Element>)
    reads all
  {
    forall x :: x in all ==>
      x.reference == if x in done then Resolve(x.isReference, old(x.reference), x.resource) else old(x.reference)
  }

  /** `processTypeValue`: resolves the element itself when it is a reference, then everything below. */
  method ProcessTypeValue(element: Element)
    requires Wf(element)
    modifies element.Repr
    ensures ResolvedIn(element.Repr)
    decreases element.Repr, 1
  {
    if element.isReference {
      ResolveURNReference(element);
    }
    ResolveURNReferences(element);
  }

  /** `resolveURNReferences`: processes every non-null child value in order, which resolves everything
      below the element and leaves the element itself alone. */
  method ResolveURNReferences(element: Element)
    requires Wf(element)
    modifies element.Repr - {element}
    ensures ResolvedIn(element.Repr - {element})
    decreases element.Repr, 0
  {
    var children := element.children;
    ghost var below := element.Repr - {element};
    BelowIsChildren(element);
    ghost var done: set<Element> := {};
    var i := 0;
    while i < |children|
      invariant 0 <= i <= |children|
      invariant done == ReprOf(children[..i]) && done <= below
      invariant Progress(below, done)
    {
      var child := children[i];
      ReprOfGrows(children, i);
      if child != null {
        assert Wf(child) && child.Repr <= below;
        label before:
        ProcessTypeValue(child);
        forall x | x in below
          ensures x.reference == if x in done + child.Repr then Resolve(x.isReference, old(x.reference), x.resource) else old(x.reference)
        {
          if x in child.Repr {
            assert x.reference == Resolve(x.isReference, old@before(x.reference), x.resource);
            ResolveIdempotent(x.isReference, old(x.reference), x.resource);
          }
        }
        done := done + child.Repr;
      }
      i := i + 1;
    }
    assert children[..|children|] == children;
  }

  /** Below an element are exactly the footprints of its children, each well formed. */
  lemma BelowIsChildren(e: Element)
    requires Wf(e)
    ensures e.Repr - {e} == ReprOf(e.children)
    ensures forall k :: 0 <= k < |e.children| && e.children[k] != null ==>
      Wf(e.children[k]) && e.children[k].Repr <= e.Repr - {e}
  {
    ClosedBelow(e);
  }

  /** For a closed element, what lies below it is the union of its children's footprints. */
  lemma ClosedBelow(e: Element)
    requires Closed(e)
    ensures e.Repr - {e} == ReprOf(e.children)
    ensures forall k :: 0 <= k < |e.children| && e.children[k] != null ==> e.children[k].Repr <= e.Repr - {e}
  {
    ReprOfCovers(e.children);
    forall x | x in e.Repr - {e} ensures x in ReprOf(e.children) {
      var k :| 0 <= k < |e.children| && e.children[k] != null && x in e.children[k].Repr;
    }
    forall x | x in ReprOf(e.children) ensures x in e.Repr - {e} {
      var k :| 0 <= k < |e.children| && e.children[k] != null && x in e.children[k].Repr;
    }
  }

  /** The footprints of the first `i + 1` nodes are those of the first `i` and that of node `i`, all
      of them within the footprints of all nodes. */
  lemma ReprOfGrows(nodes: seq<Element?>, i: nat)
    requires i < |nodes|
    ensures ReprOf(nodes[..i + 1]) == ReprOf(nodes[..i]) + (if nodes[i] == null then {} else nodes[i].Repr)
    ensures ReprOf(nodes[..i + 1]) <= ReprOf(nodes)
  {
    var prefix := nodes[..i + 1];
    assert prefix[..i] == nodes[..i];
    ReprOfCovers(prefix);
    ReprOfCovers(nodes);
    forall x | x in ReprOf(prefix) ensures x in ReprOf(nodes) {
      var k :| 0 <= k < |prefix| && prefix[k] != null && x in prefix[k].Repr;
      assert nodes[k] == prefix[k];
    }
  }

  /** `extractEntryFromBundle`: the entry resources that are instances of the requested class, in
      order (`isInstance` is false for an entry without a resource). */
  function ExtractEntryFromBundle<R>(entries: seq<R>, isInstance: R -> bool): (r: seq<R>)
    ensures |r| <= |entries|
    ensures forall k :: 0 <= k < |r| ==> r[k] in entries && isInstance(r[k])
    ensures forall k :: 0 <= k < |entries| && isInstance(entries[k]) ==> entries[k] in r
    decreases |entries|
  {
    if entries == [] then []
    else if isInstance(entries[0]) then [entries[0]] + ExtractEntryFromBundle(entries[1..], isInstance)
    else ExtractEntryFromBundle(entries[1..], isInstance)
  }

  /** Extraction keeps the entry order: the resources of a later entry come after. */
  lemma {:induction false} ExtractEntryAppend<R>(entries: seq<R>, e: R, isInstance: R -> bool)
    ensures ExtractEntryFromBundle(entries + [e], isInstance)
            == ExtractEntryFromBundle(entries, isInstance) + ExtractEntryFromBundle([e], isInstance)
    decreases |entries|
  {
    if entries != [] {
      assert (entries + [e])[1..] == entries[1..] + [e];
      ExtractEntryAppend(entries[1..], e, isInstance);
    }
  }

  datatype ConversionError =
      /** `resolveURNReferences` of an entry without a resource dereferences null. */
    | NullEntryResource(index: nat)

  /** Part way through `resolveReferences`: everything below the first `n` entries is resolved, the
      rest of the bundle still holds the reference strings it had on entry. */
  twostate predicate EntriesResolved(bundle: Bundle, n: nat)
    requires n <= |bundle.entries|
    reads bundle.Below
  {
    forall x :: x in bundle.Below ==>
      x.reference == if x in BelowOf(bundle.entries[..n]) then Resolve(x.isReference, old(x.reference), x.resource) else old(x.reference)
  }

  /** `resolveReferences`: resolves everything below each entry's resource, in entry order, and returns
      the same bundle; an entry without a resource stops the walk there, with the earlier entries
      already resolved and the rest untouched. */
  method ResolveReferences(bundle: Bundle) returns (r: Result<Bundle, ConversionError>)
    requires Valid(bundle)
    modifies bundle.Below
    ensures r.Success? <==> forall k :: 0 <= k < |bundle.entries| ==> bundle.entries[k] != null
    ensures r.Success? ==> r.value == bundle && ResolvedIn(bundle.Below)
    ensures r.Failure? ==>
      && r.error.index < |bundle.entries| && bundle.entries[r.error.index] == null
      && (forall k :: 0 <= k < r.error.index ==> bundle.entries[k] != null)
      && EntriesResolved(bundle, r.error.index)
  {
    var entries := bundle.entries;
    var i := 0;
    while i < |entries|
      invariant 0 <= i <= |entries|
      invariant null !in entries[..i]
      invariant EntriesResolved(bundle, i)
    {
      var resource := entries[i];
      if resource == null {
        return Failure(NullEntryResource(i));
      }
      assert null !in entries[..i + 1] by {
        assert entries[..i + 1] == entries[..i] + [resource];
      }
      BelowOfGrows(entries, i);
      ghost var done := BelowOf(entries[..i]);
      assert Wf(resource) && resource.Repr - {resource} <= bundle.Below;
      label before:
      ResolveURNReferences(resource);
      forall x | x in bundle.Below
        ensures x.reference == if x in done + (resource.Repr - {resource}) then Resolve(x.isReference, old(x.reference), x.resource) else old(x.reference)
      {
        if x in resource.Repr - {resource} {
          assert x.reference == Resolve(x.isReference, old@before(x.reference), x.resource);
          ResolveIdempotent(x.isReference, old(x.reference), x.resource);
        }
      }
      i := i + 1;
    }
    assert entries[..|entries|] == entries;
    return Success(bundle);
  }

  /** The elements below the first `i + 1` entries are those below the first `i` and those below entry
      `i`, all of them below the whole bundle. */
  lemma BelowOfGrows(entries: seq<Element?>, i: nat)
    requires i < |entries| && entries[i] != null
    ensures BelowOf(entries[..i + 1]) == BelowOf(entries[..i]) + (entries[i].Repr - {entries[i]})
    ensures BelowOf(entries[..i + 1]) <= BelowOf(entries)
  {
    assert entries[..i + 1][..i] == entries[..i];
    BelowOfPrefix(entries, i + 1);
  }

  /** The elements below a prefix of the entries are below all of them. */
  lemma {:induction false} BelowOfPrefix(entries: seq<Element?>, n: nat)
    requires n <= |entries|
    ensures BelowOf(entries[..n]) <= BelowOf(entries)
    decreases |entries| - n
  {
    if n < |entries| {
      BelowOfPrefix(entries, n + 1);
      assert entries[..n + 1][..n] == entries[..n];
    } else {
      assert entries[..n] == entries;
    }
  }
}
