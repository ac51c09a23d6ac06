/** `LookupExecutor`, the client side of the FHIR R4 operation `CodeSystem/$lookup`: the guard that
    short-circuits an invalid coding, the fallback result, and the extraction of properties from the
    response parameters. The request itself is sent by the terminology client, which is not part of
    this model. */
module LookupExecutor {

  import opened Wrappers

  datatype Coding = Coding(system: Option<string>, version: Option<string>, code: Option<string>)

  /** The lookup parameters: the coding, the property asked for (if any) and the display language. */
  datatype LookupParameters = LookupParameters(coding: Coding, property: Option<string>, displayLanguage: Option<string>)

  /** A value of a response parameter, kept abstract as its text. */
  datatype Value = Value(text: string)

  /** A `Parameters.parameter` component: its name, its value and its nested parts. */
  datatype Parameter = Parameter(name: Option<string>, value: Option<Value>, part: seq<Parameter>)

  /** The only kind of result this executor makes is `Property.of(name, value)`. */
  datatype PropertyOrDesignation = Property(code: Option<string>, value: Option<Value>)

  /** `validate`: an empty result, without a request, exactly when the coding lacks a system or a code. */
  function Validate(parameters: LookupParameters): (r: Option<seq<PropertyOrDesignation>>)
    ensures r.Some? <==> parameters.coding.system.None? || parameters.coding.code.None?
    ensures r.Some? ==> r.value == []
  {
    if parameters.coding.system.None? || parameters.coding.code.None? then Some([]) else None
  }

  /** `invalidRequestFallback`: an invalid request yields no properties. */
  function InvalidRequestFallback(): (r: seq<PropertyOrDesignation>)
    ensures |r| == 0
  {
    []
  }

  /** `hasPart`. */
  predicate HasPart(p: Parameter) {
    p.part != []
  }

  /** The name filter: every parameter when no property is asked for, otherwise those with that name. */
  predicate NameMatches(p: Parameter, propertyCode: Option<string>) {
    propertyCode.None? || p.name == propertyCode
  }

  /** The first filter: the parameters without parts, in order. */
  function Partless(ps: seq<Parameter>): (r: seq<Parameter>)
    ensures |r| <= |ps|
    ensures forall x :: x in r <==> x in ps && !HasPart(x)
    decreases |ps|
  {
    if ps == [] then []
    else if !HasPart(ps[0]) then [ps[0]] + Partless(ps[1..])
    else Partless(ps[1..])
  }

  /** The second filter: the parameters whose name matches, in order. */
  function Named(ps: seq<Parameter>, propertyCode: Option<string>): (r: seq<Parameter>)
    ensures |r| <= |ps|
    ensures forall x :: x in r <==> x in ps && NameMatches(x, propertyCode)
    decreases |ps|
  {
    if ps == [] then []
    else if NameMatches(ps[0], propertyCode) then [ps[0]] + Named(ps[1..], propertyCode)
    else Named(ps[1..], propertyCode)
  }

  /** A stream `map` of `Property.of(name, value)`. */
  function ToProperties(ps: seq<Parameter>): (r: seq<PropertyOrDesignation>)
    ensures |r| == |ps|
    ensures forall k :: 0 <= k < |ps| ==> r[k] == Property(ps[k].name, ps[k].value)
  {
    seq(|ps|, k requires 0 <= k < |ps| => Property(ps[k].name, ps[k].value))
  }

  /** `toPropertiesAndDesignations`: the filter, filter and map pipeline over the response parameters. */
  function ToPropertiesAndDesignations(parameters: seq<Parameter>, propertyCode: Option<string>): (r: seq<PropertyOrDesignation>)
    ensures r == Extracted(parameters, propertyCode)
  {
    PipelineIsSinglePass(parameters, propertyCode);
    ToProperties(Named(Partless(parameters), propertyCode))
  }

  /** The reference definition: one pass over the parameters, keeping a property for each partless
      parameter whose name matches. */
  function Extracted(parameters: seq<Parameter>, propertyCode: Option<string>): seq<PropertyOrDesignation>
    decreases |parameters|
  {
    if parameters == [] then []
    else
      var p := parameters[0];
      var rest := Extracted(parameters[1..], propertyCode);
      if !HasPart(p) && NameMatches(p, propertyCode) then [Property(p.name, p.value)] + rest else rest
  }

  /** The pipeline computes the one-pass definition. */
  lemma {:induction false} PipelineIsSinglePass(parameters: seq<Parameter>, propertyCode: Option<string>)
    ensures ToProperties(Named(Partless(parameters), propertyCode)) == Extracted(parameters, propertyCode)
    decreases |parameters|
  {
    if parameters != [] {
      PipelineIsSinglePass(parameters[1..], propertyCode);
      var p := parameters[0];
      var rest := Partless(parameters[1..]);
      if !HasPart(p) {
        assert Partless(parameters) == [p] + rest;
        assert ([p] + rest)[1..] == rest;
        if NameMatches(p, propertyCode) {
          assert Named([p] + rest, propertyCode) == [p] + Named(rest, propertyCode);
          assert ToProperties([p] + Named(rest, propertyCode))
                 == [Property(p.name, p.value)] + ToProperties(Named(rest, propertyCode));
        }
      }
    }
  }

  /** `extractResult`: the properties of the response, filtered by the property the request asked for. */
  function ExtractResult(parameters: LookupParameters, response: seq<Parameter>): (r: seq<PropertyOrDesignation>)
    ensures r == Extracted(response, parameters.property)
  {
    ToPropertiesAndDesignations(response, parameters.property)
  }

  /** Every extracted property comes from a partless response parameter whose name matches, and every
      such parameter gives one. */
  lemma {:induction false} ExtractedMembers(parameters: seq<Parameter>, propertyCode: Option<string>)
    ensures forall q :: q in Extracted(parameters, propertyCode) <==>
      exists p :: p in parameters && !HasPart(p) && NameMatches(p, propertyCode) && q == Property(p.name, p.value)
    decreases |parameters|
  {
    if parameters != [] {
      ExtractedMembers(parameters[1..], propertyCode);
      forall p | p in parameters ensures p == parameters[0] || p in parameters[1..] {
        if p != parameters[0] {
          var k :| 0 <= k < |parameters| && parameters[k] == p;
          assert parameters[1..][k - 1] == p;
        }
      }
    }
  }

  /** Without a property code every partless parameter is kept, so one property per partless
      parameter, in order. */
  lemma {:induction false} ExtractedKeepsAllWithoutCode(parameters: seq<Parameter>)
    ensures Extracted(parameters, None) == ToProperties(Partless(parameters))
    decreases |parameters|
  {
    if parameters != [] {
      ExtractedKeepsAllWithoutCode(parameters[1..]);
      var p := parameters[0];
      var rest := Partless(parameters[1..]);
      if !HasPart(p) {
        assert ToProperties([p] + rest) == [Property(p.name, p.value)] + ToProperties(rest);
      }
    }
  }

  /** Extraction keeps the response order: the properties of a later parameter come after. */
  lemma {:induction false} ExtractedAppend(parameters: seq<Parameter>, p: Parameter, propertyCode: Option<string>)
    ensures Extracted(parameters + [p], propertyCode) == Extracted(parameters, propertyCode) + Extracted([p], propertyCode)
    decreases |parameters|
  {
    if parameters != [] {
      assert (parameters + [p])[1..] == parameters[1..] + [p];
      ExtractedAppend(parameters[1..], p, propertyCode);
    }
  }
}
