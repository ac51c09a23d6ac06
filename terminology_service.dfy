/** The guard logic of `DefaultTerminologyService2`, the terminology service behind the FHIR R4
    operations `ValueSet/$validate-code`, `ConceptMap/$translate` and `CodeSystem/$subsumes`. The
    terminology client is a parameter: a value holding one function per remote operation. */
module TerminologyService {
  import opened Wrappers

  /** A FHIR `Coding`; an absent element is `None`. */
  datatype Coding = Coding(system: Option<string>, version: Option<string>, code: Option<string>)

  /** The typed FHIR primitives the client is called with. */
  datatype UriType = UriType(uri: string)
  datatype StringType = StringType(text: string)
  datatype CodeType = CodeType(code: string)

  datatype TerminologyError =
      /** `Objects.requireNonNull`, or a dereference of a missing response parameter. */
    | NullValue
      /** `fromCode` of a code the enumeration does not define. */
    | UnknownCode(code: string)

  /** `optional`: null stays null, anything else is converted. */
  function Optional<T>(converter: string -> T, value: Option<string>): (r: Option<T>)
    ensures r.None? <==> value.None?
  {
    match value
    case None => None
    case Some(v) => Some(converter(v))
  }

  /** `required`: null is refused, anything else is converted. */
  function Required<T>(converter: string -> T, value: Option<string>): (r: Result<T, TerminologyError>)
    ensures r.Failure? <==> value.None?
    ensures r.Failure? ==> r.error == NullValue
  {
    match value
    case None => Failure(NullValue)
    case Some(v) => Success(converter(v))
  }

  /** `required` accepts exactly what `optional` keeps, and both convert it the same way. */
  lemma RequiredAgreesWithOptional<T>(converter: string -> T, value: Option<string>)
    ensures Required(converter, value).Success? <==> Optional(converter, value).Some?
    ensures Required(converter, value).Success? ==>
      Required(converter, value).value == Optional(converter, value).value == converter(value.value)
  {
  }

  // ---------------------------------------------------------------------------------------------
  // The enumerations the responses are decoded into.

  /** `ConceptMapEquivalence` (FHIR R4). */
  datatype ConceptMapEquivalence =
    | RelatedTo | Equivalent | Equal | Wider | Subsumes | Narrower | Specializes | Inexact | Unmatched | Disjoint

  function EquivalenceToCode(e: ConceptMapEquivalence): string {
    match e
    case RelatedTo => "relatedto"
    case Equivalent => "equivalent"
    case Equal => "equal"
    case Wider => "wider"
    case Subsumes => "subsumes"
    case Narrower => "narrower"
    case Specializes => "specializes"
    case Inexact => "inexact"
    case Unmatched => "unmatched"
    case Disjoint => "disjoint"
  }

  /** `ConceptMapEquivalence.fromCode`: the empty code is null, an unknown code is an error. */
  function EquivalenceFromCode(code: string): (r: Result<Option<ConceptMapEquivalence>, TerminologyError>)
    ensures r.Success? && r.value.Some? ==> EquivalenceToCode(r.value.value) == code
    ensures r.Success? && r.value.None? <==> code == ""
    ensures r.Failure? <==> code != "" && forall e :: EquivalenceToCode(e) != code
    ensures r.Failure? ==> r.error == UnknownCode(code)
  {
    if code == "" then Success(None)
    else if code == "relatedto" then Success(Some(RelatedTo))
    else if code == "equivalent" then Success(Some(Equivalent))
    else if code == "equal" then Success(Some(Equal))
    else if code == "wider" then Success(Some(Wider))
    else if code == "subsumes" then Success(Some(Subsumes))
    else if code == "narrower" then Success(Some(Narrower))
    else if code == "specializes" then Success(Some(Specializes))
    else if code == "inexact" then Success(Some(Inexact))
    else if code == "unmatched" then Success(Some(Unmatched))
    else if code == "disjoint" then Success(Some(Disjoint))
    else Failure(UnknownCode(code))
  }

  /** Every equivalence is decoded from its own code. */
  lemma EquivalenceRoundTrip(e: ConceptMapEquivalence)
    ensures EquivalenceFromCode(EquivalenceToCode(e)) == Success(Some(e))
  {
  }

  /** `ConceptSubsumptionOutcome` (FHIR R4). */
  datatype ConceptSubsumptionOutcome = OutcomeEquivalent | OutcomeSubsumes | SubsumedBy | NotSubsumed

  function OutcomeToCode(o: ConceptSubsumptionOutcome): string {
    match o
    case OutcomeEquivalent => "equivalent"
    case OutcomeSubsumes => "subsumes"
    case SubsumedBy => "subsumed-by"
    case NotSubsumed => "not-subsumed"
  }

  /** `ConceptSubsumptionOutcome.fromCode`: the empty code is null, an unknown code is an error. */
  function OutcomeFromCode(code: string): (r: Result<Option<ConceptSubsumptionOutcome>, TerminologyError>)
    ensures r.Success? && r.value.Some? ==> OutcomeToCode(r.value.value) == code
    ensures r.Success? && r.value.None? <==> code == ""
    ensures r.Failure? <==> code != "" && forall o :: OutcomeToCode(o) != code
    ensures r.Failure? ==> r.error == UnknownCode(code)
  {
    if code == "" then Success(None)
    else if code == "equivalent" then Success(Some(OutcomeEquivalent))
    else if code == "subsumes" then Success(Some(OutcomeSubsumes))
    else if code == "subsumed-by" then Success(Some(SubsumedBy))
    else if code == "not-subsumed" then Success(Some(NotSubsumed))
    else Failure(UnknownCode(code))
  }

  /** Every subsumption outcome is decoded from its own code. */
  lemma OutcomeRoundTrip(o: ConceptSubsumptionOutcome)
    ensures OutcomeFromCode(OutcomeToCode(o)) == Success(Some(o))
  {
  }

  // ---------------------------------------------------------------------------------------------
  // The client.

  datatype ValidateCodeRequest = ValidateCodeRequest(url: UriType, system: UriType, version: Option<StringType>, code: CodeType)

  datatype TranslateRequest = TranslateRequest(
    conceptMapUrl: UriType, system: UriType, version: Option<StringType>, code: CodeType, reverse: bool,
    target: Option<UriType>)

  datatype SubsumesRequest = SubsumesRequest(codeA: CodeType, codeB: CodeType, system: UriType, version: Option<StringType>)

  /** One entry of a translate response: the equivalence code and the concept it maps to. */
  datatype TranslateEntry = TranslateEntry(equivalence: string, concept: Coding)

  /** `Translation.of(equivalence, concept)`. */
  datatype Translation = Translation(equivalence: Option<ConceptMapEquivalence>, concept: Coding)

  /** The terminology client. `validateCode` gives the response's `result` parameter, `translate` the
      response's entries, and `subsumes` the value of the response's `outcome` parameter (absent when
      the response has none). */
  datatype TerminologyClient = TerminologyClient(
    validateCode: ValidateCodeRequest -> Option<bool>,
    translate: TranslateRequest -> seq<TranslateEntry>,
    subsumes: SubsumesRequest -> Option<string>)

  /** `isResultTrue`: the `result` parameter is present and true. */
  predicate IsResultTrue(result: Option<bool>) {
    result == Some(true)
  }

  /** `getSubsumptionOutcome`: decodes the `outcome` parameter, which must be present. */
  function GetSubsumptionOutcome(outcome: Option<string>): (r: Result<Option<ConceptSubsumptionOutcome>, TerminologyError>)
    ensures outcome.None? ==> r == Failure(NullValue)
    ensures outcome.Some? ==> r == OutcomeFromCode(outcome.value)
  {
    match outcome
    case None => Failure(NullValue)
    case Some(code) => OutcomeFromCode(code)
  }

  // ---------------------------------------------------------------------------------------------
  // The operations.

  /** `validate`: false without asking the client when the coding has no system or no code; otherwise
      what the client answers for the coding's system, version and code. */
  function Validate(url: string, coding: Coding, client: TerminologyClient): (valid: bool)
    ensures coding.system.None? || coding.code.None? ==> !valid
    ensures coding.system.Some? && coding.code.Some? ==>
      (valid <==> client.validateCode(ValidateCodeRequest(UriType(url), UriType(coding.system.value),
                                                          Optional(s => StringType(s), coding.version),
                                                          CodeType(coding.code.value))) == Some(true))
  {
    if coding.system.None? || coding.code.None? then false
    else
      var request := ValidateCodeRequest(UriType(url), UriType(coding.system.value),
                                         Optional(s => StringType(s), coding.version), CodeType(coding.code.value));
      IsResultTrue(client.validateCode(request))
  }

  /** The guard decides `validate` on its own: two clients give the same answer for a coding without
      a system or a code. */
  lemma ValidateGuardIgnoresClient(url: string, coding: Coding, a: TerminologyClient, b: TerminologyClient)
    requires coding.system.None? || coding.code.None?
    ensures Validate(url, coding, a) == Validate(url, coding, b) == false
  {
  }

  /** The request `translate` sends for a coding with a system and a code. */
  function TranslateRequestFor(coding: Coding, conceptMapUrl: string, reverse: bool, target: Option<string>): (request: TranslateRequest)
    requires coding.system.Some? && coding.code.Some?
    ensures request.system.uri == coding.system.value && request.code.code == coding.code.value
    ensures request.conceptMapUrl.uri == conceptMapUrl && request.reverse == reverse
    ensures request.version.Some? <==> coding.version.Some?
    ensures request.version.Some? ==> request.version.value.text == coding.version.value
    ensures request.target.Some? <==> target.Some?
    ensures request.target.Some? ==> request.target.value.uri == target.value
  {
    TranslateRequest(UriType(conceptMapUrl), UriType(coding.system.value), Optional(s => StringType(s), coding.version),
                     CodeType(coding.code.value), reverse, Optional(s => UriType(s), target))
  }

  /** One translate entry as a `Translation`. */
  function ToTranslation(entry: TranslateEntry): (r: Result<Translation, TerminologyError>)
    ensures r.Success? <==> EquivalenceFromCode(entry.equivalence).Success?
    ensures r.Success? ==> r.value == Translation(EquivalenceFromCode(entry.equivalence).value, entry.concept)
    ensures r.Failure? ==> r.error == UnknownCode(entry.equivalence)
  {
    match EquivalenceFromCode(entry.equivalence)
    case Failure(e) => Failure(e)
    case Success(equivalence) => Success(Translation(equivalence, entry.concept))
  }

  /** `translate`: no translations, without asking the client, when the coding has no system or no
      code; otherwise one translation per entry of the client's answer, in order, failing on the
      first entry whose equivalence code is unknown. */
  function Translate(coding: Coding, conceptMapUrl: string, reverse: bool, target: Option<string>,
                     client: TerminologyClient): (r: Result<seq<Translation>, TerminologyError>)
    ensures coding.system.None? || coding.code.None? ==> r == Success([])
    ensures coding.system.Some? && coding.code.Some? ==>
      var entries := client.translate(TranslateRequestFor(coding, conceptMapUrl, reverse, target));
      && (r.Success? <==> forall k :: 0 <= k < |entries| ==> EquivalenceFromCode(entries[k].equivalence).Success?)
      && (r.Success? ==> && |r.value| == |entries|
                         && forall k :: 0 <= k < |entries| ==>
                              && r.value[k].concept == entries[k].concept
                              && r.value[k].equivalence == EquivalenceFromCode(entries[k].equivalence).value)
      && (r.Failure? ==> exists k :: && 0 <= k < |entries| && r.error == UnknownCode(entries[k].equivalence)
                                     && forall j :: 0 <= j < k ==> EquivalenceFromCode(entries[j].equivalence).Success?)
  {
    if coding.system.None? || coding.code.None? then Success([])
    else
      var entries := client.translate(TranslateRequestFor(coding, conceptMapUrl, reverse, target));
      MapAll(entries, ToTranslation)
  }

  /** The version `subsumes` asks about: A's when it has one, otherwise B's. */
  function ResolvedVersion(a: Coding, b: Coding): (v: Option<string>)
    ensures a.version.Some? ==> v == a.version
    ensures a.version.None? ==> v == b.version
  {
    if a.version.Some? then a.version else b.version
  }

  /** Versions are compatible when one is missing or both are equal. */
  predicate VersionsCompatible(a: Coding, b: Coding) {
    a.version.None? || b.version.None? || a.version == b.version
  }

  /** For compatible versions the resolved version does not depend on which coding comes first. */
  lemma ResolvedVersionSymmetric(a: Coding, b: Coding)
    requires VersionsCompatible(a, b)
    ensures ResolvedVersion(a, b) == ResolvedVersion(b, a)
  {
  }

  /** The part of `subsumes` after the guards: the client is asked about A's system, both codes and
      the resolved version. */
  function AskSubsumes(a: Coding, b: Coding, client: TerminologyClient): (r: Result<Option<ConceptSubsumptionOutcome>, TerminologyError>)
    requires a.system.Some? && a.code.Some?
    ensures b.code.None? ==> r == Failure(NullValue)
    ensures b.code.Some? ==>
      r == GetSubsumptionOutcome(client.subsumes(SubsumesRequest(CodeType(a.code.value), CodeType(b.code.value),
                                                                 UriType(a.system.value),
                                                                 Optional(s => StringType(s), ResolvedVersion(a, b)))))
  {
    var codeA := CodeType(a.code.value);
    match Required(c => CodeType(c), b.code)
    case Failure(e) => Failure(e)
    case Success(codeB) =>
      GetSubsumptionOutcome(client.subsumes(SubsumesRequest(codeA, codeB, UriType(a.system.value),
                                                            Optional(s => StringType(s), ResolvedVersion(a, b)))))
  }

  /** `subsumes` as written: the code guard tests A's code twice, so a missing code on B passes the
      guards and is refused by `required` when the request is built. */
  function SubsumesAsWritten(a: Coding, b: Coding, client: TerminologyClient): (r: Result<Option<ConceptSubsumptionOutcome>, TerminologyError>)
    ensures a.system.None? || a.system != b.system ==> r == Success(Some(NotSubsumed))
    ensures a.code.None? ==> r == Success(Some(NotSubsumed))
    ensures !VersionsCompatible(a, b) ==> r == Success(Some(NotSubsumed))
    ensures a.system.Some? && a.system == b.system && a.code.Some? && VersionsCompatible(a, b) ==>
      r == AskSubsumes(a, b, client)
  {
    if a.system.None? || a.system != b.system then Success(Some(NotSubsumed))
    else if a.code.None? || a.code.None? then Success(Some(NotSubsumed))
    else if !VersionsCompatible(a, b) then Success(Some(NotSubsumed))
    else AskSubsumes(a, b, client)
  }

  /** The discrepancy: A = (system "s", code "a"), B = (system "s", no code) is refused with a null
      value instead of being answered not-subsumed, whatever the client. */
  lemma SubsumesAsWrittenRefusesMissingCodeB(client: TerminologyClient)
    ensures var a := Coding(Some("s"), None, Some("a"));
      var b := Coding(Some("s"), None, None);
      SubsumesAsWritten(a, b, client) == Failure(NullValue)
  {
  }

  /** `subsumes` with both codes guarded, as the comparison of A's code with itself evidently meant. */
  function SubsumesGuarded(a: Coding, b: Coding, client: TerminologyClient): (r: Result<Option<ConceptSubsumptionOutcome>, TerminologyError>)
    ensures a.system.None? || a.system != b.system ==> r == Success(Some(NotSubsumed))
    ensures a.code.None? || b.code.None? ==> r == Success(Some(NotSubsumed))
    ensures !VersionsCompatible(a, b) ==> r == Success(Some(NotSubsumed))
    ensures a.system.Some? && a.system == b.system && a.code.Some? && b.code.Some? && VersionsCompatible(a, b) ==>
      r == GetSubsumptionOutcome(client.subsumes(SubsumesRequest(CodeType(a.code.value), CodeType(b.code.value),
                                                                 UriType(a.system.value),
                                                                 Optional(s => StringType(s), ResolvedVersion(a, b)))))
  {
    if a.system.None? || a.system != b.system then Success(Some(NotSubsumed))
    else if a.code.None? || b.code.None? then Success(Some(NotSubsumed))
    else if !VersionsCompatible(a, b) then Success(Some(NotSubsumed))
    else AskSubsumes(a, b, client)
  }

  /** With both codes guarded, a null value can only come from a response without an outcome, and the
      two definitions agree wherever B has a code. */
  lemma SubsumesGuardsCodeB(a: Coding, b: Coding, client: TerminologyClient)
    ensures SubsumesGuarded(a, b, client) == Failure(NullValue) ==>
      && a.system.Some? && a.code.Some? && b.code.Some?
      && client.subsumes(SubsumesRequest(CodeType(a.code.value), CodeType(b.code.value), UriType(a.system.value),
                                         Optional(s => StringType(s), ResolvedVersion(a, b)))).None?
    ensures b.code.Some? ==> SubsumesGuarded(a, b, client) == SubsumesAsWritten(a, b, client)
    ensures b.code.None? ==> SubsumesGuarded(a, b, client) == Success(Some(NotSubsumed))
  {
  }
}
