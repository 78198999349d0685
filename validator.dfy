/** The entry point: guards the input, hands the text to the parser, extracts the
    fragment dependencies and runs the cycle detector over them. */
module Validator {
  import opened Wrappers
  import opened Errors
  import opened Ast
  import opened Dependencies
  import opened Graph
  import opened CycleDetector

  /** The value handed to the validator: query text, or a value that is not a string. */
  datatype QueryArg = Text(text: string) | NotText

  /** What the external parser makes of a query text. */
  datatype ParseOutcome =
    | Parsed(document: Document)
    | SyntaxFailure(message: string)
      /** Any other exception the parser raises. */
    | OtherFailure

  /** Validates a query for circular fragment references. An empty or non-string
      argument passes, a syntax error propagates, any other parser failure passes,
      and a parsed document fails exactly when its fragment graph has a cycle. */
  method DetectCircularFragments(query: QueryArg, parse: string -> ParseOutcome) returns (r: Outcome<ValidationError>)
    ensures query.NotText? || query.text == "" ==> r == Pass
    ensures query.Text? && query.text != "" ==>
      match parse(query.text)
      case SyntaxFailure(message) => r == Fail(SyntaxError(message))
      case OtherFailure => r == Pass
      case Parsed(doc) =>
        && (r.Pass? <==> !HasCycle(FragmentDependencies(doc.definitions)))
        && (r.Fail? ==> ReportsCycle(FragmentDependencies(doc.definitions), r.error, {}))
  {
    if query.NotText? || query.text == "" {
      return Pass;
    }
    var parsed := parse(query.text);
    match parsed
    case SyntaxFailure(message) =>
      return Fail(SyntaxError(message));
    case OtherFailure =>
      return Pass;
    case Parsed(doc) =>
      var fragmentDependencies := BuildFragmentDependencies(doc);
      if fragmentDependencies == map[] {
        EmptyAcyclic(fragmentDependencies);
        return Pass;
      }
      r := DetectCycles(fragmentDependencies);
  }

  /** A document without fragment definitions has an empty, acyclic dependency map,
      whatever its operations contain. */
  lemma NoFragmentsNoCycle(doc: Document)
    requires forall i :: 0 <= i < |doc.definitions| ==> !doc.definitions[i].FragmentDefinition?
    ensures FragmentDependencies(doc.definitions) == map[]
    ensures !HasCycle(FragmentDependencies(doc.definitions))
  {
    DependencyKeys(doc.definitions);
    EmptyAcyclic(FragmentDependencies(doc.definitions));
  }
}
