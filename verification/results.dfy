/**
 Failure-compatible result type shared by every module of the model, and the
 kinds of error the library raises. In the JavaScript library every failure is a
 thrown `TypeError` (or a rejected promise); here each class of failure is an
 `Error` constructor, several of which cover more than one throw site, and some
 of which carry the term or URL the library's message names.
 */
module Results {

  /** Why a call was refused before any processing (lib/flureeContext.js:120-130). */
  datatype ArgumentProblem = NoDocument | NoContext

  datatype Error =
    /** Missing or null document, or a document without a truthy `@context`. */
    | ArgumentError(problem: ArgumentProblem)
    /** A string inside an array `@context` that is not an http(s) URL. */
    | MalformedContextUrl(url: string)
    /** A context retrieval was rejected or returned no document (only with errorOnLookupFailure). */
    | LookupFailure(url: string)
    /** A matched array `@type` entry whose definition carries no truthy `@id`. */
    | NotAClass(term: string)
    /** `getInitialString` applied to an identifier without a usable `indexOf` (an absent `@id` or a number, which lack `indexOf`; an array holding ":", which lacks `substring`). */
    | IdentifierNotString(term: string)
    /** `val.every(<boolean>)`: an array value under a term the context defines. */
    | ArrayCallback(term: string)
    /** `Object.keys(null)`: a null value under a term the context defines. */
    | NullValue(term: string)
    /** A `@type` entry that is not a string where the library calls a string method it lacks. */
    | NonStringType
    /** One or more terms failed validation (only with errorOnInvalid). */
    | ValidationFailure(terms: seq<string>)
    /** A vocabulary document could not be retrieved (only with errorOnUndefinedProperties). */
    | UndefinedProperty(url: string)
    /** A vocabulary document, graph or graph node of a shape the library cannot process. */
    | MalformedVocabulary
    /** The expanded document has no first node to walk (`Object.keys(undefined)`). */
    | NoExpandedNode

  datatype Result<+T> = Success(value: T) | Failure(error: Error) {

    predicate IsFailure() {
      Failure?
    }

    function PropagateFailure<U>(): Result<U>
      requires Failure?
    {
      Failure(error)
    }

    function Extract(): T
      requires Success?
    {
      value
    }
  }
}
