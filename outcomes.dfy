/** Optional values, results and the error conditions the selector library raises. */
module Outcomes {

  datatype Option<+T> = None | Some(value: T) {
    function GetOr(default: T): T {
      match this
      case Some(v) => v
      case None => default
    }
  }

  /** The exceptions thrown by Query, Element and Document, one constructor per message. */
  datatype Error =
    | EmptySelector                      // getSegments: the selector must not be empty
    | InvalidSelector                    // getSegments: the pattern matched nothing
    | EmptyAttributeName                 // getSegments: `[=v]`
    | NoConstraint                       // buildXPath: neither a tag nor a predicate
    | UnknownProperty                    // convertProperty: neither `text` nor `attr`
    | UnknownPseudoClass(name: string)   // convertPseudo
    | EmptyNthExpression                 // convertNthExpression: ''
    | InvalidNthExpression               // convertNthExpression: no branch applies
    | MissingTagName(selector: string)   // Element::matches, strict branch
    | InvalidContextNode                 // Document::find: context is not an element
    | UnknownNodeType                    // Document::wrapNode
    | InvalidCharacter                   // DOMException: createElement or setAttribute of a non-name

  /** A value or the exception that aborted the computation; usable with `:-`. */
  datatype Result<+T> = Ok(value: T) | Err(error: Error) {
    predicate IsFailure() {
      Err?
    }

    function PropagateFailure<U>(): Result<U>
      requires Err?
    {
      Err(error)
    }

    function Extract(): T
      requires Ok?
    {
      value
    }
  }
}
