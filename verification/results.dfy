/** Failure-compatible wrappers shared by the parsers and the resolvers of both
    derive macros. Diagnostics are modelled by their kind only: spans and the
    human-readable message text are not part of the model. */
module Results {

  datatype Option<+T> = None | Some(value: T)

  /** The kinds of compile error the two macros can report. */
  datatype Error =
    | NotAnEnum                   // the derive is applied to a struct or a union
    | MalformedAttribute          // wrong attribute form, or an empty / trailing-comma list
    | SyntaxError                 // tokens inside an attribute that the grammar cannot read
    | BadPathLength               // a path with the wrong number of segments
    | BadFieldSelector            // after '.', neither an identifier nor an integer literal
    | MissingContainerAnnotation  // no paired enum is declared on the annotated enum
    | AmbiguousSource             // a bare variant marker while several sources are declared
    | UndeclaredEnum              // a variant annotation names an enum that is not declared
    | DuplicateFieldMapping       // two annotations of one field target the same pairing

  datatype Result<+T> = Ok(value: T) | Err(error: Error) {

    predicate IsFailure() {
      Err?
    }

    function PropagateFailure<U>(): Result<U>
      requires Err?
    {
      Err(error)
    }

    function Extract(): T
      requires Ok?
    {
      value
    }
  }
}
