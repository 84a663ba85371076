/** The outcome of a call into a collaborator the model cannot see (the
    search service, an HTTP fetch with a document parser, the language
    model): either it returns a value or it raises an exception. */
module Outcomes {

  datatype Outcome<+T> = Ok(value: T) | Raised
}
