// The exceptions that the gateway's core throws to its caller, as values.
module Failures {
  datatype Failure =
    | IllegalArgument(message: string)  // IllegalArgumentException, from a failed argument check
    | IndexOutOfBounds                  // ArrayIndexOutOfBoundsException
    | EnumNotFound(code: int)           // no enum constant carries this code
    | DataPointTypeNotFound             // no datapoint type registered under the looked-up ids
    | ConversionFailed                  // the conversion of the textual arguments threw and nobody caught it
}
