/** Outcomes of the modelled Java code: values that may be null, and results that
    may instead be an exception thrown by the code or by the Java library it calls. */
module Outcomes {

  /** A Java reference that may be null, or a lookup that may find nothing. */
  datatype Option<+T> = None | Some(value: T)

  /** The exceptions the modelled code can end in. */
  datatype Exception =
    | EmptyStack          // java.util.EmptyStackException from Stack.peek/pop
    | IndexOutOfBounds    // StringIndexOutOfBoundsException from String.charAt
    | NumberFormat        // NumberFormatException from Double.parseDouble
    | NegativeArraySize   // NegativeArraySizeException from an array allocation
    | CannotBuildPyramid  // the project's own CannotBuildPyramidException
    | IllegalArgument     // IllegalArgumentException

  /** Either the value a Java method returns or the exception it throws. */
  datatype Result<+T> = Success(value: T) | Failure(error: Exception)
}
