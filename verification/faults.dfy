/** The outcomes of the generator's core operations. The source raises
    exceptions; the model returns them as values. */
module Faults {

  datatype Option<+T> = None | Some(value: T)

  /** Why a run of the generator aborts before writing the Makefile. */
  datatype Fault =
      /** `MultipleMainError`: the already registered main file and the
          second file that contains the entry-point marker. */
    | MultipleMain(first: string, second: string)
      /** `mmap` of an empty file raises `ValueError`. */
    | EmptyMap(name: string)
      /** The backward walk for `'#'` left the 100-byte window or the start
          of the buffer: the source then runs into `IndexError` (or reads
          from the end of the buffer through a negative index). */
    | WalkFault(header: string)
      /** `create_depend` reads `includes` before any iteration assigned it
          (`UnboundLocalError`). */
    | UnboundIncludes(obj: string)
      /** `open` of a name that is not a file of the scanned directory. */
    | NotFound(name: string)

  datatype Result<+T> = Success(value: T) | Failure(error: Fault)
}
