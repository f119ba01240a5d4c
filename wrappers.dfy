/** Option and Result, used with `:-` for the fatal exits of the generator. */
module Wrappers {

  datatype Option<+T> = None | Some(value: T)

  datatype Result<+T, +E> = Ok(value: T) | Err(error: E) {
    predicate IsFailure() { Err? }

    function PropagateFailure<U>(): Result<U, E>
      requires Err?
    {
      Err(error)
    }

    function Extract(): T
      requires Ok?
    {
      value
    }
  }
}

/** Every way the generator stops with a diagnostic or an uncaught exception. */
module Errors {

  datatype Error =
    // parse_file_lines: a line that does not split into a non-empty context and a correction
    | SyntaxError(line: nat)
    // str.split raises ValueError on an empty separator
    | EmptySeparator
    // parse_file: a character of context[:-1] is not in the alphabet map
    | InvalidCharacters(line: nat)
    // parse_file: context longer than 127 characters
    | SequenceTooLong(line: nat)
    // generate_output_func_char_map: more than seven output-function characters
    | TooManyOutputFuncChars(count: nat)
    // make_trie: correction[-1] on an empty correction raises IndexError
    | EmptyCorrection(context: string)
    // complete_trie: a rule that depends on itself (unbounded recursion in the source)
    | ResolutionCycle(context: string)
    // serialize_outputs: bytes(..., 'ascii') raises UnicodeEncodeError
    | NonAsciiOutput(output: string)
    // serialize_trie: completions_map[output] raises KeyError
    | MissingOutput(output: string)
    // serialize_trie: the three field asserts of the match word
    | FuncOutOfRange(context: string)
    | BackspacesOutOfRange(context: string)
    | OutputTooLong(context: string)
    // serialize: char_map[c] raises KeyError
    | UnknownCharacter(c: char)
    // serialize_trie: the running uint16 offset exceeds 0xffff
    | TableTooLarge(offset: nat)
    // encode_link: a link offset outside 0..0xffff
    | LinkOutOfRange(link: int)
}
