/** Values shared by every part of the batch regular-expression replacement model. */
module Common {

  /** The failures the tool runs into; none of them is caught once a run has started. */
  datatype Error =
    | NotFound(path: string)           // a rules or target file that is not in the file map
    | InvalidPattern(pattern: string)  // a regular expression that does not compile
    | InvalidReplacement(pattern: string, replacement: string)
                                       // a replacement template the engine rejects for the pattern

  /** The errors a rule can raise while it is applied: its pattern or its replacement. */
  predicate RuleError(err: Error)
  {
    err.InvalidPattern? || err.InvalidReplacement?
  }

  datatype Result<T> = Ok(value: T) | Err(error: Error)

  datatype Option<T> = None | Some(value: T)

  /** The regular-expression engine (Python's `re`, always used with MULTILINE for rules).
      The model does not interpret patterns: it only fixes which engine call sees which text.
      - compiles(p): p is a syntactically valid pattern (otherwise the engine raises an error);
      - acceptsReplacement(p, r): the substitution parses r as a template for the compiled p
        (a bad escape or a group p lacks makes it raise an error, whether or not p matches);
      - countMatches(p, t): the number of non-overlapping matches of p in t;
      - substitute(p, r, t): t with every non-overlapping match of p replaced by r;
      - search(p, t): p matches somewhere inside t. */
  datatype Engine = Engine(
    compiles: string -> bool,
    acceptsReplacement: (string, string) -> bool,
    countMatches: (string, string) -> nat,
    substitute: (string, string, string) -> string,
    search: (string, string) -> bool)
}
