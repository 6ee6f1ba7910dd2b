/**
 * Regular expressions are not modelled: the three operations of Python's `re`
 * module that the validator and the fixer call are an oracle handed to them.
 * Nothing is assumed about what a pattern matches or how it rewrites.
 */
module Regex {

  datatype Engine = Engine(
    /** `re.search(pattern, text, re.IGNORECASE)` found a match. */
    searchIgnoreCase: (string, string) -> bool,
    /** `re.findall(pattern, text)`: one entry per non-overlapping match. */
    findAll: (string, string) -> seq<string>,
    /** `re.sub(pattern, replacement, text)` */
    sub: (string, string, string) -> string
  )
}
