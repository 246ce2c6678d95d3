/**
 * Characters the pipeline treats specially: the five canonical operator
 * symbols, whitespace, ASCII case and the six bracket characters.
 *
 * The operator symbols come from src/constants.ts, which is not part of this
 * model.  NOT, OR and IMPL are the glyphs the repository's test snapshots
 * show; AND and EQ are the usual conjunction and equivalence glyphs.  No proof
 * depends on the glyphs beyond their being five distinct characters that are
 * neither brackets, whitespace nor upper-case ASCII.
 */
module Chars {
  const NOT: char := '~'
  const AND: char := '\U{2227}'   // ∧
  const OR: char := '\U{2228}'    // ∨
  const IMPL: char := '\U{2192}'  // →
  const EQ: char := '\U{2261}'    // ≡

  /** The characters JavaScript's `\s` matches within ASCII. */
  predicate IsWhitespace(c: char) {
    c == ' ' || c == '\t' || c == '\n' || c == '\r' || c == '\U{000B}' || c == '\U{000C}'
  }

  predicate IsUpper(c: char) {
    'A' <= c <= 'Z'
  }

  /** `toLowerCase` on one character, restricted to ASCII letters. */
  function ToLowerChar(c: char): (r: char)
    ensures !IsUpper(r)
    ensures IsUpper(c) ==> r as int == c as int + 32
    ensures !IsUpper(c) ==> r == c
  {
    if IsUpper(c) then (c as int + 32) as char else c
  }

  predicate IsOpening(c: char) {
    c == '(' || c == '[' || c == '{'
  }

  predicate IsClosing(c: char) {
    c == ')' || c == ']' || c == '}'
  }

  predicate IsBracket(c: char) {
    IsOpening(c) || IsClosing(c)
  }

  predicate IsOperator(c: char) {
    c == NOT || c == AND || c == OR || c == IMPL || c == EQ
  }

  /** The operator glyphs are distinct from one another and from every
      bracket, whitespace and upper-case character. */
  lemma OperatorsArePlain(c: char)
    requires IsOperator(c)
    ensures !IsBracket(c) && !IsWhitespace(c) && !IsUpper(c) && ToLowerChar(c) == c
  {
  }
}
