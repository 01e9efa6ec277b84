/**
 * The reserved markers of SimbEsp: the character that labels epsilon edges,
 * the end-of-input token, the lexical-error token and the token that the
 * scanner skips.
 */
module Markers {

  /** A symbol of the automata's alphabet: one byte. */
  type Byte = x: int | 0 <= x < 256

  /** The character code that marks an epsilon edge (no input consumed). */
  const EPSILON: Byte := 5
  /** Token returned at end of input; it is the character code 0. */
  const FIN: int := 0
  /** Token returned for a character that starts no lexeme. */
  const ERROR: int := 2000
  /** Token that the scanner consumes and never returns. */
  const OMITIR: int := 2001

  /** The four markers as a set: it has four elements exactly when they are pairwise distinct. */
  function Reserved(): (r: set<int>)
    ensures |r| == 4
    ensures EPSILON in r && FIN in r && ERROR in r && OMITIR in r
  {
    {EPSILON as int, FIN, ERROR, OMITIR}
  }

  /** EPSILON lies inside the byte alphabet and the markers are pairwise distinct. */
  lemma MarkersDistinct()
    ensures 0 <= EPSILON < 256 && FIN == 0 && ERROR == 2000 && OMITIR == 2001
    ensures EPSILON as int != FIN && EPSILON as int != ERROR && EPSILON as int != OMITIR
    ensures FIN != ERROR && FIN != OMITIR && ERROR != OMITIR
  {
  }
}
