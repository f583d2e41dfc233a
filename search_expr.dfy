/** The full-text search expressions that demo.py builds from the user's input.
    The term is interpolated verbatim: nothing is escaped or quoted. */
module SearchExpr {
  import opened PyStr
  import opened Wrappers

  /** The field selector every expression starts with. */
  const FieldSelector: string := "name:"

  /** The suffix asking the engine for edit-distance-1 matches. */
  const FuzzyMarker: string := "~1"

  /** The exact (n-gram) expression `name:<term>`. */
  function ExactExpr(term: string): (e: string)
    ensures StartsWith(e, FieldSelector)
    ensures e[|FieldSelector|..] == term
  {
    FieldSelector + term
  }

  /** The fuzzy expression: the exact expression followed by the fuzzy marker. */
  function FuzzyExpr(term: string): (e: string)
    ensures |e| == |ExactExpr(term)| + |FuzzyMarker|
    ensures StartsWith(e, ExactExpr(term))
    ensures e[|ExactExpr(term)|..] == FuzzyMarker
  {
    FieldSelector + term + FuzzyMarker
  }

  /** Recovers the term from an exact expression; `None` if the selector is missing. */
  function TermOf(expr: string): (t: Option<string>)
    ensures t.Some? <==> StartsWith(expr, FieldSelector)
    ensures t.Some? ==> expr == FieldSelector + t.value
  {
    if StartsWith(expr, FieldSelector) then Some(expr[|FieldSelector|..]) else None
  }

  /** Building the exact expression loses nothing: the term can be read back. */
  lemma ExactExprRoundTrip(term: string)
    ensures TermOf(ExactExpr(term)) == Some(term)
  {
  }

  /** Distinct terms give distinct exact expressions. */
  lemma ExactExprInjective(t1: string, t2: string)
    requires ExactExpr(t1) == ExactExpr(t2)
    ensures t1 == t2
  {
  }

  /** Because the term is not escaped, the fuzzy expression for `t` is the very
      same text as the exact expression for `t + "~1"`: a term can switch on
      fuzzy matching by itself. */
  lemma FuzzyExprIsExactOfMarkedTerm(term: string)
    ensures FuzzyExpr(term) == ExactExpr(term + FuzzyMarker)
  {
  }

  /** The fuzzy expression is never an exact expression of the same term. */
  lemma FuzzyExprDiffersFromExact(term: string)
    ensures FuzzyExpr(term) != ExactExpr(term)
  {
  }
}
