# Autocomplete suggestion policy

A Dafny model of the suggestion-selection policy of a small autocomplete
web service (`demo.py`). For a typed term the service runs an exact n-gram
full-text search `name:<term>`; when that returns fewer than 5 names and the
term has at least 4 characters it also runs a fuzzy search `name:<term>~1`
and appends each fuzzy name not already listed. The `/autocomplete` handler
then answers the head of that list if, after lowering both strings, it starts
with the lowered term, and `""` otherwise.

The database is not modelled. It is an oracle `engine: string -> seq<string>`
that maps a search expression to the names the engine returns for it,
already ranked by descending BM25 score, cut to positive scores and to the
query's LIMIT. The resolver passes it exactly the expressions the source
builds, and the resolver method reports, as a ghost log, which expressions
it sent and in what order.

Modules:
- `PyStr` (`pystr.dfy`): Python's `str.lower` (as ASCII lowering) and `str.startswith`.
- `SearchExpr` (`search_expr.dfy`): the exact and fuzzy search expressions.
- `Resolver` (`resolver.dfy`): `get_autocomplete_suggestions`, as a method
  with the source's two append loops, proved equal to the specification
  function `Resolve`, and the merge's properties as lemmas.
- `Selection` (`selection.dfy`): the best-candidate choice and the handler.
- `Wrappers` (`option.dfy`): an `Option` type for the optional query argument.

Facts about the code worth knowing:
- The list holds at most 14 names: the fuzzy stage runs only after at most
  4 exact hits, and each query returns at most 10 rows (`ResolveBound`).
- Exact-search rows are appended unchecked, so they may repeat a name
  (`name` is not unique, demo.py:33). Only the fuzzy additions are
  de-duplicated; `ResolveDistinct` assumes a duplicate-free first stage.
- A missing `term` defaults to `""` and searches `name:`; every string starts
  with `""`, so the handler returns the engine's top row for `name:` when
  there is one (`MissingTermReturnsTopRow`).

The handler appears twice: `AutocompleteHandler` is the method that calls
the resolver method, as the source does, and `Autocomplete` is the same answer
as a function, which the lemmas about the handler use, since a lemma cannot
call a method.

Modelling assumptions: `str.lower` lowers ASCII `A`–`Z` only; `len` counts
characters (Dafny's `char` is a Unicode scalar value, as a Python code point
is for non-surrogates); the two queries of one request see the same database
state, so the engine is a function.

## Model

| member | source | states |
|---|---|---|
| `PyStr.LowerChar` | demo.py:136 | ASCII upper-case letters map to their lower-case letter, every other character is kept |
| `PyStr.Lower` | demo.py:136 | lowering keeps the length and lowers each character in place |
| `PyStr.LowerIdempotent` | demo.py:136 | lowering an already lowered string changes nothing |
| `PyStr.StartsWith` | demo.py:136 | `str.startswith`: the prefix is no longer than the string and equals its leading characters |
| `PyStr.StartsWithLower` | demo.py:136 | a case-sensitive prefix remains a prefix after both strings are lowered |
| `SearchExpr.ExactExpr` | demo.py:92 | the exact expression is the `name:` field selector followed by the raw term |
| `SearchExpr.FuzzyExpr` | demo.py:106 | the fuzzy expression is the exact expression followed by the `~1` marker |
| `SearchExpr.TermOf` | demo.py:92 | reads the term back from an expression exactly when it starts with the field selector |
| `SearchExpr.ExactExprRoundTrip` | demo.py:92 | the term is recovered intact from its exact expression |
| `SearchExpr.ExactExprInjective` | demo.py:92 | different terms give different exact expressions |
| `SearchExpr.FuzzyExprIsExactOfMarkedTerm` | demo.py:106 | with no escaping, the fuzzy expression for `t` is the exact expression for `t + "~1"` |
| `SearchExpr.FuzzyExprDiffersFromExact` | demo.py:106 | the fuzzy query is never the exact query again |
| `Resolver.AppendNew` | demo.py:115-117 | the membership-checked append loop keeps the existing list as a prefix and adds at most one name per row |
| `Resolver.GetAutocompleteSuggestions` | demo.py:89-121 | the two loops build exactly `Resolve(term, engine)`; the log of sent expressions is the exact expression, followed by the fuzzy expression exactly when the gate is open |
| `Resolver.Resolve` | demo.py:89-121 | the returned list as a function of the term and the engine: the exact rows, merged with the fuzzy rows when the gate is open |
| `Resolver.FuzzyGate` | demo.py:105 | the fuzzy stage runs when fewer than 5 exact rows came back and the term has at least 4 characters |
| `Resolver.AppendNewMembers` | demo.py:115-117 | after the loop a name is listed exactly when it was listed before or is a fuzzy row |
| `Resolver.AddedStep` | demo.py:116-117 | one iteration adds the row exactly when it is not yet listed |
| `Resolver.AddedFromRows` | demo.py:115-117 | every added name is a fuzzy row not listed before |
| `Resolver.AddedDistinct` | demo.py:115-117 | the added names are pairwise distinct |
| `Resolver.AddedOrder` | demo.py:115-117 | the added names keep the order of their first occurrence among the fuzzy rows |
| `Resolver.AppendNewDistinct` | demo.py:115-117 | a duplicate-free list stays duplicate-free |
| `Resolver.FirstStagePrefix` | demo.py:101-105 | the exact-search rows are the result's prefix in engine order; with the gate closed the result is exactly those rows and does not depend on the fuzzy query |
| `Resolver.ResolveMembers` | demo.py:101-117 | a name is returned iff it is an exact-search row, or a fuzzy row with the gate open |
| `Resolver.ResolveFuzzyTail` | demo.py:104-117 | names after the prefix exist only with the gate open, are fuzzy rows absent from the first stage, distinct, in fuzzy order |
| `Resolver.ResolveBound` | demo.py:98-112 | with 10-row limits, at most 10 names when fuzzy is skipped and at most 14 when it runs |
| `Resolver.ResolveDistinct` | demo.py:101-117 | a name both stages return appears once, at its first-stage place, when the first stage had no duplicates |
| `Selection.SelectBest` | demo.py:133-137 | an empty list gives `""`; the answer is `""` or the head; a non-empty answer case-insensitively extends the term; a head that extends the term is returned |
| `Selection.ExtendsTerm` | demo.py:136 | the candidate, lowered, starts with the lowered term |
| `Selection.Autocomplete` | demo.py:128-138 | the handler's answer as a function: the best candidate of `Resolve` for the term, which defaults to `""` |
| `Selection.AutocompleteHandler` | demo.py:128-138 | the handler's answer is the best candidate of the resolved list for the term, defaulting to `""` |
| `Selection.EmptyTermSelectsHead` | demo.py:130-136 | an empty term selects the head of a non-empty list |
| `Selection.SelectIgnoresTermCase` | demo.py:136 | the selection does not depend on the term's letter case |
| `Selection.LiteralPrefixSelected` | demo.py:136 | a head that literally starts with the term is selected |
| `Selection.SelectExamples` | demo.py:133-137 | `"ip"` selects `"iPhone"` from `["iPhone", "ipod"]` and nothing from `["samsung"]` |
| `Selection.AutocompleteFromHead` | demo.py:131-137 | the answer depends only on the first exact row, or on the fuzzy rows when the exact search was empty and the gate open |
| `Selection.MissingTermReturnsTopRow` | demo.py:130-137 | without a term argument the answer is the engine's top row for `name:`, when there is one |

## Left out

- `get_connection` and the connect, cursor and close calls (demo.py:6-16, 86-87, 119-120): I/O against an external database client.
- `setup_schema` (demo.py:18-67): table creation, seed rows and index flush run inside the database; nothing of it is visible to the policy.
- BM25 ranking, n-gram tokenisation and `~1` fuzzy matching: done by the engine; the oracle's answers stand for them.
- The SQL text around the expressions (demo.py:93-99, 107-113): the expression is embedded verbatim; SQL semantics and the resulting injection risk are not modelled beyond `FuzzyExprIsExactOfMarkedTerm`.
- Exceptions from the database: they propagate unhandled in the source; the oracle always answers.
- Flask routing, `render_template`, `jsonify`, `request.args` and `app.run` (demo.py:1-4, 123-126, 138-142): web-framework glue; only the `term` default of `""` is kept.
- `PyStr.Lower`: models ASCII lowering only, not Python's full Unicode case mapping.
