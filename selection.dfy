/** The `/autocomplete` handler of demo.py: resolve the term, then offer the
    top-ranked name as an inline completion only if it extends what was typed. */
module Selection {
  import opened PyStr
  import opened Wrappers
  import opened SearchExpr
  import opened Resolver

  /** `candidate.lower().startswith(term.lower())`. */
  predicate ExtendsTerm(candidate: string, term: string) {
    StartsWith(Lower(candidate), Lower(term))
  }

  /** The best candidate: the list's head when it extends the term, else `""`. */
  function SelectBest(term: string, suggestions: seq<string>): (best: string)
    ensures suggestions == [] ==> best == ""
    ensures best == "" || (suggestions != [] && best == suggestions[0])
    ensures best != "" ==> ExtendsTerm(best, term)
    ensures suggestions != [] && ExtendsTerm(suggestions[0], term) ==> best == suggestions[0]
  {
    if suggestions != [] && ExtendsTerm(suggestions[0], term) then suggestions[0] else ""
  }

  /** The JSON `suggestion` the handler answers for the query argument `term`,
      which defaults to `""` when absent. */
  function Autocomplete(termArg: Option<string>, engine: string -> seq<string>): string {
    var term := termArg.GetOr("");
    SelectBest(term, Resolve(term, engine))
  }

  /** The handler as the source runs it: call the resolver method, then pick
      from its list. `Autocomplete` is the same answer as a function, for the
      lemmas, which cannot call a method. */
  method AutocompleteHandler(termArg: Option<string>, engine: string -> seq<string>)
    returns (suggestion: string)
    ensures suggestion == Autocomplete(termArg, engine)
  {
    var term := termArg.GetOr("");
    var suggestions;
    ghost var issued;
    suggestions, issued := GetAutocompleteSuggestions(term, engine);
    suggestion := SelectBest(term, suggestions);
  }

  // ---------------------------------------------------------------------
  // Properties of the selection

  /** Every string extends the empty term, so an empty term selects the head. */
  lemma EmptyTermSelectsHead(suggestions: seq<string>)
    requires suggestions != []
    ensures SelectBest("", suggestions) == suggestions[0]
  {
  }

  /** The term's letter case does not matter. */
  lemma SelectIgnoresTermCase(term: string, suggestions: seq<string>)
    ensures SelectBest(term, suggestions) == SelectBest(Lower(term), suggestions)
  {
  }

  /** A head that literally starts with the term is always selected. */
  lemma LiteralPrefixSelected(term: string, suggestions: seq<string>)
    requires suggestions != [] && StartsWith(suggestions[0], term)
    ensures SelectBest(term, suggestions) == suggestions[0]
  {
  }

  /** The two documented cases: `"ip"` completes to `"iPhone"` from
      `["iPhone", "ipod"]`, and to nothing from `["samsung"]`. */
  lemma SelectExamples()
    ensures SelectBest("ip", ["iPhone", "ipod"]) == "iPhone"
    ensures SelectBest("ip", ["samsung"]) == ""
  {
  }

  // ---------------------------------------------------------------------
  // Properties of the handler

  /** Only the head of the merged list matters: it is the first exact-search
      row when there is one, the first fuzzy row when the exact search found
      nothing and the gate is open, and otherwise there is no suggestion. */
  lemma AutocompleteFromHead(termArg: Option<string>, engine: string -> seq<string>)
    ensures var term := termArg.GetOr("");
      var first := engine(ExactExpr(term));
      var fuzzy := engine(FuzzyExpr(term));
      (first != [] ==> Autocomplete(termArg, engine) == SelectBest(term, [first[0]])) &&
      (first == [] && FuzzyGate(0, term) ==> Autocomplete(termArg, engine) == SelectBest(term, fuzzy)) &&
      (first == [] && !FuzzyGate(0, term) ==> Autocomplete(termArg, engine) == "")
  {
  }

  /** Without a `term` argument the handler searches `name:` and returns the
      engine's top row for it, if any, since every name extends `""`. */
  lemma MissingTermReturnsTopRow(engine: string -> seq<string>)
    requires engine(FieldSelector) != []
    ensures Autocomplete(None, engine) == engine(FieldSelector)[0]
  {
    assert ExactExpr("") == FieldSelector;
    FirstStagePrefix("", engine, engine);
    EmptyTermSelectsHead(Resolve("", engine));
  }
}
