/** The suggestion resolver of demo.py: one exact search, then, for sparse
    results on a long enough term, one fuzzy search whose new names are
    appended. The database is an oracle `engine` that maps a search expression
    to the names it returns, already ranked by score and cut to positive scores. */
module Resolver {
  import opened SearchExpr

  /** The fuzzy stage runs only below this many first-stage rows ... */
  const FuzzyThreshold: nat := 5
  /** ... and only for terms of at least this many characters. */
  const MinFuzzyLength: nat := 4
  /** The LIMIT of both queries. */
  const RowLimit: nat := 10

  /** The condition guarding the fuzzy stage. */
  predicate FuzzyGate(firstCount: nat, term: string) {
    firstCount < FuzzyThreshold && |term| >= MinFuzzyLength
  }

  predicate Distinct(s: seq<string>) {
    forall i, j :: 0 <= i < j < |s| ==> s[i] != s[j]
  }

  /** Position of the first occurrence of `x` in `s`. */
  function IndexOf(s: seq<string>, x: string): (k: nat)
    requires x in s
    ensures k < |s| && s[k] == x && x !in s[..k]
  {
    if s[0] == x then 0 else 1 + IndexOf(s[1..], x)
  }

  /** Appends, in order, each row not already present in the growing list. */
  function AppendNew(acc: seq<string>, rows: seq<string>): (r: seq<string>)
    ensures |acc| <= |r| <= |acc| + |rows|
    ensures r[..|acc|] == acc
    decreases |rows|
  {
    if rows == [] then acc
    else AppendNew(if rows[0] in acc then acc else acc + [rows[0]], rows[1..])
  }

  /** The names `AppendNew` adds after `acc`. */
  function Added(acc: seq<string>, rows: seq<string>): seq<string> {
    AppendNew(acc, rows)[|acc|..]
  }

  /** The list `get_autocomplete_suggestions` returns for `term`. */
  function Resolve(term: string, engine: string -> seq<string>): seq<string> {
    var first := engine(ExactExpr(term));
    if FuzzyGate(|first|, term) then AppendNew(first, engine(FuzzyExpr(term))) else first
  }

  /** The resolver as the source runs it: a list built by two loops of appends.
      `issued` records, in order, the search expressions sent to the engine. */
  method GetAutocompleteSuggestions(userInput: string, engine: string -> seq<string>)
    returns (suggestions: seq<string>, ghost issued: seq<string>)
    ensures suggestions == Resolve(userInput, engine)
    ensures issued == [ExactExpr(userInput)] +
      (if FuzzyGate(|engine(ExactExpr(userInput))|, userInput) then [FuzzyExpr(userInput)] else [])
  {
    suggestions := [];
    var prefixExpr := ExactExpr(userInput);
    var rows := engine(prefixExpr);
    issued := [prefixExpr];
    for i := 0 to |rows|
      invariant suggestions == rows[..i]
    {
      suggestions := suggestions + [rows[i]];
    }
    assert suggestions == rows;
    if |suggestions| < FuzzyThreshold && |userInput| >= MinFuzzyLength {
      var fuzzyExpr := FuzzyExpr(userInput);
      var fuzzyRows := engine(fuzzyExpr);
      issued := issued + [fuzzyExpr];
      for j := 0 to |fuzzyRows|
        invariant AppendNew(suggestions, fuzzyRows[j..]) == AppendNew(rows, fuzzyRows)
      {
        assert fuzzyRows[j..][1..] == fuzzyRows[j + 1..];
        if fuzzyRows[j] !in suggestions {
          suggestions := suggestions + [fuzzyRows[j]];
        }
      }
    }
  }

  // ---------------------------------------------------------------------
  // Properties of the merge

  /** Every name of the merged list comes from `acc` or `rows`, and every row is in it. */
  lemma {:induction false} AppendNewMembers(acc: seq<string>, rows: seq<string>)
    ensures forall x :: x in AppendNew(acc, rows) <==> x in acc || x in rows
    decreases |rows|
  {
    if rows != [] {
      var acc' := if rows[0] in acc then acc else acc + [rows[0]];
      AppendNewMembers(acc', rows[1..]);
      assert rows == [rows[0]] + rows[1..];
    }
  }

  /** Dropping the first row: the added names either stay the same (the row
      was already present) or gain that row in front. */
  lemma AddedStep(acc: seq<string>, rows: seq<string>)
    requires rows != []
    ensures rows[0] in acc ==> Added(acc, rows) == Added(acc, rows[1..])
    ensures rows[0] !in acc ==> Added(acc, rows) == [rows[0]] + Added(acc + [rows[0]], rows[1..])
  {
  }

  /** Each added name is a row that was not already in `acc`. */
  lemma {:induction false} AddedFromRows(acc: seq<string>, rows: seq<string>)
    ensures forall i :: 0 <= i < |Added(acc, rows)| ==> Added(acc, rows)[i] in rows && Added(acc, rows)[i] !in acc
    decreases |rows|
  {
    if rows != [] {
      var x := rows[0];
      var acc' := if x in acc then acc else acc + [x];
      AddedStep(acc, rows);
      AddedFromRows(acc', rows[1..]);
      assert forall y :: y in rows[1..] ==> y in rows;
    }
  }

  /** The added names are pairwise distinct. */
  lemma {:induction false} AddedDistinct(acc: seq<string>, rows: seq<string>)
    ensures Distinct(Added(acc, rows))
    decreases |rows|
  {
    if rows != [] {
      var x := rows[0];
      var acc' := if x in acc then acc else acc + [x];
      AddedStep(acc, rows);
      AddedDistinct(acc', rows[1..]);
      if x !in acc {
        AddedFromRows(acc', rows[1..]);
        var a' := Added(acc', rows[1..]);
        assert forall i :: 0 <= i < |a'| ==> a'[i] != x;
      }
    }
  }

  /** The added names keep the order of their first occurrence in `rows`. */
  lemma {:induction false} AddedOrder(acc: seq<string>, rows: seq<string>)
    ensures forall i :: 0 <= i < |Added(acc, rows)| ==> Added(acc, rows)[i] in rows
    ensures forall i, j :: 0 <= i < j < |Added(acc, rows)| ==>
      IndexOf(rows, Added(acc, rows)[i]) < IndexOf(rows, Added(acc, rows)[j])
    decreases |rows|
  {
    AddedFromRows(acc, rows);
    if rows != [] {
      var x := rows[0];
      var tail := rows[1..];
      var acc' := if x in acc then acc else acc + [x];
      AddedStep(acc, rows);
      AddedOrder(acc', tail);
      AddedFromRows(acc', tail);
      var a' := Added(acc', tail);
      assert forall i :: 0 <= i < |a'| ==> a'[i] != x && IndexOf(rows, a'[i]) == 1 + IndexOf(tail, a'[i]);
    }
  }

  /** If `acc` holds no duplicate, neither does the merged list. */
  lemma AppendNewDistinct(acc: seq<string>, rows: seq<string>)
    requires Distinct(acc)
    ensures Distinct(AppendNew(acc, rows))
  {
    AddedFromRows(acc, rows);
    AddedDistinct(acc, rows);
    var r := AppendNew(acc, rows);
    assert r == acc + Added(acc, rows);
  }

  // ---------------------------------------------------------------------
  // Properties of the resolver

  /** The first-stage rows are the returned list's prefix, in engine order;
      when the gate is closed the list is exactly those rows and the fuzzy
      query's answer has no influence on it. */
  lemma FirstStagePrefix(term: string, engine: string -> seq<string>, other: string -> seq<string>)
    ensures var first := engine(ExactExpr(term));
      |first| <= |Resolve(term, engine)| && Resolve(term, engine)[..|first|] == first
    ensures !FuzzyGate(|engine(ExactExpr(term))|, term) ==> Resolve(term, engine) == engine(ExactExpr(term))
    ensures other(ExactExpr(term)) == engine(ExactExpr(term)) && !FuzzyGate(|engine(ExactExpr(term))|, term)
      ==> Resolve(term, other) == Resolve(term, engine)
  {
  }

  /** A name is returned exactly when it is a first-stage row, or a fuzzy row with the gate open. */
  lemma ResolveMembers(term: string, engine: string -> seq<string>, x: string)
    ensures var first := engine(ExactExpr(term));
      x in Resolve(term, engine) <==>
        x in first || (FuzzyGate(|first|, term) && x in engine(FuzzyExpr(term)))
  {
    AppendNewMembers(engine(ExactExpr(term)), engine(FuzzyExpr(term)));
  }

  /** The names after the first-stage prefix are fuzzy rows not among the
      first-stage rows, pairwise distinct, in the fuzzy query's order. */
  lemma ResolveFuzzyTail(term: string, engine: string -> seq<string>)
    ensures var first := engine(ExactExpr(term));
      var fuzzy := engine(FuzzyExpr(term));
      var tail := Resolve(term, engine)[|first|..];
      (tail != [] ==> FuzzyGate(|first|, term)) &&
      (forall i :: 0 <= i < |tail| ==> tail[i] in fuzzy && tail[i] !in first) &&
      Distinct(tail) &&
      (forall i, j :: 0 <= i < j < |tail| ==> IndexOf(fuzzy, tail[i]) < IndexOf(fuzzy, tail[j]))
  {
    AddedFromRows(engine(ExactExpr(term)), engine(FuzzyExpr(term)));
    AddedDistinct(engine(ExactExpr(term)), engine(FuzzyExpr(term)));
    AddedOrder(engine(ExactExpr(term)), engine(FuzzyExpr(term)));
  }

  /** With the engine's LIMIT of 10 rows per query, the list has at most 10
      names when the fuzzy stage is skipped and at most 14 when it runs. */
  lemma ResolveBound(term: string, engine: string -> seq<string>)
    requires |engine(ExactExpr(term))| <= RowLimit
    requires |engine(FuzzyExpr(term))| <= RowLimit
    ensures FuzzyGate(|engine(ExactExpr(term))|, term) ==>
      |Resolve(term, engine)| <= FuzzyThreshold - 1 + RowLimit
    ensures !FuzzyGate(|engine(ExactExpr(term))|, term) ==> |Resolve(term, engine)| <= RowLimit
  {
  }

  /** A name that both stages return appears once, at its first-stage place,
      provided the first stage itself returned it once. */
  lemma ResolveDistinct(term: string, engine: string -> seq<string>)
    requires Distinct(engine(ExactExpr(term)))
    ensures Distinct(Resolve(term, engine))
  {
    if FuzzyGate(|engine(ExactExpr(term))|, term) {
      AppendNewDistinct(engine(ExactExpr(term)), engine(FuzzyExpr(term)));
    }
  }
}
