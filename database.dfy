/**
 * The two dynamic SQL builders of the LightBnB data-access layer
 * (LightBnB_WebApp/server/database.js): the filtered property search
 * `getAllProperties` and the generic property insert `addProperty`.
 *
 * An options or property object is given as the sequence of its entries in
 * `Object.keys` order. Each builder returns the SQL text and the list of
 * positional parameter values that it hands to the database pool; running
 * the query is not part of this model.
 */
module Database {
  import opened JsText
  import opened JsValues

  /** One own enumerable property of an options or property object. */
  datatype Entry = Entry(key: string, value: JsValue)

  // ---------------------------------------------------------------------
  // The property search: constants

  const City := "city"
  const MinimumRating := "minimum_rating"
  const MaximumPrice := "maximum_price_per_night"
  const MinimumPrice := "minimum_price_per_night"

  /** The limit used when the caller passes none. */
  const DefaultLimit := 10

  const WhereToken := "WHERE"
  const RatingToken := "RATING"

  /**
   * The search template is SearchHead + "WHERE" + SearchMiddle + "RATING" +
   * SearchTail; each constant below is one line of it, the long ones in two
   * literals.
   */
  const SelectLine := "SELECT properties.*, " + "AVG(rating) AS average_rating"
  const FromLine := "\n\tFROM properties"
  const JoinLine := "\n\tJOIN property_reviews"
  const OnLine := "\n\tON properties.id = " + "property_reviews.property_id"
  const GroupLine := "\n\tGROUP BY properties.id"
  const OrderLine := "\n\tORDER BY cost_per_night"
  const LimitLine := "\n\tLIMIT $1"
  /** The new line and tab in front of each token. */
  const Indent := "\n\t"

  const SearchHead: string := SelectLine + FromLine + JoinLine + OnLine + Indent
  const SearchMiddle: string := GroupLine + Indent
  const SearchTail: string := OrderLine + LimitLine
  const SearchTemplate: string := SearchHead + WhereToken + SearchMiddle + RatingToken + SearchTail

  // ---------------------------------------------------------------------
  // The property search: what one option contributes

  /** `limit = 10`: the default applies when the argument is undefined. */
  function LimitValue(limit: JsValue): JsValue {
    if limit == Undefined then Num(DefaultLimit) else limit
  }

  /** The positional placeholder `$n`. */
  function Placeholder(n: nat): string {
    "$" + NatToString(n)
  }

  /** The parameter value an accepted option pushes. */
  function ParamFor(e: Entry): JsValue {
    if e.key == City then Str("%" + ToStr(e.value) + "%")
    else if e.key == MaximumPrice || e.key == MinimumPrice then Times100(ParseIntValue(e.value))
    else ParseIntValue(e.value)
  }

  /** The WHERE condition an accepted option other than `minimum_rating` adds, bound to `$n`. */
  function ConditionFor(key: string, n: nat): string {
    if key == City then City + " ILIKE " + Placeholder(n)
    else if key == MaximumPrice then "cost_per_night < " + Placeholder(n)
    else if key == MinimumPrice then "cost_per_night > " + Placeholder(n)
    else key + " = " + Placeholder(n)
  }

  /** The HAVING clause a `minimum_rating` option sets, bound to `$n`. */
  function HavingFor(n: nat): string {
    "HAVING AVG(rating) >= " + Placeholder(n)
  }

  // ---------------------------------------------------------------------
  // The property search: what all options contribute

  /** The options whose value is truthy, in key order. */
  function Accepted(options: seq<Entry>): seq<Entry> {
    if options == [] then []
    else
      var last := options[|options| - 1];
      Accepted(options[..|options| - 1]) + (if Truthy(last.value) then [last] else [])
  }

  /** The conditions collected from the accepted options `acc`, the first of which is bound to `$first`. */
  function Conditions(acc: seq<Entry>, first: nat): seq<string> {
    if acc == [] then []
    else
      var last := acc[|acc| - 1];
      var before := Conditions(acc[..|acc| - 1], first);
      if last.key == MinimumRating then before
      else before + [ConditionFor(last.key, first + |acc| - 1)]
  }

  /** The rating clause: that of the last `minimum_rating` among `acc`, or "" when there is none. */
  function Rating(acc: seq<Entry>, first: nat): string {
    if acc == [] then ""
    else if acc[|acc| - 1].key == MinimumRating then HavingFor(first + |acc| - 1)
    else Rating(acc[..|acc| - 1], first)
  }

  /** The number of entries in `acc` with key `key`. */
  function CountKey(acc: seq<Entry>, key: string): nat {
    if acc == [] then 0
    else CountKey(acc[..|acc| - 1], key) + (if acc[|acc| - 1].key == key then 1 else 0)
  }

  /** What replaces the `WHERE` token. */
  function WhereText(conditions: seq<string>): string {
    if |conditions| > 0 then "WHERE " + Join(conditions, " AND ") else ""
  }

  /** What replaces the `RATING` token. */
  function RatingText(rating: string): string {
    if |rating| > 0 then rating else ""
  }

  /** The two `replace` calls that splice the collected parts into the template. */
  function SpliceSearch(conditions: seq<string>, rating: string): string {
    ReplaceFirst(ReplaceFirst(SearchTemplate, WhereToken, WhereText(conditions)), RatingToken, RatingText(rating))
  }

  /** The search statement built for `options`; placeholders start at `$2` because `$1` is the limit. */
  function SearchSql(options: seq<Entry>): string {
    SpliceSearch(Conditions(Accepted(options), 2), Rating(Accepted(options), 2))
  }

  lemma AcceptedStep(options: seq<Entry>, i: nat)
    requires i < |options|
    ensures Accepted(options[..i + 1]) == Accepted(options[..i]) + (if Truthy(options[i].value) then [options[i]] else [])
  {
    assert options[..i + 1][..i] == options[..i];
  }

  /** Appending one accepted option to `acc` extends the conditions or sets the rating clause. */
  lemma SearchStep(acc: seq<Entry>, e: Entry, first: nat)
    ensures Conditions(acc + [e], first) ==
      Conditions(acc, first) + (if e.key == MinimumRating then [] else [ConditionFor(e.key, first + |acc|)])
    ensures Rating(acc + [e], first) ==
      if e.key == MinimumRating then HavingFor(first + |acc|) else Rating(acc, first)
  {
    assert (acc + [e])[..|acc|] == acc;
  }

  /** The texts and values each branch of the option switch produces. */
  lemma OptionBranches(e: Entry, n: nat)
    ensures e.key == City ==>
      ParamFor(e) == Str("%" + ToStr(e.value) + "%") && ConditionFor(e.key, n) == e.key + " ILIKE " + Placeholder(n)
    ensures e.key == MinimumRating ==> ParamFor(e) == ParseIntValue(e.value)
    ensures e.key == MaximumPrice ==>
      ParamFor(e) == Times100(ParseIntValue(e.value)) && ConditionFor(e.key, n) == "cost_per_night < " + Placeholder(n)
    ensures e.key == MinimumPrice ==>
      ParamFor(e) == Times100(ParseIntValue(e.value)) && ConditionFor(e.key, n) == "cost_per_night > " + Placeholder(n)
    ensures e.key !in {City, MinimumRating, MaximumPrice, MinimumPrice} ==>
      ParamFor(e) == ParseIntValue(e.value) && ConditionFor(e.key, n) == e.key + " = " + Placeholder(n)
  {
  }

  // ---------------------------------------------------------------------
  // The property search builder

  /**
   * The forEach callback for an option with a truthy value: the switch on its
   * key pushes the parameter value and collects the condition or the rating
   * clause bound to `$counter`, and moves the counter on.
   */
  method AddOption(e: Entry, counter: nat, values: seq<JsValue>, conditions: seq<string>, rating: string)
    returns (nextCounter: nat, nextValues: seq<JsValue>, nextConditions: seq<string>, nextRating: string)
    ensures nextCounter == counter + 1
    ensures nextValues == values + [ParamFor(e)]
    ensures nextConditions == conditions + (if e.key == MinimumRating then [] else [ConditionFor(e.key, counter)])
    ensures nextRating == if e.key == MinimumRating then HavingFor(counter) else rating
  {
    OptionBranches(e, counter);
    nextValues, nextConditions, nextRating := values, conditions, rating;
    if e.key == City {
      nextValues := values + [Str("%" + ToStr(e.value) + "%")];
      nextConditions := conditions + [e.key + " ILIKE " + Placeholder(counter)];
    } else if e.key == MinimumRating {
      nextValues := values + [ParseIntValue(e.value)];
      nextRating := "HAVING AVG(rating) >= " + Placeholder(counter);
    } else if e.key == MaximumPrice {
      nextValues := values + [Times100(ParseIntValue(e.value))];
      nextConditions := conditions + ["cost_per_night < " + Placeholder(counter)];
    } else if e.key == MinimumPrice {
      nextValues := values + [Times100(ParseIntValue(e.value))];
      nextConditions := conditions + ["cost_per_night > " + Placeholder(counter)];
    } else {
      nextValues := values + [ParseIntValue(e.value)];
      nextConditions := conditions + [e.key + " = " + Placeholder(counter)];
    }
    nextCounter := counter + 1;
  }

  /**
   * getAllProperties up to the query call: walks the options in key order,
   * skips falsy values, pushes one parameter per accepted option and collects
   * its condition or rating clause, then splices them into the template.
   */
  method GetAllProperties(options: seq<Entry>, limit: JsValue) returns (query: string, values: seq<JsValue>)
    ensures |values| == |Accepted(options)| + 1
    ensures values[0] == LimitValue(limit)
    ensures forall j :: 0 <= j < |Accepted(options)| ==> values[j + 1] == ParamFor(Accepted(options)[j])
    ensures query == SearchSql(options)
  {
    var conditions: seq<string> := [];
    values := [LimitValue(limit)];
    var rating := "";
    var counter: nat := 2;
    ghost var acc: seq<Entry> := [];
    for i := 0 to |options|
      invariant acc == Accepted(options[..i])
      invariant counter == |values| + 1
      invariant |values| == |acc| + 1 && values[0] == LimitValue(limit)
      invariant forall j :: 0 <= j < |acc| ==> values[j + 1] == ParamFor(acc[j])
      invariant conditions == Conditions(acc, 2)
      invariant rating == Rating(acc, 2)
    {
      var e := options[i];
      AcceptedStep(options, i);
      if Truthy(e.value) {
        SearchStep(acc, e, 2);
        counter, values, conditions, rating := AddOption(e, counter, values, conditions, rating);
        acc := acc + [e];
      }
    }
    assert options[..|options|] == options;
    query := ReplaceFirst(SearchTemplate, WhereToken, if |conditions| > 0 then "WHERE " + Join(conditions, " AND ") else "");
    query := ReplaceFirst(query, RatingToken, if |rating| > 0 then rating else "");
  }

  // ---------------------------------------------------------------------
  // The property search: which options are accepted

  /** An option is accepted exactly when it is one of the options and its value is truthy. */
  lemma {:induction false} AcceptedMembers(options: seq<Entry>, e: Entry)
    ensures e in Accepted(options) <==> e in options && Truthy(e.value)
  {
    if options != [] {
      var init := options[..|options| - 1];
      AcceptedMembers(init, e);
      assert options == init + [options[|options| - 1]];
    }
  }

  lemma {:induction false} AcceptedConcat(a: seq<Entry>, b: seq<Entry>)
    ensures Accepted(a + b) == Accepted(a) + Accepted(b)
  {
    if b == [] {
      assert a + b == a;
    } else {
      var init := b[..|b| - 1];
      AcceptedConcat(a, init);
      assert (a + b)[..|a + b| - 1] == a + init;
    }
  }

  /**
   * An option whose value is falsy adds nothing: the accepted options, and
   * with them the parameter values and the statement, are those built
   * without it.
   */
  lemma FalsyOptionAddsNothing(before: seq<Entry>, e: Entry, after: seq<Entry>)
    requires !Truthy(e.value)
    ensures Accepted(before + [e] + after) == Accepted(before + after)
    ensures SearchSql(before + [e] + after) == SearchSql(before + after)
  {
    AcceptedConcat(before + [e], after);
    AcceptedConcat(before, [e]);
    AcceptedConcat(before, after);
    assert [e][..0] == [];
  }

  /** A `minimum_rating` of the number 0 is falsy, so it is skipped and filters nothing. */
  lemma ZeroRatingIgnored(before: seq<Entry>, after: seq<Entry>)
    ensures Accepted(before + [Entry(MinimumRating, Num(0))] + after) == Accepted(before + after)
    ensures SearchSql(before + [Entry(MinimumRating, Num(0))] + after) == SearchSql(before + after)
  {
    FalsyOptionAddsNothing(before, Entry(MinimumRating, Num(0)), after);
  }

  /** The text of the number 0 is "0". */
  lemma ZeroNumeral()
    ensures IntToString(0) == "0"
  {
  }

  /**
   * A `minimum_rating` given as the text of a whole number, as a query string
   * carries it, is truthy even for "0" (see `ZeroNumeral`): as the last option
   * it is accepted, bound to the next placeholder as that number, and sets
   * `HAVING AVG(rating) >= $n` for that placeholder.
   */
  lemma RatingTextApplies(before: seq<Entry>, n: int)
    ensures Accepted(before + [Entry(MinimumRating, Str(IntToString(n)))]) == Accepted(before) + [Entry(MinimumRating, Str(IntToString(n)))]
    ensures ParamFor(Entry(MinimumRating, Str(IntToString(n)))) == Num(n)
    ensures Rating(Accepted(before + [Entry(MinimumRating, Str(IntToString(n)))]), 2) == HavingFor(2 + |Accepted(before)|)
  {
    var e := Entry(MinimumRating, Str(IntToString(n)));
    assert Truthy(e.value);
    assert (before + [e])[..|before|] == before;
    SearchStep(Accepted(before), e, 2);
    TextOptionValues(MinimumRating, n);
  }

  // ---------------------------------------------------------------------
  // The property search: conditions, rating clause and placeholders

  /**
   * The accepted option at position j is bound to `$(first + j)`: the
   * conditions of the options before it are a prefix of all conditions and,
   * unless it is `minimum_rating`, its own condition comes right after them.
   */
  lemma {:induction false} ConditionsInOrder(acc: seq<Entry>, first: nat, j: nat)
    requires j < |acc|
    ensures Conditions(acc[..j], first) <= Conditions(acc, first)
    ensures acc[j].key != MinimumRating ==>
      |Conditions(acc[..j], first)| < |Conditions(acc, first)| &&
      Conditions(acc, first)[|Conditions(acc[..j], first)|] == ConditionFor(acc[j].key, first + j)
    decreases |acc|
  {
    var n := |acc|;
    var init := acc[..n - 1];
    if j == n - 1 {
      assert init == acc[..j];
    } else {
      ConditionsInOrder(init, first, j);
      assert init[..j] == acc[..j];
      assert init[j] == acc[j];
      var c := Conditions(init, first);
      assert c <= Conditions(acc, first);
    }
  }

  /** Every accepted option adds one condition, except `minimum_rating`, which adds none. */
  lemma {:induction false} ConditionsCount(acc: seq<Entry>, first: nat)
    ensures |Conditions(acc, first)| + CountKey(acc, MinimumRating) == |acc|
  {
    if acc != [] {
      ConditionsCount(acc[..|acc| - 1], first);
    }
  }

  /** The rating clause is "" exactly when no accepted option is `minimum_rating`. */
  lemma {:induction false} RatingAbsent(acc: seq<Entry>, first: nat)
    ensures Rating(acc, first) == "" <==> forall j :: 0 <= j < |acc| ==> acc[j].key != MinimumRating
  {
    if acc != [] {
      var n := |acc|;
      var init := acc[..n - 1];
      RatingAbsent(init, first);
      assert forall j :: 0 <= j < n - 1 ==> init[j] == acc[j];
      if acc[n - 1].key == MinimumRating {
        assert |HavingFor(first + n - 1)| > 0;
      }
    }
  }

  /** Otherwise it is the HAVING clause bound to the last `minimum_rating` option. */
  lemma {:induction false} RatingFromLast(acc: seq<Entry>, first: nat, j: nat)
    requires j < |acc| && acc[j].key == MinimumRating
    requires forall k :: j < k < |acc| ==> acc[k].key != MinimumRating
    ensures Rating(acc, first) == HavingFor(first + j)
  {
    var n := |acc|;
    if j < n - 1 {
      var init := acc[..n - 1];
      assert acc[n - 1].key != MinimumRating;
      RatingFromLast(init, first, j);
    }
  }

  /** A number option is bound as that number; the two price options are scaled by 100. */
  lemma NumericOptionValues(key: string, n: int)
    requires key != City
    ensures ParamFor(Entry(key, Num(n))) ==
      if key == MaximumPrice || key == MinimumPrice then Num(100 * n) else Num(n)
  {
    ParseIntValueOfNum(n);
  }

  /**
   * Options arrive from a query string as text: the text of a whole number
   * is bound as that number, and for the two price options as 100 times it.
   */
  lemma TextOptionValues(key: string, n: int)
    requires key != City
    ensures ParamFor(Entry(key, Str(IntToString(n)))) ==
      if key == MaximumPrice || key == MinimumPrice then Num(100 * n) else Num(n)
  {
    ParseIntValueOfText(n);
  }

  /** The placeholder `$n` names parameter n: `$` followed by the numeral that parses back to n. */
  lemma PlaceholderDenotes(n: nat)
    ensures Placeholder(n)[0] == '$' && ParseInt(Placeholder(n)[1..]) == Num(n)
  {
    assert Placeholder(n)[1..] == NatToString(n) == IntToString(n);
    ParseIntOfIntToString(n);
  }

  /** Distinct parameter numbers give distinct placeholders. */
  lemma PlaceholdersDistinct(m: nat, n: nat)
    requires m != n
    ensures Placeholder(m) != Placeholder(n)
  {
    DigitsValueOfNatToString(m);
    DigitsValueOfNatToString(n);
    assert Placeholder(m)[1..] == NatToString(m);
    assert Placeholder(n)[1..] == NatToString(n);
  }

  // ---------------------------------------------------------------------
  // The property search: the splice

  /** A key the `RATING` splice cannot mistake for its token, and that `replace` inserts verbatim. */
  ghost predicate SpliceSafe(key: string) {
    Verbatim(key) && NoOcc(key, RatingToken)
  }

  lemma SelectLineFacts()
    ensures 'W' !in SelectLine && NoOcc(SelectLine, RatingToken) && SelectLine[|SelectLine| - 1] == 'g'
  {
    AbsentCharNoOcc(SelectLine, RatingToken, 'R');
  }

  lemma FromLineFacts()
    ensures 'W' !in FromLine && NoOcc(FromLine, RatingToken) && FromLine[0] == '\n' && FromLine[|FromLine| - 1] == 's'
  {
    AbsentCharNoOcc(FromLine, RatingToken, 'A');
  }

  lemma JoinLineFacts()
    ensures 'W' !in JoinLine && NoOcc(JoinLine, RatingToken) && JoinLine[0] == '\n' && JoinLine[|JoinLine| - 1] == 's'
  {
    AbsentCharNoOcc(JoinLine, RatingToken, 'R');
  }

  lemma OnLineFacts()
    ensures 'W' !in OnLine && NoOcc(OnLine, RatingToken) && OnLine[0] == '\n'
  {
    AbsentCharNoOcc(OnLine, RatingToken, 'R');
  }

  lemma IndentFacts()
    ensures 'W' !in Indent && NoOcc(Indent, RatingToken) && Indent[0] == '\n' && Indent[|Indent| - 1] == '\t'
  {
    AbsentCharNoOcc(Indent, RatingToken, 'R');
  }

  lemma SearchHeadFacts()
    ensures 'W' !in SearchHead && NoOcc(SearchHead, RatingToken)
    ensures SearchHead[|SearchHead| - 1] == '\t' && '\t' !in RatingToken && '\t' !in WhereToken
  {
    SelectLineFacts();
    FromLineFacts();
    JoinLineFacts();
    OnLineFacts();
    IndentFacts();
    NoOccGlue(SelectLine, FromLine, RatingToken);
    NoOccGlue(SelectLine + FromLine, JoinLine, RatingToken);
    NoOccGlue(SelectLine + FromLine + JoinLine, OnLine, RatingToken);
    NoOccGlue(SelectLine + FromLine + JoinLine + OnLine, Indent, RatingToken);
  }

  lemma SearchMiddleFacts()
    ensures 'W' !in SearchMiddle && NoOcc(SearchMiddle, RatingToken)
    ensures SearchMiddle[0] == '\n' && SearchMiddle[|SearchMiddle| - 1] == '\t' && '\n' !in RatingToken
  {
    AbsentCharNoOcc(GroupLine, RatingToken, 'A');
    IndentFacts();
    NoOccGlue(GroupLine, Indent, RatingToken);
  }

  lemma SearchTailFacts()
    ensures 'W' !in SearchTail && NoOcc(SearchTail, RatingToken)
    ensures SearchTail[0] == '\n' && '\n' !in RatingToken
  {
    AbsentCharNoOcc(OrderLine, RatingToken, 'A');
    AbsentCharNoOcc(LimitLine, RatingToken, 'R');
    NoOccGlue(OrderLine, LimitLine, RatingToken);
  }

  lemma PlaceholderFacts(n: nat)
    ensures Verbatim(Placeholder(n)) && NoOcc(Placeholder(n), RatingToken) && 'W' !in Placeholder(n)
  {
    var d := NatToString(n);
    assert forall i :: 0 <= i < |d| ==> d[i] != '$' && d[i] != 'R' && d[i] != 'W';
    assert '$' !in d && 'R' !in d;
    NoDollarVerbatim(d);
    assert d[0] !in Specials;
    VerbatimGlue("$", d);
    AbsentCharNoOcc(Placeholder(n), RatingToken, 'R');
  }

  lemma HavingFacts(n: nat)
    ensures Verbatim(HavingFor(n)) && NoOcc(HavingFor(n), RatingToken) && 'W' !in HavingFor(n)
  {
    var text := "HAVING AVG(rating) >= ";
    PlaceholderFacts(n);
    assert '$' !in text && 'R' !in text && 'W' !in text;
    NoDollarVerbatim(text);
    VerbatimGlue(text, Placeholder(n));
    AbsentCharNoOcc(text, RatingToken, 'R');
    NoOccGlue(text, Placeholder(n), RatingToken);
  }

  lemma {:induction false} RatingFacts(acc: seq<Entry>, first: nat)
    ensures Verbatim(Rating(acc, first)) && NoOcc(Rating(acc, first), RatingToken) && 'W' !in Rating(acc, first)
  {
    if acc == [] {
      AbsentCharNoOcc("", RatingToken, 'R');
    } else if acc[|acc| - 1].key == MinimumRating {
      HavingFacts(first + |acc| - 1);
    } else {
      RatingFacts(acc[..|acc| - 1], first);
    }
  }

  lemma ConditionSafe(key: string, n: nat)
    requires SpliceSafe(key)
    ensures Verbatim(ConditionFor(key, n)) && NoOcc(ConditionFor(key, n), RatingToken)
  {
    var p := Placeholder(n);
    PlaceholderFacts(n);
    var text :=
      if key == City then City + " ILIKE "
      else if key == MaximumPrice then "cost_per_night < "
      else if key == MinimumPrice then "cost_per_night > "
      else key + " = ";
    assert ConditionFor(key, n) == text + p;
    if key == City || key == MaximumPrice || key == MinimumPrice {
      assert '$' !in text && 'R' !in text;
      NoDollarVerbatim(text);
      AbsentCharNoOcc(text, RatingToken, 'R');
    } else {
      assert '$' !in " = " && 'R' !in " = ";
      NoDollarVerbatim(" = ");
      VerbatimGlue(key, " = ");
      AbsentCharNoOcc(" = ", RatingToken, 'R');
      NoOccGlue(key, " = ", RatingToken);
    }
    VerbatimGlue(text, p);
    NoOccGlue(text, p, RatingToken);
  }

  lemma {:induction false} ConditionsSafe(acc: seq<Entry>, first: nat)
    requires forall j :: 0 <= j < |acc| ==> SpliceSafe(acc[j].key)
    ensures forall k :: 0 <= k < |Conditions(acc, first)| ==>
      Verbatim(Conditions(acc, first)[k]) && NoOcc(Conditions(acc, first)[k], RatingToken)
  {
    if acc != [] {
      var n := |acc|;
      ConditionsSafe(acc[..n - 1], first);
      if acc[n - 1].key != MinimumRating {
        ConditionSafe(acc[n - 1].key, first + n - 1);
      }
    }
  }

  lemma WhereTextFacts(conditions: seq<string>)
    requires forall k :: 0 <= k < |conditions| ==> Verbatim(conditions[k]) && NoOcc(conditions[k], RatingToken)
    ensures Verbatim(WhereText(conditions)) && NoOcc(WhereText(conditions), RatingToken)
  {
    if conditions == [] {
      AbsentCharNoOcc("", RatingToken, 'R');
    } else {
      var and, where := " AND ", "WHERE ";
      assert '$' !in and && 'R' !in and && '$' !in where && 'A' !in where;
      NoDollarVerbatim(and);
      NoDollarVerbatim(where);
      AbsentCharNoOcc(and, RatingToken, 'R');
      AbsentCharNoOcc(where, RatingToken, 'A');
      JoinVerbatim(conditions, and);
      JoinNoOcc(conditions, and, RatingToken);
      VerbatimGlue(where, Join(conditions, and));
      NoOccGlue(where, Join(conditions, and), RatingToken);
    }
  }

  /**
   * The two `replace` calls splice the WHERE text and the rating text in
   * place of their tokens, provided neither the WHERE text holds the word
   * `RATING` nor either text a special `$` pattern.
   */
  lemma SpliceShape(conditions: seq<string>, rating: string)
    requires forall k :: 0 <= k < |conditions| ==> Verbatim(conditions[k]) && NoOcc(conditions[k], RatingToken)
    requires Verbatim(rating)
    ensures SpliceSearch(conditions, rating) ==
      SearchHead + WhereText(conditions) + SearchMiddle + RatingText(rating) + SearchTail
  {
    var w := WhereText(conditions);
    SearchHeadFacts();
    SearchMiddleFacts();
    AbsentCharNoOcc(SearchHead, WhereToken, 'W');
    WhereTextFacts(conditions);
    NoOccGlue(SearchHead, w, RatingToken);
    NoOccGlue(SearchHead + w, SearchMiddle, RatingToken);
    assert (SearchHead + w + SearchMiddle)[|SearchHead + w + SearchMiddle| - 1] == SearchMiddle[|SearchMiddle| - 1];
    ReplaceTwiceAt(SearchHead, WhereToken, SearchMiddle, RatingToken, SearchTail, w, RatingText(rating));
  }

  /** Whatever the splice inserts, the head of the template stays in front and its tail at the end. */
  lemma SpliceFrame(conditions: seq<string>, rating: string)
    ensures StartsWith(SpliceSearch(conditions, rating), SearchHead)
    ensures EndsWith(SpliceSearch(conditions, rating), SearchTail)
  {
    SearchHeadFacts();
    AbsentCharNoOcc(SearchHead, WhereToken, 'W');
    ReplaceTwiceFrame(SearchHead, WhereToken, SearchMiddle, RatingToken, SearchTail,
      WhereText(conditions), RatingText(rating));
  }

  // ---------------------------------------------------------------------
  // The property search: the statement

  /**
   * For every options object the statement starts with the SELECT ... ON
   * lines and ends with `ORDER BY cost_per_night` and `LIMIT $1`.
   */
  lemma SearchStatementFrame(options: seq<Entry>)
    ensures StartsWith(SearchSql(options), SearchHead)
    ensures EndsWith(SearchSql(options), SearchTail) && EndsWith(SearchSql(options), LimitLine)
  {
    SpliceFrame(Conditions(Accepted(options), 2), Rating(Accepted(options), 2));
    EndsWithSuffix(SearchSql(options), OrderLine, LimitLine);
  }

  lemma AcceptedSafe(options: seq<Entry>)
    requires forall i :: 0 <= i < |options| ==> SpliceSafe(options[i].key)
    ensures forall j :: 0 <= j < |Accepted(options)| ==> SpliceSafe(Accepted(options)[j].key)
  {
    var acc := Accepted(options);
    forall j | 0 <= j < |acc| ensures SpliceSafe(acc[j].key) {
      AcceptedMembers(options, acc[j]);
      var i :| 0 <= i < |options| && options[i] == acc[j];
    }
  }

  /**
   * With keys that are splice-safe, the statement is the template with
   * `WHERE c1 AND c2 ...` (or nothing, when there are no conditions) in place
   * of WHERE and the rating clause (or nothing) in place of RATING.
   */
  lemma SearchSqlShape(options: seq<Entry>)
    requires forall i :: 0 <= i < |options| ==> SpliceSafe(options[i].key)
    ensures SearchSql(options) ==
      SearchHead + WhereText(Conditions(Accepted(options), 2)) + SearchMiddle + Rating(Accepted(options), 2) + SearchTail
  {
    SplicedShape(options);
  }

  lemma SplicedShape(options: seq<Entry>)
    requires forall i :: 0 <= i < |options| ==> SpliceSafe(options[i].key)
    ensures SpliceSearch(Conditions(Accepted(options), 2), Rating(Accepted(options), 2)) ==
      SearchHead + WhereText(Conditions(Accepted(options), 2)) + SearchMiddle + Rating(Accepted(options), 2) + SearchTail
  {
    SplicedPartsSafe(options);
    SpliceShape(Conditions(Accepted(options), 2), Rating(Accepted(options), 2));
  }

  lemma SplicedPartsSafe(options: seq<Entry>)
    requires forall i :: 0 <= i < |options| ==> SpliceSafe(options[i].key)
    ensures forall k :: 0 <= k < |Conditions(Accepted(options), 2)| ==>
      Verbatim(Conditions(Accepted(options), 2)[k]) && NoOcc(Conditions(Accepted(options), 2)[k], RatingToken)
    ensures Verbatim(Rating(Accepted(options), 2))
  {
    AcceptedSafe(options);
    ConditionsSafe(Accepted(options), 2);
    RatingFacts(Accepted(options), 2);
  }

  /** Without conditions, no WHERE keyword is left in the statement, whatever the options. */
  lemma NoDanglingWhere(options: seq<Entry>)
    requires Conditions(Accepted(options), 2) == []
    ensures NoOcc(SearchSql(options), WhereToken)
  {
    var acc := Accepted(options);
    var r := Rating(acc, 2);
    RatingFacts(acc, 2);
    SpliceShape([], r);
    SearchHeadFacts();
    SearchMiddleFacts();
    SearchTailFacts();
    assert 'W' !in SearchHead + "" + SearchMiddle + r + SearchTail;
    AbsentCharNoOcc(SearchSql(options), WhereToken, 'W');
  }

  /** The statement holds a WHERE keyword exactly when some condition was collected, whatever the options. */
  lemma WhereIffConditions(options: seq<Entry>)
    ensures NoOcc(SearchSql(options), WhereToken) <==> Conditions(Accepted(options), 2) == []
  {
    var acc := Accepted(options);
    var conditions := Conditions(acc, 2);
    if conditions == [] {
      NoDanglingWhere(options);
    } else {
      WhereOccurs(options);
      OccursRefutesNoOcc(SearchSql(options), WhereToken, |SearchHead|);
    }
  }

  /** With at least one condition, `WHERE` stands right after the ON line, whatever the options. */
  lemma WhereOccurs(options: seq<Entry>)
    requires Conditions(Accepted(options), 2) != []
    ensures Occurs(SearchSql(options), WhereToken, |SearchHead|)
  {
    var lead := "WHERE ";
    WhereLeads(Conditions(Accepted(options), 2), Rating(Accepted(options), 2));
    OccursInPrefix(SearchSql(options), SearchHead, lead, WhereToken);
  }

  /**
   * With at least one condition, the statement starts with the SELECT ... ON
   * lines followed by `WHERE `, whatever the conditions and the rating clause
   * hold: `WHERE ` has no `$` and the RATING token cannot start inside it.
   */
  lemma WhereLeads(conditions: seq<string>, rating: string)
    requires conditions != []
    ensures StartsWith(SpliceSearch(conditions, rating), SearchHead + "WHERE ")
  {
    var lead := "WHERE ";
    var rest := SearchMiddle + RatingToken + SearchTail;
    assert '$' !in lead && 'A' !in lead && lead[|lead| - 1] !in RatingToken;
    SearchHeadFacts();
    AbsentCharNoOcc(SearchHead, WhereToken, 'W');
    AbsentCharNoOcc(lead, RatingToken, 'A');
    NoOccGlue(SearchHead, lead, RatingToken);
    assert WhereText(conditions) == lead + Join(conditions, " AND ");
    assert SearchTemplate == SearchHead + WhereToken + rest;
    ReplaceTwiceKeepsLead(SearchHead, WhereToken, rest, lead, Join(conditions, " AND "), RatingToken, RatingText(rating));
  }

  /** With splice-safe keys, no RATING token is left in the statement. */
  lemma NoRatingTokenLeft(options: seq<Entry>)
    requires forall i :: 0 <= i < |options| ==> SpliceSafe(options[i].key)
    ensures NoOcc(SearchSql(options), RatingToken)
  {
    var acc := Accepted(options);
    var w, r := WhereText(Conditions(acc, 2)), Rating(acc, 2);
    SearchSqlShape(options);
    AcceptedSafe(options);
    ConditionsSafe(acc, 2);
    WhereTextFacts(Conditions(acc, 2));
    RatingFacts(acc, 2);
    SearchHeadFacts();
    SearchMiddleFacts();
    SearchTailFacts();
    NoOccGlue(SearchHead, w, RatingToken);
    NoOccGlue(SearchHead + w, SearchMiddle, RatingToken);
    NoOccGlue(SearchHead + w + SearchMiddle, r, RatingToken);
    NoOccGlue(SearchHead + w + SearchMiddle + r, SearchTail, RatingToken);
  }

  // ---------------------------------------------------------------------
  // The property insert

  const ColumnsToken := "col_placeholder"
  const ParametersToken := "col_parameters"
  const InsertHead := "INSERT INTO properties("
  const InsertMiddle := ") VALUES("
  const InsertTail := ") RETURNING*"
  const InsertTemplate: string := InsertHead + ColumnsToken + InsertMiddle + ParametersToken + InsertTail

  function Keys(property: seq<Entry>): seq<string> {
    seq(|property|, i requires 0 <= i < |property| => property[i].key)
  }

  /** The placeholders `$1`, ..., `$n`. */
  function Placeholders(n: nat): seq<string> {
    seq(n, i requires 0 <= i < n => Placeholder(i + 1))
  }

  /** The insert statement for a record with keys `keys`; arrays are spliced as `String(array)`, a ","-join. */
  function InsertSql(keys: seq<string>): string {
    ReplaceFirst(ReplaceFirst(InsertTemplate, ColumnsToken, Join(keys, ",")), ParametersToken, Join(Placeholders(|keys|), ","))
  }

  /**
   * addProperty up to the query call: one placeholder and one value per key,
   * then the key list and the placeholder list spliced into the template.
   */
  method AddProperty(property: seq<Entry>) returns (query: string, values: seq<JsValue>)
    ensures |values| == |property|
    ensures forall i :: 0 <= i < |property| ==> values[i] == property[i].value
    ensures query == InsertSql(Keys(property))
  {
    var colParameters: seq<string> := [];
    values := [];
    var counter: nat := 1;
    for i := 0 to |property|
      invariant counter == |values| + 1 && |values| == i
      invariant colParameters == Placeholders(i)
      invariant forall k :: 0 <= k < i ==> values[k] == property[k].value
    {
      colParameters := colParameters + [Placeholder(counter)];
      values := values + [property[i].value];
      counter := counter + 1;
    }
    query := ReplaceFirst(InsertTemplate, ColumnsToken, Join(Keys(property), ","));
    query := ReplaceFirst(query, ParametersToken, Join(colParameters, ","));
  }

  // ---------------------------------------------------------------------
  // The property insert: what the builder guarantees

  lemma InsertTemplateFacts()
    ensures NoOcc(InsertHead, ColumnsToken) && NoOcc(InsertHead, ParametersToken)
    ensures InsertHead[|InsertHead| - 1] == '(' && '(' !in ColumnsToken && '(' !in ParametersToken
    ensures NoOcc(InsertMiddle, ParametersToken) && InsertMiddle[|InsertMiddle| - 1] == '('
  {
    AbsentCharNoOcc(InsertHead, ColumnsToken, 'c');
    AbsentCharNoOcc(InsertHead, ParametersToken, 'c');
    AbsentCharNoOcc(InsertMiddle, ParametersToken, 'c');
  }

  /** For every record the statement starts with `INSERT INTO properties(` and ends with `) RETURNING*`. */
  lemma InsertStatementFrame(keys: seq<string>)
    ensures StartsWith(InsertSql(keys), InsertHead) && EndsWith(InsertSql(keys), InsertTail)
  {
    InsertTemplateFacts();
    ReplaceTwiceFrame(InsertHead, ColumnsToken, InsertMiddle, ParametersToken, InsertTail,
      Join(keys, ","), Join(Placeholders(|keys|), ","));
  }

  /** The placeholder list holds no special `$` pattern: `$` is always followed by a digit. */
  lemma PlaceholderListVerbatim(n: nat)
    ensures Verbatim(Join(Placeholders(n), ","))
  {
    var ps := Placeholders(n);
    forall k | 0 <= k < n ensures Verbatim(ps[k]) {
      PlaceholderFacts(k + 1);
    }
    assert '$' !in ",";
    NoDollarVerbatim(",");
    JoinVerbatim(ps, ",");
  }

  /**
   * For keys without a special `$` pattern and without the text
   * `col_parameters`, the statement is
   * `INSERT INTO properties(k1,...,kn) VALUES($1,...,$n) RETURNING*`.
   */
  lemma InsertSqlShape(keys: seq<string>)
    requires forall k :: 0 <= k < |keys| ==> Verbatim(keys[k]) && NoOcc(keys[k], ParametersToken)
    ensures InsertSql(keys) ==
      InsertHead + Join(keys, ",") + InsertMiddle + Join(Placeholders(|keys|), ",") + InsertTail
  {
    var columns := Join(keys, ",");
    ColumnListFacts(keys);
    InsertTemplateFacts();
    PlaceholderListVerbatim(|keys|);
    ReplaceTwiceAt(InsertHead, ColumnsToken, InsertMiddle, ParametersToken, InsertTail,
      columns, Join(Placeholders(|keys|), ","));
  }

  lemma ColumnListFacts(keys: seq<string>)
    requires forall k :: 0 <= k < |keys| ==> Verbatim(keys[k]) && NoOcc(keys[k], ParametersToken)
    ensures Verbatim(Join(keys, ","))
    ensures NoOcc(InsertHead + Join(keys, ",") + InsertMiddle, ParametersToken)
    ensures (InsertHead + Join(keys, ",") + InsertMiddle)[|InsertHead + Join(keys, ",") + InsertMiddle| - 1] == '('
  {
    var columns := Join(keys, ",");
    InsertTemplateFacts();
    assert '$' !in "," && ',' !in ParametersToken;
    NoDollarVerbatim(",");
    JoinVerbatim(keys, ",");
    AbsentCharNoOcc(",", ParametersToken, 'c');
    JoinNoOcc(keys, ",", ParametersToken);
    NoOccGlue(InsertHead, columns, ParametersToken);
    NoOccGlue(InsertHead + columns, InsertMiddle, ParametersToken);
  }

  /** A record without keys gives empty column and value lists. */
  lemma EmptyPropertyStatement()
    ensures InsertSql([]) == InsertHead + InsertMiddle + InsertTail
  {
    InsertSqlShape([]);
    assert Join(Placeholders(0), ",") == "";
  }
}
