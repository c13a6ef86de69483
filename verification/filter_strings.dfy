/** The filter compiler of the user search handler: a structured query
    becomes one filter string per requested availability timeslot (or a
    single one when none is requested), because the search backend cannot
    OR together several AND-groups in one query. Each string ANDs one
    parenthesised OR-group per filtered attribute, in a fixed order, and
    ends with that timeslot's containment test. */
module FilterStrings {
  import opened Optional
  import opened Text
  import opened Model

  const AndSep := " AND "
  const OrSep := " OR "

  /** One `attr:"value"` test. */
  function Term(attr: string, option: FilterOption): string {
    attr + ":\"" + option.value + "\""
  }

  function Terms(attr: string, options: seq<FilterOption>): (ts: seq<string>)
    ensures |ts| == |options|
  {
    seq(|options|, i requires 0 <= i < |options| => Term(attr, options[i]))
  }

  /** The OR-group of one attribute, `(attr:"v1" OR attr:"v2" ...)`; no
      text at all when there is no option. */
  function OrGroup(attr: string, options: seq<FilterOption>): string {
    if |options| == 0 then "" else "(" + Join(OrSep, Terms(attr, options)) + ")"
  }

  /** Appends the OR-group of `options` to `base`, joined by " AND " only
      when `base` is non-empty and does not already end in one. */
  function AddFilters(base: string, options: seq<FilterOption>, attr: string): (r: string)
    ensures |options| == 0 ==> r == base
    ensures StartsWith(r, base)
    ensures |options| > 0 ==> EndsWith(r, ")")
    ensures |options| > 0 && (|base| == 0 || EndsWith(base, AndSep)) ==>
              r == base + OrGroup(attr, options)
    ensures |options| > 0 && |base| > 0 && !EndsWith(base, AndSep) ==>
              r == base + AndSep + OrGroup(attr, options)
  {
    var addAnd := |base| > 0 && !EndsWith(base, AndSep) && |options| > 0;
    (if addAnd then base + AndSep else base) + OrGroup(attr, options)
  }

  /** The loop that builds the group one term at a time, computing the same
      string as `AddFilters`. */
  method AddFiltersLoop(base: string, options: seq<FilterOption>, attr: string)
    returns (filterString: string)
    ensures filterString == AddFilters(base, options, attr)
  {
    var addAnd := |base| > 0 && !EndsWith(base, AndSep) && |options| > 0;
    filterString := if addAnd then base + AndSep else base;
    ghost var prefix := filterString;
    ghost var terms := Terms(attr, options);
    var i := 0;
    while i < |options|
      invariant 0 <= i <= |options|
      invariant filterString == Partial(prefix, terms, i)
    {
      PartialStep(prefix, terms, i);
      assert terms[i] == Term(attr, options[i]);
      filterString := filterString + (if i == 0 then "(" else OrSep);
      filterString := filterString + Term(attr, options[i]);
      if i == |options| - 1 {
        filterString := filterString + ")";
      }
      i := i + 1;
    }
    assert |options| == 0 ==> prefix + "" == prefix;
  }

  /** The text the loop has built after `i` of the terms. */
  ghost function Partial(prefix: string, terms: seq<string>, i: int): string
    requires 0 <= i <= |terms|
  {
    if i == 0 then prefix
    else if i < |terms| then prefix + "(" + Join(OrSep, terms[..i])
    else prefix + ("(" + Join(OrSep, terms) + ")")
  }

  /** One turn of the loop: the opening parenthesis or " OR ", the term, and
      the closing parenthesis after the last term. */
  lemma PartialStep(prefix: string, terms: seq<string>, i: int)
    requires 0 <= i < |terms|
    ensures i < |terms| - 1 ==>
              Partial(prefix, terms, i + 1)
              == Partial(prefix, terms, i) + (if i == 0 then "(" else OrSep) + terms[i]
    ensures i == |terms| - 1 ==>
              Partial(prefix, terms, i + 1)
              == Partial(prefix, terms, i) + (if i == 0 then "(" else OrSep) + terms[i] + ")"
  {
    JoinPrefixStep(OrSep, terms, i);
    var sep := if i == 0 then "(" else OrSep;
    var open := if i == 0 then prefix + "(" else prefix + "(" + Join(OrSep, terms[..i]);
    assert Partial(prefix, terms, i) + sep == open + (if i == 0 then "" else OrSep);
    assert open + (if i == 0 then "" else OrSep) + terms[i] == prefix + "(" + Join(OrSep, terms[..i + 1]);
    if i == |terms| - 1 {
      assert terms[..i + 1] == terms;
    }
  }

  /** The clauses a query can ask for, one per filtered attribute. */
  datatype Clause = VisibleIs(visible: bool) | AnyOf(attr: string, options: seq<FilterOption>)

  function VisibleClause(visible: bool): string {
    "visible=" + (if visible then "1" else "0")
  }

  function Render(c: Clause): string {
    match c
    case VisibleIs(b) => VisibleClause(b)
    case AnyOf(attr, options) => OrGroup(attr, options)
  }

  function RenderAll(cs: seq<Clause>): (ss: seq<string>)
    ensures |ss| == |cs|
  {
    seq(|cs|, i requires 0 <= i < |cs| => Render(cs[i]))
  }

  function SubjectsAttr(a: Aspect): string {
    AspectName(a) + ".subjects"
  }

  function Group(attr: string, options: seq<FilterOption>): seq<Clause> {
    if |options| == 0 then [] else [AnyOf(attr, options)]
  }

  /** The clauses a query asks for, in the order the compiler writes them:
      visibility, subjects of the query's aspect, languages, verification
      checks, organisations, tags. Attributes without options are absent. */
  function RequestedClauses(q: Query): seq<Clause> {
    (if q.visible.Some? then [VisibleIs(q.visible.value)] else [])
    + Group(SubjectsAttr(q.aspect), q.subjects)
    + Group("langs", q.langs)
    + Group("verifications.checks", q.checks)
    + Group("orgs", q.orgs)
    + Group("_tags", q.tags)
  }

  /** The clauses before the availability test, built as the handler builds
      them: the visibility test, then one `AddFilters` per attribute. */
  function BaseFilter(q: Query): string {
    var s := if q.visible.Some? then VisibleClause(q.visible.value) else "";
    var s := AddFilters(s, q.subjects, SubjectsAttr(q.aspect));
    var s := AddFilters(s, q.langs, "langs");
    var s := AddFilters(s, q.checks, "verifications.checks");
    var s := AddFilters(s, q.orgs, "orgs");
    AddFilters(s, q.tags, "_tags")
  }

  /** The test that a stored window contains the requested one: it starts
      no later and ends no earlier. */
  function AvailabilityClause(t: Timeslot): string {
    "(availability.from <= " + IntToDecimal(t.from) + " AND availability.to >= " + IntToDecimal(t.to) + ")"
  }

  /** The filter strings of a query: one per requested timeslot, or the
      base clauses alone when no timeslot is requested. */
  function GetFilterStrings(q: Query): (r: seq<string>)
    ensures |r| == if |q.availability| == 0 then 1 else |q.availability|
    ensures |q.availability| == 0 ==> r == [BaseFilter(q)]
    ensures forall i :: 0 <= i < |q.availability| ==>
              r[i] == BaseFilter(q) + AndSep + AvailabilityClause(q.availability[i])
  {
    var filterString := BaseFilter(q);
    if |q.availability| == 0 then [filterString]
    else
      var filterString := filterString + AndSep;
      seq(|q.availability|, i requires 0 <= i < |q.availability| =>
            filterString + AvailabilityClause(q.availability[i]))
  }

  /** The ranking hint sent with every query. */
  function OptionalFilters(q: Query): (r: seq<string>)
    ensures |r| == 1 && StartsWith(r[0], "featured:")
    ensures r[0][|"featured:"|..] == AspectName(q.aspect)
  {
    ["featured:" + AspectName(q.aspect)]
  }

  // Properties of the compiler.

  /** A clause text that is not empty and does not end in a space. */
  predicate WellFormed(s: string) {
    |s| > 0 && s[|s| - 1] != ' '
  }

  lemma {:induction false} JoinLastChar(parts: seq<string>)
    requires |parts| > 0
    requires forall i :: 0 <= i < |parts| ==> WellFormed(parts[i])
    ensures WellFormed(Join(AndSep, parts))
    decreases |parts|
  {
    if |parts| > 1 {
      JoinLastChar(parts[..|parts| - 1]);
    }
  }

  /** `AddFilters` on a conjunction of well-formed clauses appends the new
      OR-group as one more conjunct. */
  lemma AddFiltersAppendsConjunct(parts: seq<string>, options: seq<FilterOption>, attr: string)
    requires forall i :: 0 <= i < |parts| ==> WellFormed(parts[i])
    ensures AddFilters(Join(AndSep, parts), options, attr)
            == Join(AndSep, parts + (if |options| == 0 then [] else [OrGroup(attr, options)]))
  {
    var base := Join(AndSep, parts);
    var g := OrGroup(attr, options);
    if |options| == 0 {
      assert parts + [] == parts;
      assert AddFilters(base, options, attr) == base;
    } else if |parts| == 0 {
      assert base == "" && parts + [g] == [g];
      assert AddFilters(base, options, attr) == "" + g;
    } else {
      AddFiltersAfterConjunct(parts, options, attr);
    }
  }

  /** The case of `AddFiltersAppendsConjunct` that writes the " AND ". */
  lemma AddFiltersAfterConjunct(parts: seq<string>, options: seq<FilterOption>, attr: string)
    requires |parts| > 0 && |options| > 0
    requires forall i :: 0 <= i < |parts| ==> WellFormed(parts[i])
    ensures AddFilters(Join(AndSep, parts), options, attr) == Join(AndSep, parts + [OrGroup(attr, options)])
  {
    var base := Join(AndSep, parts);
    assert !EndsWith(base, AndSep) by {
      JoinLastChar(parts);
      WellFormedIsNoAndSuffix(base);
    }
    JoinSnoc(AndSep, parts, OrGroup(attr, options));
  }

  /** A well-formed clause text does not end in " AND ". */
  lemma WellFormedIsNoAndSuffix(s: string)
    requires WellFormed(s)
    ensures !EndsWith(s, AndSep)
  {
    if |s| >= |AndSep| {
      assert s[|s| - |AndSep|..][|AndSep| - 1] == s[|s| - 1];
    }
  }

  lemma RenderAllAppend(a: seq<Clause>, b: seq<Clause>)
    ensures RenderAll(a + b) == RenderAll(a) + RenderAll(b)
  {
  }

  lemma GroupRendering(attr: string, options: seq<FilterOption>)
    ensures RenderAll(Group(attr, options)) == (if |options| == 0 then [] else [OrGroup(attr, options)])
    ensures forall i :: 0 <= i < |Group(attr, options)| ==> WellFormed(Render(Group(attr, options)[i]))
  {
  }

  /** The handler's step-by-step construction equals the plain conjunction
      of the requested clauses, in their fixed order. */
  lemma BaseFilterIsConjunction(q: Query)
    ensures BaseFilter(q) == Join(AndSep, RenderAll(RequestedClauses(q)))
    ensures forall i :: 0 <= i < |RequestedClauses(q)| ==> WellFormed(Render(RequestedClauses(q)[i]))
  {
    var v: seq<Clause> := if q.visible.Some? then [VisibleIs(q.visible.value)] else [];
    var g1 := Group(SubjectsAttr(q.aspect), q.subjects);
    var g2 := Group("langs", q.langs);
    var g3 := Group("verifications.checks", q.checks);
    var g4 := Group("orgs", q.orgs);
    var g5 := Group("_tags", q.tags);
    assert RequestedClauses(q) == v + g1 + g2 + g3 + g4 + g5;
    var s0 := if q.visible.Some? then VisibleClause(q.visible.value) else "";
    assert s0 == Join(AndSep, RenderAll(v));
    var s1 := AddFilters(s0, q.subjects, SubjectsAttr(q.aspect));
    AddFiltersStep(v, g1, SubjectsAttr(q.aspect), q.subjects);
    var s2 := AddFilters(s1, q.langs, "langs");
    AddFiltersStep(v + g1, g2, "langs", q.langs);
    var s3 := AddFilters(s2, q.checks, "verifications.checks");
    AddFiltersStep(v + g1 + g2, g3, "verifications.checks", q.checks);
    var s4 := AddFilters(s3, q.orgs, "orgs");
    AddFiltersStep(v + g1 + g2 + g3, g4, "orgs", q.orgs);
    AddFiltersStep(v + g1 + g2 + g3 + g4, g5, "_tags", q.tags);
  }

  /** One step of `BaseFilterIsConjunction`. */
  lemma AddFiltersStep(done: seq<Clause>, g: seq<Clause>, attr: string, options: seq<FilterOption>)
    requires g == Group(attr, options)
    requires forall i :: 0 <= i < |done| ==> WellFormed(Render(done[i]))
    ensures forall i :: 0 <= i < |done + g| ==> WellFormed(Render((done + g)[i]))
    ensures AddFilters(Join(AndSep, RenderAll(done)), options, attr) == Join(AndSep, RenderAll(done + g))
  {
    GroupRendering(attr, options);
    AddFiltersAppendsConjunct(RenderAll(done), options, attr);
    RenderAllAppend(done, g);
  }

  /** A query asks for no clause exactly when it filters on nothing but
      (possibly) availability. */
  lemma NoClauseRequested(q: Query)
    ensures RequestedClauses(q) == [] <==>
              q.visible.None? && q.subjects == [] && q.langs == [] && q.checks == []
              && q.orgs == [] && q.tags == []
  {
    var cs := RequestedClauses(q);
    assert |cs| == (if q.visible.Some? then 1 else 0)
      + |Group(SubjectsAttr(q.aspect), q.subjects)| + |Group("langs", q.langs)|
      + |Group("verifications.checks", q.checks)| + |Group("orgs", q.orgs)| + |Group("_tags", q.tags)|;
  }

  /** The base clauses are empty text exactly when no clause is requested. */
  lemma NoClauseNoText(q: Query)
    ensures BaseFilter(q) == "" <==> RequestedClauses(q) == []
  {
    BaseFilterIsConjunction(q);
    EmptyConjunction(BaseFilter(q), RequestedClauses(q));
  }

  /** The conjunction of well-formed clauses is empty text exactly when there
      is no clause. */
  lemma EmptyConjunction(base: string, cs: seq<Clause>)
    requires base == Join(AndSep, RenderAll(cs))
    requires forall i :: 0 <= i < |cs| ==> WellFormed(Render(cs[i]))
    ensures base == "" <==> cs == []
  {
    var parts := RenderAll(cs);
    assert forall i :: 0 <= i < |parts| ==> WellFormed(parts[i]) by {
      assert forall i :: 0 <= i < |parts| ==> parts[i] == Render(cs[i]);
    }
    JoinEmptyIff(parts);
  }

  /** A conjunction of well-formed clauses is empty text only when there is
      no clause. */
  lemma JoinEmptyIff(parts: seq<string>)
    requires forall i :: 0 <= i < |parts| ==> WellFormed(parts[i])
    ensures Join(AndSep, parts) == "" <==> parts == []
  {
    if parts != [] {
      JoinLastChar(parts);
    }
  }

  /** The shape of every compiled string. With at least one other clause,
      the i-th string is the conjunction of the requested clauses and the
      i-th containment test. With none, the string is the containment test
      after a bare leading " AND ", exactly as the handler writes it. */
  lemma FilterStringsShape(q: Query)
    ensures |GetFilterStrings(q)| >= 1
    ensures |q.availability| == 0 ==>
              GetFilterStrings(q) == [Join(AndSep, RenderAll(RequestedClauses(q)))]
    ensures RequestedClauses(q) != [] ==> forall i :: 0 <= i < |q.availability| ==>
              GetFilterStrings(q)[i]
              == Join(AndSep, RenderAll(RequestedClauses(q)) + [AvailabilityClause(q.availability[i])])
    ensures RequestedClauses(q) == [] ==> forall i :: 0 <= i < |q.availability| ==>
              GetFilterStrings(q)[i] == AndSep + AvailabilityClause(q.availability[i])
  {
    var parts := RenderAll(RequestedClauses(q));
    assert BaseFilter(q) == Join(AndSep, parts) by {
      BaseFilterIsConjunction(q);
    }
    ExtendedConjunctions(BaseFilter(q), parts, q.availability, GetFilterStrings(q));
  }

  /** Strings made of a conjunction, " AND " and a containment test each are
      the longer conjunctions; made of the empty conjunction, they keep the
      bare " AND ". */
  lemma ExtendedConjunctions(base: string, parts: seq<string>, slots: seq<Timeslot>, r: seq<string>)
    requires base == Join(AndSep, parts)
    requires |slots| <= |r|
    requires forall i :: 0 <= i < |slots| ==> r[i] == base + AndSep + AvailabilityClause(slots[i])
    ensures parts != [] ==> forall i :: 0 <= i < |slots| ==>
              r[i] == Join(AndSep, parts + [AvailabilityClause(slots[i])])
    ensures parts == [] ==> forall i :: 0 <= i < |slots| ==> r[i] == AndSep + AvailabilityClause(slots[i])
  {
    if parts != [] {
      forall i | 0 <= i < |slots|
        ensures r[i] == Join(AndSep, parts + [AvailabilityClause(slots[i])])
      {
        JoinSnoc(AndSep, parts, AvailabilityClause(slots[i]));
      }
    } else {
      assert base == "";
    }
  }

  /** All strings of one query share their text up to the containment test:
      they differ only in the timeslot they test. */
  lemma FilterStringsSharePrefix(q: Query, i: int, j: int)
    requires 0 <= i < |q.availability| && 0 <= j < |q.availability|
    ensures var r := GetFilterStrings(q);
            var p := BaseFilter(q) + AndSep;
            StartsWith(r[i], p) && StartsWith(r[j], p)
            && r[i][|p|..] == AvailabilityClause(q.availability[i])
            && r[j][|p|..] == AvailabilityClause(q.availability[j])
  {
  }

  /** The ranking hint depends on the aspect and nothing else. */
  lemma OptionalFiltersOnlyAspect(q1: Query, q2: Query)
    ensures OptionalFilters(q1) == OptionalFilters(q2) <==> q1.aspect == q2.aspect
  {
    if q1.aspect != q2.aspect {
      assert OptionalFilters(q1)[0][|"featured:"|] != OptionalFilters(q2)[0][|"featured:"|];
    }
  }

  // Reading a containment test back.

  const FromPrefix := "(availability.from <= "
  const ToInfix := " AND availability.to >= "

  /** Reads the window a containment test names; `None` for any other text. */
  function ParseAvailabilityClause(s: string): Option<Timeslot> {
    if |s| < |FromPrefix| + 1 || !StartsWith(s, FromPrefix) || s[|s| - 1] != ')' then None
    else
      var body := s[|FromPrefix|..|s| - 1];
      var k := IndexOf(body, ' ');
      if k < 0 || !StartsWith(body[k..], ToInfix) then None
      else
        match ParseInt(body[..k])
        case None => None
        case Some(from) =>
          match ParseInt(body[k + |ToInfix|..])
          case None => None
          case Some(to) => Some(Timeslot(from, to))
  }

  /** The text between the prefix and the closing parenthesis of a test
      built from two numerals. */
  lemma ClauseBody(f: string, g: string)
    ensures var s := FromPrefix + f + ToInfix + g + ")";
            |s| >= |FromPrefix| + 1 && StartsWith(s, FromPrefix) && s[|s| - 1] == ')'
            && s[|FromPrefix|..|s| - 1] == f + ToInfix + g
  {
    var s := FromPrefix + f + ToInfix + g + ")";
    assert s[..|FromPrefix|] == FromPrefix;
  }

  /** In `f + ToInfix + g`, a space-free `f` ends at the first space and the
      infix follows it. */
  lemma BodySplit(f: string, g: string)
    requires ' ' !in f
    ensures var body := f + ToInfix + g;
            IndexOf(body, ' ') == |f| && body[..|f|] == f
            && StartsWith(body[|f|..], ToInfix) && body[|f| + |ToInfix|..] == g
  {
    var body := f + ToInfix + g;
    assert body[..|f|] == f;
    assert body[|f|] == ' ';
    IndexOfAt(body, ' ', |f|);
    assert body[|f|..] == ToInfix + g;
    assert body[|f|..][..|ToInfix|] == ToInfix;
    assert body[|f| + |ToInfix|..] == g;
  }

  /** The containment test names exactly its window, with the window's start
      on the `availability.from <=` side and its end on the
      `availability.to >=` side. */
  lemma AvailabilityClauseRoundTrip(t: Timeslot)
    ensures ParseAvailabilityClause(AvailabilityClause(t)) == Some(t)
  {
    var f := IntToDecimal(t.from);
    var g := IntToDecimal(t.to);
    assert AvailabilityClause(t) == FromPrefix + f + ToInfix + g + ")";
    ClauseBody(f, g);
    IntToDecimalHasNoSpace(t.from);
    BodySplit(f, g);
    ParseIntRoundTrip(t.from);
    ParseIntRoundTrip(t.to);
  }
}
