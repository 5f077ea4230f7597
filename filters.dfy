/**
 * The predicate tree (AFilterItem and its five subclasses) and Filter.
 * Every item has two readings: Match, the exact test run on a loaded
 * entity's attributes, and Condition, the narrowing SQL condition over the
 * Attribute table. The main result is soundness: whenever Match holds, some
 * stored row of the entity satisfies Condition, provided no CONTAINS
 * reference holds a '%'.
 */
module Filters {

  import opened Wrappers
  import opened Text
  import opened Values
  import opened Conditions

  datatype LongOperator = LongSmaller | LongGreater | LongEquals | LongNotEquals
  datatype StringOperator = StringSmaller | StringGreater | StringEquals | StringNotEquals | StringContains
  datatype NullOperator = NotNull
  datatype GroupOperator = And | Or

  datatype FilterItem =
    | BooleanItem(attributeName: string, booleanReference: bool)
    | LongItem(attributeName: string, longOperator: LongOperator, longReference: Int64)
    | StringItem(attributeName: string, stringOperator: StringOperator, stringReference: string)
      /** The operator field is never read, and the constructor accepts null for it. */
    | NullItem(attributeName: string, nullOperator: Option<NullOperator>)
    | GroupItem(groupOperator: GroupOperator, filters: seq<FilterItem>)

  /** The shape every constructed item has: each group holds at least two children. */
  predicate WellFormed(item: FilterItem) {
    match item
    case GroupItem(_, fs) => |fs| >= 2 && forall i | 0 <= i < |fs| :: WellFormed(fs[i])
    case _ => true
  }

  datatype Filter = Filter(kind: string, filterItem: FilterItem)

  /**
   * No CONTAINS item in the tree has a '%' in its reference: the filters
   * for which the CONTAINS condition as written never drops a match.
   */
  predicate PercentFree(item: FilterItem) {
    match item
    case StringItem(_, op, reference) => op == StringContains ==> '%' !in reference
    case GroupItem(_, fs) => forall i | 0 <= i < |fs| :: PercentFree(fs[i])
    case _ => true
  }

  /** The NullPointerException a constructor throws, naming the null parameter. */
  datatype ConstructionError = NullArgument(parameter: string)

  // ---------------------------------------------------------------------
  // Constructors: each rejects its null arguments in the order the source
  // checks them. A null argument is None.
  // ---------------------------------------------------------------------

  function NewBooleanItem(attributeName: Option<string>, referenceValue: bool): (r: Result<FilterItem, ConstructionError>)
    ensures r.Success? <==> attributeName.Some?
    ensures r.Failure? ==> r.error == NullArgument("attributeName")
    ensures r.Success? ==> (WellFormed(r.value) && r.value.BooleanItem?
      && r.value.attributeName == attributeName.value && r.value.booleanReference == referenceValue)
  {
    if attributeName.None? then Failure(NullArgument("attributeName"))
    else Success(BooleanItem(attributeName.value, referenceValue))
  }

  function NewLongItem(attributeName: Option<string>, operator: Option<LongOperator>, referenceValue: Int64): (r: Result<FilterItem, ConstructionError>)
    ensures r.Success? <==> attributeName.Some? && operator.Some?
    ensures r.Failure? ==> r.error == NullArgument(if attributeName.None? then "attributeName" else "operator")
    ensures r.Success? ==> WellFormed(r.value) && r.value == LongItem(attributeName.value, operator.value, referenceValue)
  {
    if attributeName.None? then Failure(NullArgument("attributeName"))
    else if operator.None? then Failure(NullArgument("operator"))
    else Success(LongItem(attributeName.value, operator.value, referenceValue))
  }

  function NewStringItem(attributeName: Option<string>, operator: Option<StringOperator>, referenceValue: Option<string>): (r: Result<FilterItem, ConstructionError>)
    ensures r.Success? <==> attributeName.Some? && operator.Some? && referenceValue.Some?
    ensures r.Failure? ==> r.error == NullArgument(
      if attributeName.None? then "attributeName" else if operator.None? then "operator" else "referenceValue")
    ensures r.Success? ==> (WellFormed(r.value)
      && r.value == StringItem(attributeName.value, operator.value, referenceValue.value))
  {
    if attributeName.None? then Failure(NullArgument("attributeName"))
    else if operator.None? then Failure(NullArgument("operator"))
    else if referenceValue.None? then Failure(NullArgument("referenceValue"))
    else Success(StringItem(attributeName.value, operator.value, referenceValue.value))
  }

  function NewNullItem(attributeName: Option<string>, operator: Option<NullOperator>): (r: Result<FilterItem, ConstructionError>)
    ensures r.Success? <==> attributeName.Some?
    ensures r.Failure? ==> r.error == NullArgument("attributeName")
    ensures r.Success? ==> WellFormed(r.value) && r.value == NullItem(attributeName.value, operator)
  {
    if attributeName.None? then Failure(NullArgument("attributeName"))
    else Success(NullItem(attributeName.value, operator))
  }

  /**
   * The group constructor: operator, filter1 and filter2 must be present,
   * otherFilters may be null as a whole but none of its elements may be.
   * The children are filter1, filter2 and then otherFilters, in order.
   */
  method NewGroupItem(operator: Option<GroupOperator>, filter1: Option<FilterItem>, filter2: Option<FilterItem>,
                      otherFilters: Option<seq<Option<FilterItem>>>)
    returns (r: Result<FilterItem, ConstructionError>)
    ensures r.Success? <==> (operator.Some? && filter1.Some? && filter2.Some?
      && (otherFilters.Some? ==> forall i | 0 <= i < |otherFilters.value| :: otherFilters.value[i].Some?))
    ensures r.Failure? ==> r.error == NullArgument(
      if operator.None? then "operator" else if filter1.None? then "filter1"
      else if filter2.None? then "filter2" else "otherFilters")
    ensures r.Success? ==> r.value.GroupItem? && r.value.groupOperator == operator.value
    ensures r.Success? ==> var fs := r.value.filters;
      var others := if otherFilters.Some? then otherFilters.value else [];
      |fs| == 2 + |others| && fs[0] == filter1.value && fs[1] == filter2.value
      && forall i | 0 <= i < |others| :: Some(fs[2 + i]) == others[i]
    ensures r.Success? && WellFormed(filter1.value) && WellFormed(filter2.value)
      && (otherFilters.Some? ==> forall i | 0 <= i < |otherFilters.value| :: WellFormed(otherFilters.value[i].value))
      ==> WellFormed(r.value)
  {
    if operator.None? {
      return Failure(NullArgument("operator"));
    }
    if filter1.None? {
      return Failure(NullArgument("filter1"));
    }
    if filter2.None? {
      return Failure(NullArgument("filter2"));
    }
    var filters := [filter1.value, filter2.value];
    if otherFilters.Some? {
      var others := otherFilters.value;
      var i := 0;
      while i < |others|
        invariant 0 <= i <= |others|
        invariant forall j | 0 <= j < i :: others[j].Some?
        invariant |filters| == 2 + i && filters[0] == filter1.value && filters[1] == filter2.value
        invariant forall j | 0 <= j < i :: Some(filters[2 + j]) == others[j]
      {
        if others[i].None? {
          return Failure(NullArgument("otherFilters"));
        }
        filters := filters + [others[i].value];
        i := i + 1;
      }
    }
    r := Success(GroupItem(operator.value, filters));
    if WellFormed(filter1.value) && WellFormed(filter2.value)
      && (otherFilters.Some? ==> forall i | 0 <= i < |otherFilters.value| :: WellFormed(otherFilters.value[i].value))
    {
      forall i | 0 <= i < |filters|
        ensures WellFormed(filters[i])
      {
        if i >= 2 {
          assert Some(filters[i]) == otherFilters.value[i - 2];
        }
      }
    }
  }

  function NewFilter(kind: Option<string>, filterItem: Option<FilterItem>): (r: Result<Filter, ConstructionError>)
    ensures r.Success? <==> kind.Some? && filterItem.Some?
    ensures r.Failure? ==> r.error == NullArgument(if kind.None? then "kind" else "filterItem")
    ensures r.Success? ==> r.value.kind == kind.value && r.value.filterItem == filterItem.value
  {
    if kind.None? then Failure(NullArgument("kind"))
    else if filterItem.None? then Failure(NullArgument("filterItem"))
    else Success(Filter(kind.value, filterItem.value))
  }

  // ---------------------------------------------------------------------
  // match: the exact test on an entity's attributes.
  // ---------------------------------------------------------------------

  predicate LongHolds(op: LongOperator, value: int, reference: int) {
    match op
    case LongEquals => value == reference
    case LongGreater => value > reference
    case LongSmaller => value < reference
    case LongNotEquals => value != reference
  }

  predicate StringHolds(op: StringOperator, s: string, reference: string) {
    match op
    case StringContains => Contains(ToLower(s), ToLower(reference))
    case StringEquals => s == reference
    case StringGreater => CompareTo(s, reference) > 0
    case StringNotEquals => s != reference
    case StringSmaller => CompareTo(s, reference) < 0
  }

  /**
   * AFilterItem.match. A leaf reads getAttribute(name) and is false unless
   * the value is present and of the item's type; an AND group needs every
   * child, an OR group some child (and an OR group without children would
   * be true, though none can be constructed).
   */
  predicate Match(item: FilterItem, attrs: AttributeMap)
    ensures Match(item, attrs) && !item.GroupItem? ==> Lookup(attrs, item.attributeName).Some?
  {
    match item
    case BooleanItem(name, reference) => Lookup(attrs, name) == Some(BooleanValue(reference))
    case LongItem(name, op, reference) =>
      Lookup(attrs, name).Some? && Lookup(attrs, name).value.LongValue?
      && LongHolds(op, Lookup(attrs, name).value.l, reference)
    case StringItem(name, op, reference) =>
      Lookup(attrs, name).Some? && Lookup(attrs, name).value.StringValue?
      && StringHolds(op, Lookup(attrs, name).value.s, reference)
    case NullItem(name, _) => Lookup(attrs, name).Some?
    case GroupItem(And, fs) => forall i | 0 <= i < |fs| :: Match(fs[i], attrs)
    case GroupItem(Or, fs) => |fs| == 0 || exists i | 0 <= i < |fs| :: Match(fs[i], attrs)
  }

  /** Filter.match on an entity of the given kind with the given attributes. */
  predicate FilterMatch(f: Filter, kind: string, attrs: AttributeMap) {
    kind == f.kind && Match(f.filterItem, attrs)
  }

  /**
   * FilterGroupItem.match as the loop it is: AND returns false at the
   * first child that fails, OR folds every child's result with |=.
   * evaluated is the number of children whose match was computed.
   */
  method MatchGroup(op: GroupOperator, fs: seq<FilterItem>, attrs: AttributeMap) returns (res: bool, ghost evaluated: nat)
    ensures res == Match(GroupItem(op, fs), attrs)
    ensures evaluated <= |fs|
    ensures op == Or || res ==> evaluated == |fs|
    ensures op == And && !res ==> (1 <= evaluated && !Match(fs[evaluated - 1], attrs)
      && forall j | 0 <= j < evaluated - 1 :: Match(fs[j], attrs))
  {
    res := true;
    var isFirst := true;
    evaluated := 0;
    var i := 0;
    while i < |fs|
      invariant 0 <= i <= |fs| && evaluated == i
      invariant op == And ==> res && forall j | 0 <= j < i :: Match(fs[j], attrs)
      invariant op == Or ==> (isFirst <==> i == 0)
      invariant op == Or && i > 0 ==> (res <==> exists j | 0 <= j < i :: Match(fs[j], attrs))
      invariant op == Or && i == 0 ==> res
    {
      var filterRes := Match(fs[i], attrs);
      evaluated := evaluated + 1;
      if op == And {
        if !filterRes {
          return false, evaluated;
        }
      } else {
        if isFirst {
          isFirst := false;
          res := filterRes;
        } else {
          res := res || filterRes;
        }
      }
      i := i + 1;
    }
  }

  // ---------------------------------------------------------------------
  // getCondition: the narrowing condition.
  // ---------------------------------------------------------------------

  /**
   * The LIKE pattern the corrected CONTAINS condition uses: the lower-cased
   * reference with '\', '%' and '_' escaped, between two '%', read with
   * ESCAPE '\'.
   */
  function EscapeLike(s: string): string
    decreases |s|
  {
    if s == [] then []
    else (if s[0] == '\\' || s[0] == '%' || s[0] == '_' then ['\\', s[0]] else [s[0]]) + EscapeLike(s[1..])
  }

  function ContainsTest(reference: string): ValueTest {
    ValueLike("%" + EscapeLike(ToLower(reference)) + "%", Some('\\'))
  }

  /**
   * The CONTAINS condition as the source builds it, the one Condition uses:
   * '%' becomes "\%" but no ESCAPE clause is given.
   */
  function ContainsTestAsWritten(reference: string): ValueTest {
    ValueLike("%" + Replace(ToLower(reference), '%', "\\%") + "%", None)
  }

  function LongTest(op: LongOperator, reference: Int64): ValueTest {
    match op
    case LongEquals => ValueCompare(Eq, DecimalText(reference))
    case LongNotEquals => ValueCompare(Ne, DecimalText(reference))
    case LongGreater => ValueNotNull(true)
    case LongSmaller => ValueNotNull(true)
  }

  /**
   * The value test of a String item: CONTAINS is the one LIKE test, built
   * as written with no ESCAPE clause; the other operators compare the
   * stored text with the reference itself.
   */
  function StringTest(op: StringOperator, reference: string): (r: ValueTest)
    ensures r.ValueLike? <==> op == StringContains
    ensures r.ValueLike? ==> r.escape.None?
    ensures r.ValueCompare? ==> r.literal == reference
  {
    match op
    case StringContains => ContainsTestAsWritten(reference)
    case StringEquals => ValueCompare(Eq, reference)
    case StringGreater => ValueCompare(Gt, reference)
    case StringNotEquals => ValueCompare(Ne, reference)
    case StringSmaller => ValueCompare(Lt, reference)
  }

  /**
   * AFilterItem.getCondition, as abstract syntax; None is the null
   * condition. Every leaf has one, about its own attribute name.
   */
  function Condition(item: FilterItem): (r: Option<Cond>)
    ensures !item.GroupItem? ==> r.Some? && r.value.AttributeCond? && r.value.name == item.attributeName
  {
    match item
    case BooleanItem(name, reference) =>
      Some(AttributeCond(Some(GetType(BooleanType)), name, ValueCompare(Eq, BooleanText(reference))))
    case LongItem(name, op, reference) => Some(AttributeCond(Some(GetType(LongType)), name, LongTest(op, reference)))
    case StringItem(name, op, reference) => Some(AttributeCond(Some(GetType(StringType)), name, StringTest(op, reference)))
    case NullItem(name, _) => Some(AttributeCond(None, name, ValueNotNull(false)))
    case GroupItem(_, fs) =>
      var cs := PresentConditions(fs);
      if cs == [] then None else Some(AnyOf(cs))
  }

  /** The non-null conditions of fs, in order. */
  function PresentConditions(fs: seq<FilterItem>): seq<Cond> {
    if fs == [] then []
    else
      var rest := PresentConditions(fs[..|fs| - 1]);
      match Condition(fs[|fs| - 1])
      case Some(c) => rest + [c]
      case None => rest
  }

  /** The text getCondition returns. */
  function ConditionText(item: FilterItem): Option<string> {
    match Condition(item)
    case Some(c) => Some(CondText(c))
    case None => None
  }

  function FilterCondition(f: Filter): FilterCond {
    FilterCond(f.kind, Condition(f.filterItem))
  }

  /** Filter.getCondition's text. */
  function FilterConditionText(f: Filter): string {
    FilterCondText(FilterCondition(f))
  }

  /**
   * Filter.getCondition: the kind's literal comes first and reads back as
   * the kind; what follows is " AND " and the item's text when the item has
   * one, then the closing parenthesis.
   */
  lemma FilterConditionReadsBack(f: Filter)
    ensures var prefix := "(entityKind='";
      var t := FilterConditionText(f);
      prefix <= t
      && ReadLiteral(t[|prefix|..])
         == Some((f.kind, (if ConditionText(f.filterItem).Some? then " AND " + ConditionText(f.filterItem).value else "") + ")"))
  {
    KindReadsBack(FilterCondition(f));
  }

  /**
   * FilterGroupItem.getCondition as the loop it is: null children are
   * skipped, the first present one opens the parenthesis, later ones are
   * joined with " OR " whatever the group's operator, and a group with no
   * present child has the null condition.
   */
  method GroupCondition(op: GroupOperator, fs: seq<FilterItem>) returns (res: Option<string>)
    ensures res == ConditionText(GroupItem(op, fs))
    ensures res.None? <==> forall i | 0 <= i < |fs| :: ConditionText(fs[i]).None?
  {
    res := JoinPresent(fs);
    if res.Some? {
      res := Some(res.value + ")");
    }
    GroupConditionText(op, fs);
  }

  /**
   * The loop of FilterGroupItem.getCondition: the first present child text
   * opens the parenthesis, each later one is appended after " OR ". The
   * result is still open, or None when no child has a condition.
   */
  method JoinPresent(fs: seq<FilterItem>) returns (res: Option<string>)
    ensures var texts := CondTexts(PresentConditions(fs));
      res == if texts == [] then None else Some("(" + JoinOr(texts))
  {
    res := None;
    var isFirst := true;
    ghost var texts: seq<string> := [];
    var i := 0;
    while i < |fs|
      invariant 0 <= i <= |fs|
      invariant texts == CondTexts(PresentConditions(fs[..i]))
      invariant isFirst <==> texts == []
      invariant res == if texts == [] then None else Some("(" + JoinOr(texts))
    {
      var cond := ConditionText(fs[i]);
      JoinPresentStep(fs, i, texts, res);
      if cond.Some? {
        if isFirst {
          res := Some("(");
          isFirst := false;
        } else {
          res := Some(res.value + " OR ");
        }
        res := Some(res.value + cond.value);
        texts := texts + [cond.value];
      }
      i := i + 1;
    }
    assert fs[..i] == fs;
  }

  // ---------------------------------------------------------------------
  // Properties of getCondition.
  // ---------------------------------------------------------------------

  /** One child of the loop: its text, if any, joins the texts, and the open join grows accordingly. */
  lemma JoinPresentStep(fs: seq<FilterItem>, i: int, texts: seq<string>, res: Option<string>)
    requires 0 <= i < |fs|
    requires texts == CondTexts(PresentConditions(fs[..i]))
    requires res == if texts == [] then None else Some("(" + JoinOr(texts))
    ensures var c := ConditionText(fs[i]);
      var next := if c.Some? then texts + [c.value] else texts;
      next == CondTexts(PresentConditions(fs[..i + 1]))
      && (c.Some? ==> (if res.None? then "(" else res.value + " OR ") + c.value == "(" + JoinOr(next))
  {
    PresentConditionsSnoc(fs, i);
    var c := ConditionText(fs[i]);
    if c.Some? {
      OpenJoinStep(if res.None? then "(" else res.value + " OR ", texts, c.value);
    }
  }

  /** The group's text in terms of its children's present texts. */
  lemma GroupConditionText(op: GroupOperator, fs: seq<FilterItem>)
    ensures var texts := CondTexts(PresentConditions(fs));
      ConditionText(GroupItem(op, fs)) == if texts == [] then None else Some("(" + JoinOr(texts) + ")")
    ensures CondTexts(PresentConditions(fs)) == [] <==> forall i | 0 <= i < |fs| :: ConditionText(fs[i]).None?
  {
    var cs := PresentConditions(fs);
    assert |CondTexts(cs)| == |cs|;
    assert Condition(GroupItem(op, fs)) == if cs == [] then None else Some(AnyOf(cs));
    ChildTextsAbsent(fs);
  }

  /** Every child's text is null exactly when the group has no present condition. */
  lemma ChildTextsAbsent(fs: seq<FilterItem>)
    ensures PresentConditions(fs) == [] <==> forall i | 0 <= i < |fs| :: ConditionText(fs[i]).None?
  {
    PresentConditionsEmpty(fs);
    forall i | 0 <= i < |fs|
      ensures ConditionText(fs[i]).None? <==> Condition(fs[i]).None?
    {
    }
  }

  /** One more child adds its condition's text, if it has one, at the end. */
  lemma PresentConditionsSnoc(fs: seq<FilterItem>, i: int)
    requires 0 <= i < |fs|
    ensures ConditionText(fs[i]).None? ==> CondTexts(PresentConditions(fs[..i + 1])) == CondTexts(PresentConditions(fs[..i]))
    ensures ConditionText(fs[i]).Some? ==>
      CondTexts(PresentConditions(fs[..i + 1])) == CondTexts(PresentConditions(fs[..i])) + [ConditionText(fs[i]).value]
  {
    assert fs[..i + 1][..i] == fs[..i];
    var cs := PresentConditions(fs[..i]);
    if Condition(fs[i]).Some? {
      assert CondTexts(cs + [Condition(fs[i]).value]) == CondTexts(cs) + [CondText(Condition(fs[i]).value)];
    }
  }

  /** The loop's text after one more present child: the join so far, still open, with that child appended. */
  lemma OpenJoinStep(prefix: string, texts: seq<string>, t: string)
    requires prefix == if texts == [] then "(" else "(" + JoinOr(texts) + " OR "
    ensures prefix + t == "(" + JoinOr(texts + [t])
  {
    JoinOrSnoc(texts, t);
  }

  /** Appending one more text to the join adds " OR " and that text, or is the text alone. */
  lemma JoinOrSnoc(texts: seq<string>, t: string)
    ensures JoinOr(texts + [t]) == if texts == [] then t else JoinOr(texts) + " OR " + t
  {
    var all := texts + [t];
    assert all[..|all| - 1] == texts;
  }

  /** A child's condition, when it has one, is among the group's present conditions. */
  lemma {:induction false} PresentConditionsMember(fs: seq<FilterItem>, i: int)
    requires 0 <= i < |fs| && Condition(fs[i]).Some?
    ensures Condition(fs[i]).value in PresentConditions(fs)
    decreases |fs|
  {
    if i < |fs| - 1 {
      var init := fs[..|fs| - 1];
      assert init[i] == fs[i];
      PresentConditionsMember(init, i);
    }
  }

  /** A group's condition is null exactly when every child's is. */
  lemma {:induction false} PresentConditionsEmpty(fs: seq<FilterItem>)
    ensures PresentConditions(fs) == [] <==> forall i | 0 <= i < |fs| :: Condition(fs[i]).None?
    decreases |fs|
  {
    if fs != [] {
      var init := fs[..|fs| - 1];
      PresentConditionsEmpty(init);
      assert forall i | 0 <= i < |init| :: init[i] == fs[i];
    }
  }

  /** Every constructed item has a (non-null) condition. */
  lemma {:induction false} ConditionNeverNull(item: FilterItem)
    requires WellFormed(item)
    ensures Condition(item).Some?
  {
    if item.GroupItem? {
      ConditionNeverNull(item.filters[0]);
      PresentConditionsMember(item.filters, 0);
    }
  }

  // ---------------------------------------------------------------------
  // Soundness: Match implies that the condition holds on a stored row.
  // ---------------------------------------------------------------------

  /** A text matches an escaped literal followed by q when it starts with that literal and the rest matches q. */
  lemma {:induction false} LikeEscapedPrefix(t: string, rest: string, q: string)
    requires LikeMatch(rest, q, Some('\\'))
    ensures LikeMatch(t + rest, EscapeLike(t) + q, Some('\\'))
    decreases |t|
  {
    if t == [] {
      assert t + rest == rest;
      assert EscapeLike(t) + q == q;
    } else {
      var s', q' := t[1..] + rest, EscapeLike(t[1..]) + q;
      LikeEscapedPrefix(t[1..], rest, q);
      assert t + rest == [t[0]] + s' by {
        assert t == [t[0]] + t[1..];
      }
      if t[0] == '\\' || t[0] == '%' || t[0] == '_' {
        assert EscapeLike(t) + q == ['\\', t[0]] + q' by {
          assert EscapeLike(t) == ['\\', t[0]] + EscapeLike(t[1..]);
        }
        LikeEscapedStep(t[0], s', q');
      } else {
        assert EscapeLike(t) + q == [t[0]] + q' by {
          assert EscapeLike(t) == [t[0]] + EscapeLike(t[1..]);
        }
        LikePlainStep(t[0], s', q', Some('\\'));
      }
    }
  }

  /** An escaped character in the pattern matches exactly that character. */
  lemma LikeEscapedStep(c: char, s: string, p: string)
    requires LikeMatch(s, p, Some('\\'))
    ensures LikeMatch([c] + s, ['\\', c] + p, Some('\\'))
  {
    var s', p' := [c] + s, ['\\', c] + p;
    assert s'[1..] == s && p'[2..] == p;
  }

  /** An ordinary character in the pattern matches exactly that character. */
  lemma LikePlainStep(c: char, s: string, p: string, escape: Option<char>)
    requires c != '%' && c != '_' && escape != Some(c)
    requires LikeMatch(s, p, escape)
    ensures LikeMatch([c] + s, [c] + p, escape)
  {
    var s', p' := [c] + s, [c] + p;
    assert s'[1..] == s && p'[1..] == p;
  }

  /** The escaped pattern matches exactly the reference itself: no character of it acts as a wildcard. */
  lemma {:induction false} EscapeLikeIsLiteral(s: string, t: string)
    ensures LikeMatch(s, EscapeLike(t), Some('\\')) <==> s == t
    decreases |t|
  {
    if t != [] {
      EscapeLikeIsLiteral(if s == [] then [] else s[1..], t[1..]);
      var p := EscapeLike(t);
      if t[0] == '\\' || t[0] == '%' || t[0] == '_' {
        assert p == ['\\', t[0]] + EscapeLike(t[1..]);
        assert p[2..] == EscapeLike(t[1..]);
      } else {
        assert p == [t[0]] + EscapeLike(t[1..]);
        assert p[1..] == EscapeLike(t[1..]);
      }
      if s != [] && s[0] == t[0] && s[1..] == t[1..] {
        assert s == [s[0]] + s[1..] && t == [t[0]] + t[1..];
      }
    }
  }

  /** The corrected CONTAINS pattern matches every text that contains the reference. */
  lemma {:induction false} ContainsPatternSound(s: string, t: string)
    requires Contains(s, t)
    ensures LikeMatch(s, "%" + EscapeLike(t) + "%", Some('\\'))
    decreases |s|
  {
    var p := "%" + EscapeLike(t) + "%";
    assert p[0] == '%' && p[1..] == EscapeLike(t) + "%";
    if t <= s {
      var rest := s[|t|..];
      assert s == t + rest;
      LikePercentMatchesAll(rest, Some('\\'));
      LikeEscapedPrefix(t, rest, "%");
    } else {
      ContainsPatternSound(s[1..], t);
    }
  }

  /** Lower-casing changes only letters, so it brings in no '%'. */
  lemma LowerKeepsPercentOut(s: string)
    requires '%' !in s
    ensures '%' !in ToLower(s)
  {
  }

  /** The row putAttribute stores for the attribute under name. */
  lemma StoredRowOf(id: int, kind: string, attrs: AttributeMap, name: string)
    requires Lookup(attrs, name).Some?
    ensures StoredRow(id, kind, name, Lookup(attrs, name).value) in RowsOf(id, kind, attrs)
  {
  }

  /**
   * Soundness of the narrowing: when an item matches an entity's
   * attributes, its condition is not null and holds on at least one of the
   * rows the entity's attributes are stored as. This covers the weak
   * conditions too: Long GREATER/SMALLER only test presence, and a group's
   * condition is the OR of its children's, even for AND. It needs every
   * CONTAINS reference to be free of '%': ContainsAsWrittenMissesPercent
   * shows a match the condition misses otherwise.
   */
  lemma {:induction false} MatchIsSound(item: FilterItem, id: int, kind: string, attrs: AttributeMap)
    requires WellFormed(item) && PercentFree(item)
    requires Match(item, attrs)
    ensures Condition(item).Some?
    ensures exists row | row in RowsOf(id, kind, attrs) :: Holds(Condition(item).value, row)
  {
    match item {
      case GroupItem(op, fs) =>
        var i: int :| 0 <= i < |fs| && Match(fs[i], attrs);
        MatchIsSound(fs[i], id, kind, attrs);
        var row :| row in RowsOf(id, kind, attrs) && Holds(Condition(fs[i]).value, row);
        PresentConditionsMember(fs, i);
        var cs := PresentConditions(fs);
        var k :| 0 <= k < |cs| && cs[k] == Condition(fs[i]).value;
        assert Holds(AnyOf(cs), row);
      case LongItem(name, op, reference) =>
        var v := Lookup(attrs, name).value;
        StoredRowOf(id, kind, attrs, name);
        if op == LongNotEquals {
          DecimalTextInjective(v.l, reference);
        }
        assert Holds(Condition(item).value, StoredRow(id, kind, name, v));
      case StringItem(name, op, reference) =>
        var v := Lookup(attrs, name).value;
        StoredRowOf(id, kind, attrs, name);
        if op == StringContains {
          LowerKeepsPercentOut(reference);
          ContainsAsWrittenSoundWithoutPercent(ToLower(v.s), ToLower(reference));
        }
        assert Holds(Condition(item).value, StoredRow(id, kind, name, v));
      case BooleanItem(name, _) =>
        StoredRowOf(id, kind, attrs, name);
        assert Holds(Condition(item).value, StoredRow(id, kind, name, Lookup(attrs, name).value));
      case NullItem(name, _) =>
        StoredRowOf(id, kind, attrs, name);
        assert Holds(Condition(item).value, StoredRow(id, kind, name, Lookup(attrs, name).value));
    }
  }

  /**
   * Filter.match: an entity of another kind never matches, and one of the
   * filter's kind matches exactly when the filter item does.
   */
  lemma FilterMatchKindGate(f: Filter, kind: string, attrs: AttributeMap)
    ensures kind != f.kind ==> !FilterMatch(f, kind, attrs)
    ensures kind == f.kind ==> (FilterMatch(f, kind, attrs) <==> Match(f.filterItem, attrs))
  {
  }

  /** Soundness for a whole filter: the kind gate holds on the same row. */
  lemma FilterMatchIsSound(f: Filter, id: int, kind: string, attrs: AttributeMap)
    requires WellFormed(f.filterItem) && PercentFree(f.filterItem)
    requires FilterMatch(f, kind, attrs)
    ensures FilterCondition(f).item.Some?
    ensures exists row | row in RowsOf(id, kind, attrs) :: FilterHolds(FilterCondition(f), row)
  {
    MatchIsSound(f.filterItem, id, kind, attrs);
    var row :| row in RowsOf(id, kind, attrs) && Holds(Condition(f.filterItem).value, row);
    assert FilterHolds(FilterCondition(f), row);
  }

  // ---------------------------------------------------------------------
  // The CONTAINS condition as the source writes it.
  // ---------------------------------------------------------------------

  /**
   * The as-written pattern turns '%' into "\%", but without an ESCAPE
   * clause the backslash is an ordinary character: an attribute whose value
   * is "%" matches CONTAINS "%", yet none of its rows satisfies the
   * condition, so the query drops an entity that matches.
   */
  lemma ContainsAsWrittenMissesPercent(id: int, kind: string)
    ensures var attrs: AttributeMap := map["note" := Some(StringValue("%"))];
      var cond := Condition(StringItem("note", StringContains, "%")).value;
      Match(StringItem("note", StringContains, "%"), attrs)
      && (forall row | row in RowsOf(id, kind, attrs) :: !Holds(cond, row))
  {
    var attrs: AttributeMap := map["note" := Some(StringValue("%"))];
    assert ToLower("%") == "%";
    assert Contains("%", "%");
    assert Replace("%", '%', "\\%") == "\\%";
    var p := "%" + "\\%" + "%";
    assert ContainsTestAsWritten("%").pattern == p;
    assert !LikeMatch("", p[1..], None);
    assert !LikeMatch("%", p[1..], None);
    assert !LikeMatch("", p, None);
    assert !LikeMatch("%", p, None);
    forall row | row in RowsOf(id, kind, attrs)
      ensures row.value == "%"
    {
    }
  }

  /** A text matches a '%'-free pattern followed by q when it starts with that pattern and the rest matches q. */
  lemma {:induction false} LikePlainPrefix(t: string, rest: string, q: string)
    requires '%' !in t
    requires LikeMatch(rest, q, None)
    ensures LikeMatch(t + rest, t + q, None)
    decreases |t|
  {
    if t == [] {
      assert t + rest == rest && t + q == q;
    } else {
      assert '%' !in t[1..];
      LikePlainPrefix(t[1..], rest, q);
      assert (t + rest)[0] == t[0] && (t + rest)[1..] == t[1..] + rest;
      assert (t + q)[0] == t[0] && (t + q)[1..] == t[1..] + q;
    }
  }

  /** Without '%' in the reference the as-written CONTAINS condition is sound ('_' only widens it). */
  lemma {:induction false} ContainsAsWrittenSoundWithoutPercent(s: string, t: string)
    requires '%' !in t
    requires Contains(s, t)
    ensures LikeMatch(s, "%" + Replace(t, '%', "\\%") + "%", None)
    decreases |s|
  {
    ReplaceAbsent(t, '%', "\\%");
    var p := "%" + t + "%";
    assert p[0] == '%' && p[1..] == t + "%";
    if t <= s {
      var rest := s[|t|..];
      assert s == t + rest;
      LikePercentMatchesAll(rest, None);
      LikePlainPrefix(t, rest, "%");
    } else {
      ContainsAsWrittenSoundWithoutPercent(s[1..], t);
    }
  }

  /**
   * The text between the quotes of the as-written LIKE is exactly the
   * source's: the reference lower-cased, its quotes doubled, and then its
   * '%' replaced by "\\%".
   */
  lemma ContainsAsWrittenText(reference: string)
    ensures DoubleQuotes(ContainsTestAsWritten(reference).pattern)
      == "%" + Replace(DoubleQuotes(ToLower(reference)), '%', "\\%") + "%"
  {
    var lower := ToLower(reference);
    var escaped := Replace(lower, '%', "\\%");
    ReplaceCommute(lower, '\'', "''", '%', "\\%");
    ReplaceAppend("%" + escaped, "%", '\'', "''");
    ReplaceAppend("%", escaped, '\'', "''");
    ReplaceAbsent("%", '\'', "''");
  }

  /**
   * The corrected CONTAINS condition, with ContainsTest in place of the
   * as-written pattern, is sound for every reference, '%' included: a
   * matching entity always has a stored row that satisfies it.
   */
  lemma ContainsConditionSound(name: string, reference: string, id: int, kind: string, attrs: AttributeMap)
    requires Match(StringItem(name, StringContains, reference), attrs)
    ensures exists row | row in RowsOf(id, kind, attrs) ::
      Holds(AttributeCond(Some(GetType(StringType)), name, ContainsTest(reference)), row)
  {
    var v := Lookup(attrs, name).value;
    StoredRowOf(id, kind, attrs, name);
    ContainsPatternSound(ToLower(v.s), ToLower(reference));
    assert Holds(AttributeCond(Some(GetType(StringType)), name, ContainsTest(reference)), StoredRow(id, kind, name, v));
  }

  // ---------------------------------------------------------------------
  // Properties of match.
  // ---------------------------------------------------------------------

  /** On a String attribute, EQUALS and NOT_EQUALS are exact complements. */
  lemma StringEqualsComplement(name: string, reference: string, attrs: AttributeMap)
    requires Lookup(attrs, name).Some? && Lookup(attrs, name).value.StringValue?
    ensures Match(StringItem(name, StringEquals, reference), attrs) <==> !Match(StringItem(name, StringNotEquals, reference), attrs)
  {
  }

  /** On a String attribute exactly one of SMALLER, EQUALS and GREATER holds. */
  lemma StringTrichotomy(name: string, reference: string, attrs: AttributeMap)
    requires Lookup(attrs, name).Some? && Lookup(attrs, name).value.StringValue?
    ensures var lt := Match(StringItem(name, StringSmaller, reference), attrs);
      var eq := Match(StringItem(name, StringEquals, reference), attrs);
      var gt := Match(StringItem(name, StringGreater, reference), attrs);
      (lt || eq || gt) && !(lt && eq) && !(lt && gt) && !(eq && gt)
  {
    CompareToZero(Lookup(attrs, name).value.s, reference);
  }

  /** The Long GREATER and SMALLER conditions are one and the same whatever the reference: only presence is tested. */
  lemma LongRangeConditionIgnoresReference(name: string, a: Int64, b: Int64)
    ensures Condition(LongItem(name, LongGreater, a)) == Condition(LongItem(name, LongSmaller, b))
    ensures Condition(LongItem(name, LongGreater, a)) == Some(AttributeCond(Some(0), name, ValueNotNull(true)))
    ensures TestText(ValueNotNull(true)) + ")" == "value IS NOT NULL )"
  {
  }

  /** The Null item's condition names no type, holds on every row with that name, and does not depend on the operator. */
  lemma NullConditionHoldsForName(name: string, op: Option<NullOperator>, op2: Option<NullOperator>, row: AttributeRow)
    ensures Condition(NullItem(name, op)) == Condition(NullItem(name, op2))
    ensures ConditionText(NullItem(name, op)) == Some("(name='" + DoubleQuotes(name) + "' AND " + "value IS NOT NULL" + ")")
    ensures row.name == name <==> Holds(Condition(NullItem(name, op)).value, row)
  {
    assert "(" + TypePart(None) + "name='" == "(name='";
  }

  // ---------------------------------------------------------------------
  // Exactness: apart from the deliberately weak conditions, a condition
  // holds on a stored row exactly when the item matches the value the row
  // decodes to.
  // ---------------------------------------------------------------------

  /** The items whose condition tests the value itself: all leaves but Long GREATER/SMALLER and String CONTAINS. */
  predicate ExactItem(item: FilterItem) {
    match item
    case BooleanItem(_, _) => true
    case LongItem(_, op, _) => op == LongEquals || op == LongNotEquals
    case StringItem(_, op, _) => op != StringContains
    case NullItem(_, _) => true
    case GroupItem(_, _) => false
  }

  lemma ConditionExactOnRow(item: FilterItem, row: AttributeRow)
    requires ExactItem(item)
    requires CanonicalRow(row)
    ensures Holds(Condition(item).value, row)
      <==> row.name == item.attributeName
           && Match(item, map[row.name := Decode(row.typeCode, row.value)])
  {
    var d := Decode(row.typeCode, row.value).value;
    var attrs: AttributeMap := map[row.name := Some(d)];
    assert Lookup(attrs, row.name) == Some(d);
    match item {
      case LongItem(name, op, reference) =>
        if row.typeCode == 0 {
          assert d.LongValue?;
          DecimalTextInjective(d.l, reference);
        }
      case BooleanItem(name, reference) =>
      case StringItem(name, op, reference) =>
      case NullItem(name, _) =>
    }
  }
}
