/**
 * The narrowing side of a query. A filter's getCondition text is the WHERE
 * clause of "SELECT entityId FROM Attribute WHERE ...": it is evaluated row
 * by row over the Attribute table. Cond is the abstract syntax of that text,
 * CondText renders it exactly as the filter classes concatenate it, and
 * Holds is its reading on one row.
 */
module Conditions {

  import opened Wrappers
  import opened Text
  import opened Values

  /** One row of the Attribute table (its own identity column is not modelled). */
  datatype AttributeRow = AttributeRow(entityId: int, entityKind: string, name: string, typeCode: int, value: string)

  /** The row putAttribute writes for one non-null attribute: its type tag and its toString text. */
  function StoredRow(entityId: int, kind: string, name: string, v: Value): AttributeRow {
    AttributeRow(entityId, kind, name, GetType(TypeOf(v)), ValueText(v))
  }

  /** The rows an entity's attributes are stored as: one per non-null attribute. */
  function RowsOf(entityId: int, kind: string, attrs: AttributeMap): set<AttributeRow> {
    set n | n in attrs && attrs[n].Some? :: StoredRow(entityId, kind, n, attrs[n].value)
  }

  /**
   * A row as putAttribute writes it: its text decodes, and the decoded
   * value's own tag and text are the row's.
   */
  predicate CanonicalRow(row: AttributeRow) {
    var d := Decode(row.typeCode, row.value);
    d.Some? && GetType(TypeOf(d.value)) == row.typeCode && ValueText(d.value) == row.value
  }

  // ---------------------------------------------------------------------
  // Abstract syntax.
  // ---------------------------------------------------------------------

  /** value=, value<>, value> and value< against a string literal. */
  datatype Comparison = Eq | Ne | Gt | Lt

  datatype ValueTest =
    | ValueCompare(op: Comparison, literal: string)
      /** LOWER(value) LIKE 'pattern', with an ESCAPE clause when escape is present. */
    | ValueLike(pattern: string, escape: Option<char>)
      /** value IS NOT NULL; padded when the text has a blank before the closing parenthesis. */
    | ValueNotNull(padded: bool)

  datatype Cond =
      /** (type=<code> AND name='<name>' AND <test>); the type part is absent when typeCode is None. */
    | AttributeCond(typeCode: Option<int>, name: string, test: ValueTest)
      /** (<c1> OR <c2> OR ...) */
    | AnyOf(conds: seq<Cond>)

  /** Filter.getCondition: (entityKind='<kind>' AND <item>), or (entityKind='<kind>') without an item condition. */
  datatype FilterCond = FilterCond(kind: string, item: Option<Cond>)

  // ---------------------------------------------------------------------
  // Text.
  // ---------------------------------------------------------------------

  function ComparisonText(op: Comparison): string {
    match op
    case Eq => "="
    case Ne => "<>"
    case Gt => ">"
    case Lt => "<"
  }

  function TestText(t: ValueTest): string {
    match t
    case ValueCompare(op, literal) => "value" + ComparisonText(op) + "'" + DoubleQuotes(literal) + "'"
    case ValueLike(pattern, escape) =>
      "LOWER(value) LIKE '" + DoubleQuotes(pattern) + "'"
      + (if escape.Some? then " ESCAPE '" + DoubleQuotes([escape.value]) + "'" else "")
    case ValueNotNull(padded) => if padded then "value IS NOT NULL " else "value IS NOT NULL"
  }

  /** Texts joined with " OR ", each further text appended at the end as the group loop does. */
  function JoinOr(texts: seq<string>): string {
    if |texts| == 0 then ""
    else if |texts| == 1 then texts[0]
    else JoinOr(texts[..|texts| - 1]) + " OR " + texts[|texts| - 1]
  }

  function TypePart(typeCode: Option<int>): string {
    if typeCode.Some? then "type=" + DecimalText(typeCode.value) + " AND " else ""
  }

  /** Every condition's text starts with '(' and ends with ')'. */
  function CondText(c: Cond): (r: string)
    ensures |r| >= 2 && r[0] == '(' && r[|r| - 1] == ')'
  {
    match c
    case AttributeCond(typeCode, name, test) =>
      "(" + TypePart(typeCode) + "name='" + DoubleQuotes(name) + "' AND " + TestText(test) + ")"
    case AnyOf(conds) => "(" + JoinOr(CondTexts(conds)) + ")"
  }

  function CondTexts(conds: seq<Cond>): seq<string> {
    seq(|conds|, i requires 0 <= i < |conds| => CondText(conds[i]))
  }

  function FilterCondText(fc: FilterCond): string {
    "(entityKind='" + DoubleQuotes(fc.kind) + "'"
    + (if fc.item.Some? then " AND " + CondText(fc.item.value) else "")
    + ")"
  }

  /**
   * The Long and Boolean items append their reference's toString without
   * doubling quotes; rendering it through DoubleQuotes gives the same text,
   * since neither a decimal nor a Boolean text holds a quote.
   */
  lemma LiteralsNeedNoDoubling(n: int, b: bool)
    ensures DoubleQuotes(DecimalText(n)) == DecimalText(n)
    ensures DoubleQuotes(BooleanText(b)) == BooleanText(b)
  {
    var m: nat := if n < 0 then -n else n;
    NaturalTextValue(m);
    assert forall i | 0 <= i < |NaturalText(m)| :: IsDigit(NaturalText(m)[i]);
    assert '\'' !in NaturalText(m);
    if n < 0 {
      assert DecimalText(n) == "-" + NaturalText(m);
    }
    ReplaceAbsent(DecimalText(n), '\'', "''");
    ReplaceAbsent(BooleanText(b), '\'', "''");
  }

  // ---------------------------------------------------------------------
  // Reading on one row.
  // ---------------------------------------------------------------------

  /**
   * SQL LIKE: '%' matches any run of characters, '_' any one character, and
   * the escape character, when the clause names one, makes the character
   * after it literal. Without an ESCAPE clause no character escapes.
   */
  function LikeMatch(s: string, p: string, escape: Option<char>): bool
    decreases |s| + |p|
  {
    if p == [] then s == []
    else if escape == Some(p[0]) then
      |p| >= 2 && s != [] && s[0] == p[1] && LikeMatch(s[1..], p[2..], escape)
    else if p[0] == '%' then
      LikeMatch(s, p[1..], escape) || (s != [] && LikeMatch(s[1..], p, escape))
    else if p[0] == '_' then
      s != [] && LikeMatch(s[1..], p[1..], escape)
    else
      s != [] && s[0] == p[0] && LikeMatch(s[1..], p[1..], escape)
  }

  /**
   * The reading of a value test on the stored text. The store's string
   * order is read as Java's compareTo, LOWER as ASCII lower-casing, and the
   * value column is declared NOT NULL, so IS NOT NULL holds on every row.
   */
  predicate TestHolds(t: ValueTest, value: string) {
    match t
    case ValueCompare(Eq, literal) => value == literal
    case ValueCompare(Ne, literal) => value != literal
    case ValueCompare(Gt, literal) => CompareTo(value, literal) > 0
    case ValueCompare(Lt, literal) => CompareTo(value, literal) < 0
    case ValueLike(pattern, escape) => LikeMatch(ToLower(value), pattern, escape)
    case ValueNotNull(_) => true
  }

  predicate Holds(c: Cond, row: AttributeRow) {
    match c
    case AttributeCond(typeCode, name, test) =>
      (typeCode.None? || row.typeCode == typeCode.value) && row.name == name && TestHolds(test, row.value)
    case AnyOf(conds) => exists i | 0 <= i < |conds| :: Holds(conds[i], row)
  }

  predicate FilterHolds(fc: FilterCond, row: AttributeRow) {
    row.entityKind == fc.kind && (fc.item.None? || Holds(fc.item.value, row))
  }

  // ---------------------------------------------------------------------
  // Facts about LIKE patterns.
  // ---------------------------------------------------------------------

  /** A lone '%' matches every text. */
  lemma {:induction false} LikePercentMatchesAll(s: string, escape: Option<char>)
    requires escape != Some('%')
    ensures LikeMatch(s, "%", escape)
    decreases |s|
  {
    if s != [] {
      LikePercentMatchesAll(s[1..], escape);
    }
  }

  // ---------------------------------------------------------------------
  // Quoting: every name and literal placed between quotes is read back
  // exactly, so no text inside it can end the literal early.
  // ---------------------------------------------------------------------

  /** A doubled literal placed after any prefix and closed by a quote is read back from just after the prefix. */
  lemma QuotedReadsBack(prefix: string, s: string, rest: string)
    requires rest == [] || rest[0] != '\''
    ensures prefix <= prefix + DoubleQuotes(s) + "'" + rest
    ensures ReadLiteral((prefix + DoubleQuotes(s) + "'" + rest)[|prefix|..]) == Some((s, rest))
  {
    ReadLiteralOfDoubled(s, rest);
    assert (prefix + DoubleQuotes(s) + "'" + rest)[|prefix|..] == DoubleQuotes(s) + "'" + rest;
  }

  /** The attribute name in a condition's text is read back as itself, and the literal ends where the source closes it. */
  lemma AttributeNameReadsBack(typeCode: Option<int>, name: string, test: ValueTest)
    ensures var prefix := "(" + TypePart(typeCode) + "name='";
      var t := CondText(AttributeCond(typeCode, name, test));
      prefix <= t && ReadLiteral(t[|prefix|..]) == Some((name, " AND " + TestText(test) + ")"))
  {
    var prefix := "(" + TypePart(typeCode) + "name='";
    var dq, tt := DoubleQuotes(name), TestText(test);
    QuotedReadsBack(prefix, name, " AND " + tt + ")");
    assert CondText(AttributeCond(typeCode, name, test)) == prefix + dq + "' AND " + tt + ")";
    CloseQuoteRegroup(prefix + dq, tt);
  }

  /** Splits the closing quote off "' AND ", regrouping the rest of a condition's text. */
  lemma CloseQuoteRegroup(a: string, tt: string)
    ensures a + "' AND " + tt + ")" == a + "'" + (" AND " + tt + ")")
  {
    var l, r := a + "' AND " + tt + ")", a + "'" + (" AND " + tt + ")");
    assert |l| == |r|;
    forall i | 0 <= i < |l|
      ensures l[i] == r[i]
    {
      if i < |a| {
      } else if i < |a| + 6 {
        assert l[i] == "' AND "[i - |a|];
      } else if i < |a| + 6 + |tt| {
      }
    }
  }

  /** The literal of a value comparison is read back as itself and closes the test. */
  lemma CompareLiteralReadsBack(op: Comparison, literal: string)
    ensures var prefix := "value" + ComparisonText(op) + "'";
      var t := TestText(ValueCompare(op, literal));
      prefix <= t && ReadLiteral(t[|prefix|..]) == Some((literal, ""))
  {
    QuotedReadsBack("value" + ComparisonText(op) + "'", literal, "");
    assert "value" + ComparisonText(op) + "'" + DoubleQuotes(literal) + "'" + "" == TestText(ValueCompare(op, literal));
  }

  /** A filter's text starts with the entityKind equality, whose literal is read back as the kind. */
  lemma KindReadsBack(fc: FilterCond)
    ensures var prefix := "(entityKind='";
      var t := FilterCondText(fc);
      prefix <= t
      && ReadLiteral(t[|prefix|..]) == Some((fc.kind, (if fc.item.Some? then " AND " + CondText(fc.item.value) else "") + ")"))
  {
    var rest := (if fc.item.Some? then " AND " + CondText(fc.item.value) else "") + ")";
    QuotedReadsBack("(entityKind='", fc.kind, rest);
    assert FilterCondText(fc) == "(entityKind='" + DoubleQuotes(fc.kind) + "'" + rest;
  }
}
