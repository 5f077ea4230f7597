/**
 * Attribute values and the way they are stored: the three value types an
 * Entity carries (Long, Boolean, String), the type tags of the Attribute
 * table (RelationalDB.AttributeDTO.EType) and the text a value is stored as.
 */
module Values {

  import opened Wrappers
  import opened Text

  const MinLong: int := -0x8000_0000_0000_0000
  const MaxLong: int := 0x7fff_ffff_ffff_ffff

  /** Java's long. */
  type Int64 = x: int | MinLong <= x <= MaxLong

  /** An attribute value: a Long, a Boolean or a String. */
  datatype Value = LongValue(l: Int64) | BooleanValue(b: bool) | StringValue(s: string)

  /** An entity's attribute map; a key may be mapped to null (None). */
  type AttributeMap = map<string, Option<Value>>

  /** HashMap.get: the value under key, or null when the key is absent or mapped to null. */
  function Lookup(attrs: AttributeMap, key: string): Option<Value> {
    if key in attrs then attrs[key] else None
  }

  /** The entries of attrs whose value is not null. */
  function NonNull(attrs: AttributeMap): (r: AttributeMap)
    ensures r.Keys <= attrs.Keys
    ensures forall k :: Lookup(r, k) == Lookup(attrs, k)
    ensures forall k | k in r :: r[k].Some?
  {
    map k | k in attrs && attrs[k].Some? :: attrs[k]
  }

  // ---------------------------------------------------------------------
  // Type tags: AttributeDTO.EType and its integer codes.
  // ---------------------------------------------------------------------

  datatype EType = LongType | BooleanType | StringType

  /** EType.getType: LONG is 0, BOOLEAN is 1, STRING is 2. */
  function GetType(t: EType): (code: int)
    ensures 0 <= code <= 2
  {
    match t
    case LongType => 0
    case BooleanType => 1
    case StringType => 2
  }

  /** EType.getFromType: the inverse of GetType; any other code is rejected (None). */
  function GetFromType(code: int): (r: Option<EType>)
    ensures r.Some? <==> 0 <= code <= 2
    ensures r.Some? ==> GetType(r.value) == code
    ensures forall t: EType :: GetType(t) == code ==> r == Some(t)
  {
    if code == 0 then Some(LongType)
    else if code == 1 then Some(BooleanType)
    else if code == 2 then Some(StringType)
    else None
  }

  /** The type tag putAttribute chooses for a value. */
  function TypeOf(v: Value): EType {
    match v
    case LongValue(_) => LongType
    case BooleanValue(_) => BooleanType
    case StringValue(_) => StringType
  }

  // ---------------------------------------------------------------------
  // Stored text: value.toString() on the way in, and Boolean.valueOf /
  // Long.parseLong / the text itself on the way out.
  // ---------------------------------------------------------------------

  /** Boolean.toString. */
  function BooleanText(b: bool): string {
    if b then "true" else "false"
  }

  /** Boolean.valueOf(String): true exactly for "true" in any letter case, false for every other text. */
  function BooleanValueOf(s: string): bool {
    ToLower(s) == "true"
  }

  /**
   * Long.parseLong: an optional '-' or '+', then at least one digit, and a
   * value within the range of a long; None where parseLong throws
   * NumberFormatException.
   */
  function ParseLong(s: string): (r: Option<Int64>)
    ensures r.Some? ==> |s| >= 1
  {
    if |s| == 0 then None
    else
      var digits := if s[0] == '-' || s[0] == '+' then s[1..] else s;
      if |digits| == 0 || !AllDigits(digits) then None
      else
        var magnitude: int := DigitsValue(digits);
        var v: int := if s[0] == '-' then -magnitude else magnitude;
        if MinLong <= v <= MaxLong then Some(v) else None
  }

  /** value.toString(): the text putAttribute stores. */
  function ValueText(v: Value): string {
    match v
    case LongValue(l) => DecimalText(l)
    case BooleanValue(b) => BooleanText(b)
    case StringValue(s) => s
  }

  /**
   * The value get() rebuilds from a stored type code and text; None where
   * get() throws (an unknown code, or text parseLong rejects).
   */
  function Decode(code: int, text: string): (r: Option<Value>)
    ensures r.Some? ==> GetFromType(code) == Some(TypeOf(r.value))
    ensures GetFromType(code).None? ==> r.None?
  {
    match GetFromType(code)
    case None => None
    case Some(LongType) =>
      (match ParseLong(text)
       case None => None
       case Some(l) => Some(LongValue(l)))
    case Some(BooleanType) => Some(BooleanValue(BooleanValueOf(text)))
    case Some(StringType) => Some(StringValue(text))
  }

  /** parseLong reads back every long from its decimal text. */
  lemma ParseLongDecimalText(n: Int64)
    ensures ParseLong(DecimalText(n)) == Some(n)
  {
    var m: nat := if n < 0 then -(n as int) else n as int;
    NaturalTextValue(m);
    var digits := NaturalText(m);
    if n < 0 {
      assert DecimalText(n) == "-" + digits;
      assert DecimalText(n)[1..] == digits;
    } else {
      assert IsDigit(digits[0]);
    }
  }

  /** Distinct longs have distinct decimal texts. */
  lemma DecimalTextInjective(a: Int64, b: Int64)
    ensures DecimalText(a) == DecimalText(b) ==> a == b
  {
    ParseLongDecimalText(a);
    ParseLongDecimalText(b);
  }

  /** A value stored as its type tag and toString text decodes to itself. */
  lemma DecodeStored(v: Value)
    ensures Decode(GetType(TypeOf(v)), ValueText(v)) == Some(v)
  {
    match v
    case LongValue(l) => ParseLongDecimalText(l);
    case BooleanValue(b) =>
      assert ToLower("true") == "true";
      assert ToLower("false") != "true";
    case StringValue(_) =>
  }
}
