/**
 * The java.lang.String and java.lang.Long operations the engine relies on,
 * over Dafny strings (sequences of char).
 */
module Text {

  import opened Wrappers

  // ---------------------------------------------------------------------
  // Decimal text, as produced by Long.toString and by string concatenation
  // of a long or an int.
  // ---------------------------------------------------------------------

  predicate IsDigit(c: char) {
    '0' <= c <= '9'
  }

  predicate AllDigits(s: string) {
    forall i | 0 <= i < |s| :: IsDigit(s[i])
  }

  function DigitChar(d: nat): (c: char)
    requires d < 10
    ensures IsDigit(c)
  {
    ('0' as int + d) as char
  }

  /** The numeric value of a run of ASCII digits, most significant first. */
  function DigitsValue(s: string): nat
    requires AllDigits(s)
    decreases |s|
  {
    if s == [] then 0 else DigitsValue(s[..|s| - 1]) * 10 + (s[|s| - 1] as int - '0' as int)
  }

  /** The shortest decimal text of a natural number (no sign, no leading zeros). */
  function NaturalText(n: nat): string
    decreases n
  {
    if n < 10 then [DigitChar(n)] else NaturalText(n / 10) + [DigitChar(n % 10)]
  }

  /** Long.toString: a minus sign for negative numbers, then the digits. */
  function DecimalText(n: int): string {
    if n < 0 then "-" + NaturalText(-n) else NaturalText(n)
  }

  /** NaturalText is non-empty, all digits, and its digits denote n. */
  lemma {:induction false} NaturalTextValue(n: nat)
    ensures |NaturalText(n)| >= 1 && AllDigits(NaturalText(n))
    ensures DigitsValue(NaturalText(n)) == n
    decreases n
  {
    if n >= 10 {
      NaturalTextValue(n / 10);
      var s := NaturalText(n);
      assert s == NaturalText(n / 10) + [DigitChar(n % 10)];
      assert s[..|s| - 1] == NaturalText(n / 10);
    }
  }

  // ---------------------------------------------------------------------
  // String.replace(c, r) for a one-character target.
  // ---------------------------------------------------------------------

  /** Every occurrence of c in s replaced by r, left to right. */
  function Replace(s: string, c: char, r: string): string
    decreases |s|
  {
    if s == [] then [] else (if s[0] == c then r else [s[0]]) + Replace(s[1..], c, r)
  }

  /** Replacing distributes over concatenation. */
  lemma {:induction false} ReplaceAppend(s: string, t: string, c: char, r: string)
    ensures Replace(s + t, c, r) == Replace(s, c, r) + Replace(t, c, r)
    decreases |s|
  {
    if s == [] {
      assert s + t == t;
    } else {
      assert (s + t)[0] == s[0] && (s + t)[1..] == s[1..] + t;
      ReplaceAppend(s[1..], t, c, r);
    }
  }

  /** A string without the target character is left as it is. */
  lemma {:induction false} ReplaceAbsent(s: string, c: char, r: string)
    requires c !in s
    ensures Replace(s, c, r) == s
    decreases |s|
  {
    if s != [] {
      assert c !in s[1..];
      ReplaceAbsent(s[1..], c, r);
    }
  }

  /**
   * Two replacements of different characters commute when neither
   * replacement text contains the other target.
   */
  lemma {:induction false} ReplaceCommute(s: string, c: char, r: string, d: char, q: string)
    requires c != d && c !in q && d !in r
    ensures Replace(Replace(s, c, r), d, q) == Replace(Replace(s, d, q), c, r)
    decreases |s|
  {
    if s != [] {
      var head := [s[0]];
      assert s == head + s[1..];
      ReplaceAppend(head, s[1..], c, r);
      ReplaceAppend(head, s[1..], d, q);
      var hc := Replace(head, c, r);
      var hd := Replace(head, d, q);
      ReplaceAppend(hc, Replace(s[1..], c, r), d, q);
      ReplaceAppend(hd, Replace(s[1..], d, q), c, r);
      if s[0] == c {
        ReplaceAbsent(r, d, q);
        assert c !in head[1..];
        assert Replace(hd, c, r) == r;
      } else if s[0] == d {
        ReplaceAbsent(q, c, r);
        assert Replace(hc, d, q) == q;
      } else {
        assert Replace(hc, d, q) == head;
        assert Replace(hd, c, r) == head;
      }
      ReplaceCommute(s[1..], c, r, d, q);
    }
  }

  // ---------------------------------------------------------------------
  // Single quotes: doubling them for an SQL string literal, and reading
  // such a literal back.
  // ---------------------------------------------------------------------

  /** replace("'", "''"): the escaping every condition applies to names and literals. */
  function DoubleQuotes(s: string): string {
    Replace(s, '\'', "''")
  }

  /**
   * Reads an SQL string literal whose opening quote has already been consumed:
   * a doubled quote stands for one quote, a lone quote ends the literal.
   * Returns the literal's value and the text after its closing quote.
   */
  function ReadLiteral(t: string): Option<(string, string)>
    decreases |t|
  {
    if t == [] then None
    else if t[0] == '\'' then
      if |t| >= 2 && t[1] == '\'' then
        match ReadLiteral(t[2..])
        case None => None
        case Some((v, rest)) => Some(("'" + v, rest))
      else Some(("", t[1..]))
    else
      match ReadLiteral(t[1..])
      case None => None
      case Some((v, rest)) => Some(([t[0]] + v, rest))
  }

  /**
   * A doubled name or value, closed by one quote, is read back exactly: the
   * literal ends at the intended quote (no text of s can close it early) and
   * its value is s again.
   */
  lemma {:induction false} ReadLiteralOfDoubled(s: string, rest: string)
    requires rest == [] || rest[0] != '\''
    ensures ReadLiteral(DoubleQuotes(s) + "'" + rest) == Some((s, rest))
    decreases |s|
  {
    if s == [] {
      assert DoubleQuotes(s) + "'" + rest == "'" + rest;
    } else {
      var t := DoubleQuotes(s) + "'" + rest;
      var tail := DoubleQuotes(s[1..]) + "'" + rest;
      ReadLiteralOfDoubled(s[1..], rest);
      if s[0] == '\'' {
        assert t == "''" + tail;
        assert t[2..] == tail;
        assert "'" + s[1..] == s;
      } else {
        assert t == [s[0]] + tail;
        assert t[1..] == tail;
        assert [s[0]] + s[1..] == s;
      }
    }
  }

  // ---------------------------------------------------------------------
  // Case, containment and ordering.
  // ---------------------------------------------------------------------

  function LowerChar(c: char): char {
    if 'A' <= c <= 'Z' then (c as int + 32) as char else c
  }

  /** String.toLowerCase, restricted to the ASCII letters. */
  function ToLower(s: string): (r: string)
    ensures |r| == |s|
    ensures forall i | 0 <= i < |s| :: r[i] == LowerChar(s[i])
  {
    seq(|s|, i requires 0 <= i < |s| => LowerChar(s[i]))
  }

  /** String.contains: t occurs in s at some position. */
  function Contains(s: string, t: string): bool
    decreases |s|
  {
    t <= s || (s != [] && Contains(s[1..], t))
  }

  /**
   * String.compareTo: the difference of the first differing characters, or
   * else the difference of the lengths.
   */
  function CompareTo(a: string, b: string): int
    decreases |a|
  {
    if a == [] || b == [] then |a| - |b|
    else if a[0] != b[0] then a[0] as int - b[0] as int
    else CompareTo(a[1..], b[1..])
  }

  /** compareTo is zero exactly on equal strings. */
  lemma {:induction false} CompareToZero(a: string, b: string)
    ensures CompareTo(a, b) == 0 <==> a == b
    decreases |a|
  {
    if a != [] && b != [] && a[0] == b[0] {
      CompareToZero(a[1..], b[1..]);
      assert a == [a[0]] + a[1..] && b == [b[0]] + b[1..];
    }
  }
}
