/** Python's `str(n)` for naturals and the part of `str.format` the converter
    relies on: a template with the positional fields `{0}` and `{1}`, where
    `{{` and `}}` stand for literal braces and any other brace makes the call
    raise. */
module TemplateFormat {
  import opened Wrappers

  predicate IsDigit(c: char)
  {
    '0' <= c <= '9'
  }

  predicate AllDigits(s: string)
  {
    forall i :: 0 <= i < |s| ==> IsDigit(s[i])
  }

  /** `str(n)`: decimal digits, most significant first, no leading zero. */
  function Decimal(n: nat): (r: string)
    ensures |r| >= 1 && AllDigits(r)
    ensures |r| > 1 ==> r[0] != '0'
  {
    if n < 10 then [('0' as int + n) as char]
    else Decimal(n / 10) + [('0' as int + n % 10) as char]
  }

  /** `int(s)` for a string of decimal digits. */
  function ParseDecimal(s: string): nat
    requires AllDigits(s)
  {
    if s == [] then 0
    else ParseDecimal(s[..|s| - 1]) * 10 + (s[|s| - 1] as int - '0' as int)
  }

  /** Reading back the decimal rendering gives the number. */
  lemma {:induction false} DecimalRoundTrip(n: nat)
    ensures ParseDecimal(Decimal(n)) == n
  {
    if n >= 10 {
      var d := Decimal(n);
      assert d[..|d| - 1] == Decimal(n / 10);
      DecimalRoundTrip(n / 10);
    } else {
      assert Decimal(n)[..0] == [];
    }
  }

  /** Distinct numbers have distinct renderings. */
  lemma DecimalInjective(m: nat, n: nat)
    requires Decimal(m) == Decimal(n)
    ensures m == n
  {
    DecimalRoundTrip(m);
    DecimalRoundTrip(n);
  }

  /** Length of the piece a template starts with: a doubled brace, a field
      `{0}` or `{1}`, or a single character. */
  function TokenLength(t: string): (k: nat)
    requires t != []
    ensures 1 <= k <= |t|
  {
    if |t| >= 2 && t[0] == t[1] && (t[0] == '{' || t[0] == '}') then 2
    else if |t| >= 3 && t[0] == '{' && (t[1] == '0' || t[1] == '1') && t[2] == '}' then 3
    else 1
  }

  /** The template starts with a brace that is neither doubled nor a field:
      `format` raises on it. */
  predicate StrayBrace(t: string)
    requires t != []
  {
    TokenLength(t) == 1 && (t[0] == '{' || t[0] == '}')
  }

  /** What the first piece prints. */
  function TokenText(t: string, a0: string, a1: string): string
    requires t != []
  {
    if TokenLength(t) == 3 then (if t[1] == '0' then a0 else a1) else [t[0]]
  }

  /** `s` followed by the result of a `format` call that may have raised. */
  function Prepend(s: string, o: Option<string>): Option<string>
  {
    match o
    case None => None
    case Some(r) => Some(s + r)
  }

  /** `template.format(a0, a1)`: `None` stands for the exception it raises. */
  function Format(t: string, a0: string, a1: string): Option<string>
    decreases |t|
  {
    if t == [] then Some("")
    else if StrayBrace(t) then None
    else Prepend(TokenText(t, a0, a1), Format(t[TokenLength(t)..], a0, a1))
  }

  /** The text of a successful `format` call (empty when it raises). */
  function Formatted(t: string, a0: string, a1: string): string
  {
    match Format(t, a0, a1)
    case None => ""
    case Some(r) => r
  }

  /** Whether `format` raises depends on the template only. */
  lemma {:induction false} FailureIndependentOfArguments(t: string, a0: string, a1: string, b0: string, b1: string)
    ensures Format(t, a0, a1).Some? == Format(t, b0, b1).Some?
    decreases |t|
  {
    if t != [] && !StrayBrace(t) {
      FailureIndependentOfArguments(t[TokenLength(t)..], a0, a1, b0, b1);
    }
  }

  predicate NoBraces(s: string)
  {
    '{' !in s && '}' !in s
  }

  /** A brace doubled, any other character as it is. */
  function EscapeChar(c: char): string
  {
    if c == '{' || c == '}' then [c, c] else [c]
  }

  /** Doubles every brace, so that `Format` prints `s` literally. */
  function Escape(s: string): (r: string)
    ensures NoBraces(s) ==> r == s
  {
    if s == [] then "" else EscapeChar(s[0]) + Escape(s[1..])
  }

  lemma PrependTwice(a: string, b: string, o: Option<string>)
    ensures Prepend(a, Prepend(b, o)) == Prepend(a + b, o)
  {
    match o
    case None =>
    case Some(r) => assert a + (b + r) == a + b + r;
  }

  lemma PrependNothing(o: Option<string>)
    ensures Prepend("", o) == o
  {
    match o
    case None =>
    case Some(r) => assert "" + r == r;
  }

  /** An escaped character prints as itself. */
  lemma EscapeCharIsLiteral(c: char, u: string, a0: string, a1: string)
    ensures Format(EscapeChar(c) + u, a0, a1) == Prepend([c], Format(u, a0, a1))
  {
    var w := EscapeChar(c) + u;
    if c == '{' || c == '}' {
      assert w[0] == c && w[1] == c && w[2..] == u;
      assert TokenLength(w) == 2;
    } else {
      assert w[0] == c && w[1..] == u;
      assert TokenLength(w) == 1;
    }
  }

  /** An escaped string is printed as itself, whatever follows it. */
  lemma {:induction false} EscapeIsLiteral(s: string, t: string, a0: string, a1: string)
    ensures Format(Escape(s) + t, a0, a1) == Prepend(s, Format(t, a0, a1))
  {
    if s != [] {
      var u := Escape(s[1..]) + t;
      EscapeIsLiteral(s[1..], t, a0, a1);
      Regroup(EscapeChar(s[0]), Escape(s[1..]), t);
      EscapeCharIsLiteral(s[0], u, a0, a1);
      PrependTwice([s[0]], s[1..], Format(t, a0, a1));
      assert [s[0]] + s[1..] == s;
    } else {
      assert Escape(s) + t == t;
      PrependNothing(Format(t, a0, a1));
    }
  }

  lemma Regroup(x: string, y: string, z: string)
    ensures x + y + z == x + (y + z)
  {
  }

  /** Text without braces is printed as itself. */
  lemma PlainIsLiteral(s: string, t: string, a0: string, a1: string)
    requires NoBraces(s)
    ensures Format(s + t, a0, a1) == Prepend(s, Format(t, a0, a1))
  {
    EscapeIsLiteral(s, t, a0, a1);
  }

  /** On `{0}` and `{1}` the arguments are substituted. */
  lemma FieldsAreSubstituted(t: string, a0: string, a1: string)
    ensures Format("{0}" + t, a0, a1) == Prepend(a0, Format(t, a0, a1))
    ensures Format("{1}" + t, a0, a1) == Prepend(a1, Format(t, a0, a1))
  {
    var u := "{0}" + t;
    assert u[0] == '{' && u[1] == '0' && u[2] == '}' && u[3..] == t;
    var w := "{1}" + t;
    assert w[0] == '{' && w[1] == '1' && w[2] == '}' && w[3..] == t;
  }

  /** A template that formats ends on a field boundary: what follows it is
      formatted on its own. */
  lemma {:induction false} FormatConcat(x: string, y: string, a0: string, a1: string)
    requires Format(x, a0, a1).Some?
    ensures Format(x + y, a0, a1) == Prepend(Format(x, a0, a1).value, Format(y, a0, a1))
    decreases |x|
  {
    if x == [] {
      assert x + y == y;
      PrependNothing(Format(y, a0, a1));
    } else {
      var k := TokenLength(x);
      FirstTokenOfConcat(x, y);
      FormatConcat(x[k..], y, a0, a1);
      PrependTwice(TokenText(x, a0, a1), Format(x[k..], a0, a1).value, Format(y, a0, a1));
    }
  }

  /** Text after a piece that is not a stray brace does not change that
      piece. */
  lemma FirstTokenOfConcat(x: string, y: string)
    requires x != [] && !StrayBrace(x)
    ensures TokenLength(x + y) == TokenLength(x) && !StrayBrace(x + y)
    ensures (x + y)[TokenLength(x)..] == x[TokenLength(x)..] + y
    ensures forall a0, a1 :: TokenText(x + y, a0, a1) == TokenText(x, a0, a1)
  {
    var xy := x + y;
    var k := TokenLength(x);
    assert xy[..k] == x[..k];
    assert forall i :: 0 <= i < k ==> xy[i] == x[i];
    assert xy[k..] == x[k..] + y;
  }

  /** Plain text in front of a template that formats to `v`. */
  lemma PlainStep(p: string, t: string, v: string, a0: string, a1: string)
    requires NoBraces(p) && Format(t, a0, a1) == Some(v)
    ensures Format(p + t, a0, a1) == Some(p + v)
  {
    PlainIsLiteral(p, t, a0, a1);
  }

  /** A field in front of a template that formats to `v`. */
  lemma FieldStep(t: string, v: string, a0: string, a1: string)
    requires Format(t, a0, a1) == Some(v)
    ensures Format("{0}" + t, a0, a1) == Some(a0 + v)
    ensures Format("{1}" + t, a0, a1) == Some(a1 + v)
  {
    FieldsAreSubstituted(t, a0, a1);
  }

  /** Plain text, `{0}`, plain text, `{1}`, plain text: each field takes its
      argument and each stretch of text is copied. */
  lemma TwoFields(p: string, q: string, r: string, a0: string, a1: string)
    requires NoBraces(p) && NoBraces(q) && NoBraces(r)
    ensures Format(p + "{0}" + q + "{1}" + r, a0, a1) == Some(p + a0 + q + a1 + r)
  {
    var t, v := LastField(q, r, a0, a1);
    FieldStep(t, v, a0, a1);
    PlainStep(p, "{0}" + t, a0 + v, a0, a1);
    RegroupTemplate(p, q, r);
    RegroupText(p, a0, q, a1, r);
  }

  /** The tail `q + "{1}" + r` of a two-field template formats to
      `q + a1 + r`. */
  lemma LastField(q: string, r: string, a0: string, a1: string) returns (t: string, v: string)
    requires NoBraces(q) && NoBraces(r)
    ensures t == q + ("{1}" + r) && v == q + (a1 + r)
    ensures Format(t, a0, a1) == Some(v)
  {
    t, v := q + ("{1}" + r), q + (a1 + r);
    PlainIsLiteral(r, "", a0, a1);
    assert r + "" == r;
    FieldStep(r, r, a0, a1);
    PlainStep(q, "{1}" + r, a1 + r, a0, a1);
  }

  lemma RegroupTemplate(p: string, q: string, r: string)
    ensures p + "{0}" + q + "{1}" + r == p + ("{0}" + (q + ("{1}" + r)))
  {
  }

  lemma RegroupText(p: string, a0: string, q: string, a1: string, r: string)
    ensures p + a0 + q + a1 + r == p + (a0 + (q + (a1 + r)))
  {
  }

  /** Three templates that format to `u`, `v` and `w`, one after the other. */
  lemma ConcatThree(x: string, y: string, z: string, u: string, v: string, w: string, a0: string, a1: string)
    requires Format(x, a0, a1) == Some(u) && Format(y, a0, a1) == Some(v) && Format(z, a0, a1) == Some(w)
    ensures Format(x + y + z, a0, a1) == Some(u + v + w)
  {
    ConcatStep(x, y, u, v, a0, a1);
    ConcatStep(x + y, z, u + v, w, a0, a1);
  }

  /** Two templates that format to `u` and `v`, one after the other. */
  lemma ConcatStep(x: string, y: string, u: string, v: string, a0: string, a1: string)
    requires Format(x, a0, a1) == Some(u) && Format(y, a0, a1) == Some(v)
    ensures Format(x + y, a0, a1) == Some(u + v)
  {
    FormatConcat(x, y, a0, a1);
  }
}
