/**
 * PolynomialFormatter: the text form "5x^2 + 3x + 7" of a polynomial, and its variant whose
 * coefficients are written as powers of the generator of GF(2^n). The text is specified by
 * the functions below and proved readable: splitting it at " + ", reading each term back and
 * collecting the terms by degree gives the coefficients again.
 */
module PolynomialFormatter {
  import opened Wrappers
  import opened Fields
  import Core = PolynomialCore
  import Imm = ImmutablePolynomials

  type Poly = Imm.PolynomialImmutable

  // ---------------------------------------------------------------------------------------------
  // Decimal text of an integer, as PHP's (string) cast writes it
  // ---------------------------------------------------------------------------------------------

  /** A text neither term syntax nor the separator can be confused with: no 'x', no space. */
  predicate Plain(t: string)
  {
    forall i :: 0 <= i < |t| ==> t[i] != 'x' && t[i] != ' '
  }

  /** A text without a space: it cannot be cut by the separator " + ". */
  predicate NoSpace(t: string)
  {
    forall i :: 0 <= i < |t| ==> t[i] != ' '
  }

  function DigitChar(n: nat): char
    requires n < 10
  {
    "0123456789"[n]
  }

  function DigitValue(c: char): nat
  {
    if '0' <= c <= '9' then (c - '0') as nat else 0
  }

  /** The decimal digits of n, most significant first, without leading zeros. */
  function Digits(n: nat): (r: string)
    ensures r != [] && Plain(r) && r[0] != '-'
  {
    if n < 10 then [DigitChar(n)] else Digits(n / 10) + [DigitChar(n % 10)]
  }

  /** The value of a string of decimal digits. */
  function ParseNatural(t: string): nat
  {
    if t == [] then 0 else ParseNatural(t[..|t| - 1]) * 10 + DigitValue(t[|t| - 1])
  }

  /** (string) $v: a minus sign for a negative integer, then its digits. */
  function Decimal(v: int): (r: string)
    ensures r != [] && Plain(r)
  {
    if v < 0 then "-" + Digits(-v) else Digits(v)
  }

  /** The integer a decimal text denotes; the empty text denotes 0. */
  function ParseDecimal(t: string): int
  {
    if t != [] && t[0] == '-' then 0 - ParseNatural(t[1..]) as int else ParseNatural(t)
  }

  lemma DigitValueOfChar(n: nat)
    requires n < 10
    ensures DigitValue(DigitChar(n)) == n
  {
  }

  lemma ParseAppend(t: string, c: char)
    ensures ParseNatural(t + [c]) == ParseNatural(t) * 10 + DigitValue(c)
  {
    assert (t + [c])[..|t|] == t;
  }

  lemma {:induction false} ParseDigits(n: nat)
    ensures ParseNatural(Digits(n)) == n
  {
    if n < 10 {
      DigitValueOfChar(n);
      assert ParseNatural(Digits(n)) == ParseNatural([]) * 10 + DigitValue(DigitChar(n)) by {
        ParseAppend([], DigitChar(n));
      }
    } else {
      ParseDigits(n / 10);
      DigitValueOfChar(n % 10);
      ParseAppend(Digits(n / 10), DigitChar(n % 10));
    }
  }

  lemma ParseNegative(t: string)
    ensures ParseDecimal("-" + t) == 0 - ParseNatural(t)
  {
    assert ("-" + t)[1..] == t;
  }

  /** Reading back the decimal text of any integer gives the integer. */
  lemma ParseDecimalOfDecimal(v: int)
    ensures ParseDecimal(Decimal(v)) == v
  {
    if v < 0 {
      ParseDigits(-v);
      ParseNegative(Digits(-v));
    } else {
      ParseDigits(v);
    }
  }

  /** The cast writes "1" exactly for the integer 1: formatTerm's test on the text '1'. */
  lemma DecimalIsOne(v: int)
    ensures Decimal(v) == "1" <==> v == 1
  {
    if Decimal(v) == "1" {
      ParseDecimalOfDecimal(v);
    }
  }

  // ---------------------------------------------------------------------------------------------
  // One term: formatTerm and its reading
  // ---------------------------------------------------------------------------------------------

  /**
   * formatTerm: the coefficient text followed by the power of x. The power is omitted at
   * degree 0, written "x" at degree 1 and "x^n" above, and a coefficient "1" is omitted
   * whenever a power of x is written.
   */
  function FormatTerm(coeff: string, degree: nat): (r: string)
  {
    if degree == 0 then coeff
    else if degree == 1 && coeff == "1" then "x"
    else if degree == 1 then coeff + "x"
    else if coeff == "1" then "x^" + Digits(degree)
    else coeff + "x^" + Digits(degree)
  }

  /** The position of the first c in t, or |t| when there is none. */
  function IndexOf(t: string, c: char): (i: nat)
    ensures i <= |t| && (i < |t| ==> t[i] == c)
    ensures forall j :: 0 <= j < i ==> t[j] != c
  {
    if t == [] then 0 else if t[0] == c then 0 else IndexOf(t[1..], c) + 1
  }

  /**
   * Reads one term back into its coefficient text and its degree: no 'x' means degree 0,
   * an omitted coefficient means "1", a bare "x" means degree 1.
   */
  function ParseTerm(t: string): (string, nat)
  {
    var i := IndexOf(t, 'x');
    if i == |t| then (t, 0)
    else
      var coeff := if i == 0 then "1" else t[..i];
      var degree := if i + 2 <= |t| then ParseNatural(t[i + 2..]) else 1;
      (coeff, degree)
  }

  lemma IndexOfPlain(c: string, rest: string)
    requires Plain(c)
    ensures rest != [] && rest[0] == 'x' ==> IndexOf(c + rest, 'x') == |c|
    ensures rest == [] ==> IndexOf(c, 'x') == |c|
  {
    if c != [] {
      assert (c + rest)[1..] == c[1..] + rest;
      IndexOfPlain(c[1..], rest);
    }
  }

  /** Every term formatTerm writes reads back as the coefficient text and degree it was given. */
  lemma ParseFormatTerm(coeff: string, degree: nat)
    requires coeff != [] && Plain(coeff)
    ensures ParseTerm(FormatTerm(coeff, degree)) == (coeff, degree)
  {
    var t := FormatTerm(coeff, degree);
    if degree == 0 {
      IndexOfPlain(coeff, []);
    } else if degree == 1 && coeff == "1" {
    } else if degree == 1 {
      IndexOfPlain(coeff, "x");
      assert t[..|coeff|] == coeff;
    } else if coeff == "1" {
      assert t[2..] == Digits(degree);
      ParseDigits(degree);
    } else {
      IndexOfPlain(coeff, "x^" + Digits(degree));
      assert t == coeff + ("x^" + Digits(degree));
      assert t[..|coeff|] == coeff;
      assert t[|coeff| + 2..] == Digits(degree);
      ParseDigits(degree);
    }
  }

  // ---------------------------------------------------------------------------------------------
  // The list of terms: implode(' + ', ...) and its reading
  // ---------------------------------------------------------------------------------------------

  /** implode(' + ', terms). */
  function Join(terms: seq<string>): string
  {
    if terms == [] then ""
    else if |terms| == 1 then terms[0]
    else terms[0] + " + " + Join(terms[1..])
  }

  /** Cuts a text at every " + ": the pieces are the texts between the spaces. */
  function Split(text: string): seq<string>
    decreases |text|
  {
    var i := IndexOf(text, ' ');
    if i == |text| then [text]
    else [text[..i]] + Split(if i + 3 <= |text| then text[i + 3..] else [])
  }

  lemma IndexOfSpace(t: string, rest: string)
    requires NoSpace(t)
    ensures IndexOf(t + " + " + rest, ' ') == |t| && IndexOf(t, ' ') == |t|
  {
    if t != [] {
      assert (t + " + " + rest)[1..] == t[1..] + " + " + rest;
      IndexOfSpace(t[1..], rest);
    }
  }

  /** Cutting the joined terms at " + " gives the terms back, when no term has a space. */
  lemma {:induction false} SplitJoin(terms: seq<string>)
    requires terms != []
    requires forall k :: 0 <= k < |terms| ==> NoSpace(terms[k])
    ensures Split(Join(terms)) == terms
  {
    IndexOfSpace(terms[0], if |terms| == 1 then [] else Join(terms[1..]));
    if |terms| > 1 {
      var text := Join(terms);
      var rest := Join(terms[1..]);
      assert text == terms[0] + " + " + rest;
      assert text[..|terms[0]|] == terms[0];
      assert text[|terms[0]| + 3..] == rest;
      SplitJoin(terms[1..]);
    }
  }

  /** Reads a whole text into its terms, each as (coefficient text, degree). */
  function Read(text: string): (r: seq<(string, nat)>)
    ensures |r| == |Split(text)|
  {
    var pieces := Split(text);
    seq(|pieces|, k requires 0 <= k < |pieces| => ParseTerm(pieces[k]))
  }

  /** The coefficient text written for degree d, or "" when no term has degree d. */
  function Lookup(terms: seq<(string, nat)>, d: nat): string
  {
    if terms == [] then "" else if terms[0].1 == d then terms[0].0 else Lookup(terms[1..], d)
  }

  /** Degrees strictly decrease from the first term to the last. */
  predicate Descending(terms: seq<(string, nat)>)
  {
    forall i, j :: 0 <= i < j < |terms| ==> terms[i].1 > terms[j].1
  }

  lemma {:induction false} LookupAppend(terms: seq<(string, nat)>, last: (string, nat), d: nat)
    requires forall k :: 0 <= k < |terms| ==> terms[k].1 > last.1
    ensures Lookup(terms + [last], d) == if d == last.1 then last.0 else Lookup(terms, d)
  {
    if terms == [] {
      assert [last][1..] == [];
    } else {
      assert (terms + [last])[1..] == terms[1..] + [last];
      LookupAppend(terms[1..], last, d);
    }
  }

  // ---------------------------------------------------------------------------------------------
  // The terms of a coefficient list, as the foreach loop builds them
  // ---------------------------------------------------------------------------------------------

  /**
   * The terms of the first k coefficients of s, highest degree first: coefficient s[i] has
   * degree |s| - 1 - i, a zero coefficient gives no term, and render writes the coefficient.
   */
  function Terms(s: seq<int>, k: nat, render: int -> string): seq<string>
    requires k <= |s|
  {
    if k == 0 then []
    else if s[k - 1] == 0 then Terms(s, k - 1, render)
    else Terms(s, k - 1, render) + [FormatTerm(render(s[k - 1]), |s| - k)]
  }

  /** One more coefficient: a term for it when it is nonzero, at degree |s| - 1 - i. */
  lemma TermsStep(s: seq<int>, i: nat, render: int -> string)
    requires i < |s|
    ensures Terms(s, i + 1, render) ==
      Terms(s, i, render) + (if s[i] == 0 then [] else [FormatTerm(render(s[i]), Core.Degree(s) - i)])
  {
  }

  /** The same terms as (coefficient text, degree) pairs, the reading they are meant to have. */
  function TermPairs(s: seq<int>, k: nat, render: int -> string): (r: seq<(string, nat)>)
    requires k <= |s|
    ensures forall i :: 0 <= i < |r| ==> |s| - k <= r[i].1 < |s|
    ensures Descending(r)
  {
    if k == 0 then []
    else if s[k - 1] == 0 then TermPairs(s, k - 1, render)
    else TermPairs(s, k - 1, render) + [(render(s[k - 1]), |s| - k)]
  }

  /** render never writes an empty text, an 'x' or a space. */
  ghost predicate PlainRender(render: int -> string)
  {
    forall c :: render(c) != [] && Plain(render(c))
  }

  /** Each term reads back as its pair. */
  lemma {:induction false} ReadTerms(s: seq<int>, k: nat, render: int -> string)
    requires k <= |s| && PlainRender(render)
    ensures |Terms(s, k, render)| == |TermPairs(s, k, render)|
    ensures forall i :: 0 <= i < |Terms(s, k, render)| ==>
      ParseTerm(Terms(s, k, render)[i]) == TermPairs(s, k, render)[i]
    ensures forall i :: 0 <= i < |TermPairs(s, k, render)| ==> TermPairs(s, k, render)[i].0 != ""
  {
    if k > 0 {
      ReadTerms(s, k - 1, render);
      if s[k - 1] != 0 {
        ParseFormatTerm(render(s[k - 1]), |s| - k);
      }
    }
  }

  /** A term's text has no space: it survives the cut at " + ". */
  lemma {:induction false} TermsPlain(s: seq<int>, k: nat, render: int -> string)
    requires k <= |s| && PlainRender(render)
    ensures forall i :: 0 <= i < |Terms(s, k, render)| ==> NoSpace(Terms(s, k, render)[i])
    ensures s[..k] != [] && s[0] != 0 ==> Terms(s, k, render) != []
  {
    if k > 0 {
      TermsPlain(s, k - 1, render);
      if s[k - 1] != 0 {
        var c := render(s[k - 1]);
        var degree := |s| - k;
        assert NoSpace("x^" + Digits(degree));
        assert NoSpace(c + "x") && NoSpace(c + "x^" + Digits(degree));
      }
      if k == 1 {
        assert s[..k] != [] ==> s[k - 1] == s[0];
      } else {
        assert s[..k - 1] != [];
      }
    }
  }

  /** Collecting the pairs by degree: degree d holds the text of CoefficientAt(s, d), if nonzero. */
  lemma {:induction false} LookupTermPairs(s: seq<int>, k: nat, render: int -> string, d: nat)
    requires k <= |s|
    ensures Lookup(TermPairs(s, k, render), d) ==
      if |s| - k <= d && Core.CoefficientAt(s, d) != 0 then render(Core.CoefficientAt(s, d)) else ""
  {
    if k > 0 {
      LookupTermPairs(s, k - 1, render, d);
      if s[k - 1] != 0 {
        LookupAppend(TermPairs(s, k - 1, render), (render(s[k - 1]), |s| - k), d);
      }
    }
  }

  // ---------------------------------------------------------------------------------------------
  // toString
  // ---------------------------------------------------------------------------------------------

  /** toString: "0" for the zero polynomial, else the nonzero terms joined by " + ". */
  function Format(s: seq<int>): string
  {
    if s == [] then "0" else Join(Terms(s, |s|, Decimal))
  }

  /** toString, the foreach loop that collects the terms. */
  method ToString(p: Poly) returns (text: string)
    ensures text == Format(p.coefficients)
  {
    var s := p.coefficients;
    if s == [] {
      return "0";
    }
    var terms := [];
    for i := 0 to |s|
      invariant terms == Terms(s, i, Decimal)
    {
      TermsStep(s, i, Decimal);
      if s[i] != 0 {
        var degree := Core.Degree(s) - i;
        terms := terms + [FormatTerm(Decimal(s[i]), degree)];
      }
    }
    text := Join(terms);
  }

  /** The text of a polynomial, read back term by term and collected by degree. */
  function CoefficientRead(text: string, d: nat): int
  {
    ParseDecimal(Lookup(Read(text), d))
  }

  /** The joined terms of a nonzero polynomial read back as their pairs. */
  lemma ReadJoinedTerms(s: seq<int>, render: int -> string)
    requires s != [] && Core.IsNormalized(s) && PlainRender(render)
    ensures Read(Join(Terms(s, |s|, render))) == TermPairs(s, |s|, render)
    ensures forall i :: 0 <= i < |TermPairs(s, |s|, render)| ==> TermPairs(s, |s|, render)[i].0 != ""
  {
    var terms := Terms(s, |s|, render);
    TermsPlain(s, |s|, render);
    ReadTerms(s, |s|, render);
    assert s[..|s|] == s;
    SplitJoin(terms);
  }

  lemma DecimalRenderPlain()
    ensures PlainRender(Decimal)
  {
  }

  /**
   * toString loses nothing: the text reads back to every coefficient of the polynomial, the
   * terms run from the highest degree down, and no term is written for a zero coefficient.
   */
  lemma FormatReadsBack(s: seq<int>)
    requires Core.IsNormalized(s)
    ensures forall d: nat :: CoefficientRead(Format(s), d) == Core.CoefficientAt(s, d)
    ensures Descending(Read(Format(s)))
    ensures forall i :: 0 <= i < |Read(Format(s))| ==> Read(Format(s))[i].0 != ""
  {
    if s == [] {
      assert IndexOf("0", ' ') == 1 && IndexOf("0", 'x') == 1 by {
        assert "0"[1..] == [];
      }
      assert Split("0") == ["0"];
      assert Read("0") == [("0", 0)];
      assert ParseNatural("0") == 0 by {
        assert "0"[..0] == [];
      }
      forall d: nat
        ensures CoefficientRead("0", d) == 0
      {
        var terms := Read("0");
        if d != 0 {
          assert terms[1..] == [];
          assert Lookup(terms, d) == "";
        } else {
          assert Lookup(terms, d) == "0";
        }
      }
    } else {
      DecimalRenderPlain();
      ReadJoinedTerms(s, Decimal);
      forall d: nat
        ensures CoefficientRead(Format(s), d) == Core.CoefficientAt(s, d)
      {
        LookupTermPairs(s, |s|, Decimal, d);
        ParseDecimalOfDecimal(Core.CoefficientAt(s, d));
      }
    }
  }

  /** Two normalised coefficient lists with the same text are the same list. */
  lemma FormatInjective(s: seq<int>, t: seq<int>)
    requires Core.IsNormalized(s) && Core.IsNormalized(t)
    requires Format(s) == Format(t)
    ensures s == t
  {
    FormatReadsBack(s);
    FormatReadsBack(t);
    forall d: int
      ensures Core.CoefficientAt(s, d) == Core.CoefficientAt(t, d)
    {
      if d >= 0 {
        assert CoefficientRead(Format(s), d) == CoefficientRead(Format(t), d);
      }
    }
    Core.CoefficientsDetermine(s, t);
  }

  /** [5, 3, 7] is written "5x^2 + 3x + 7". */
  lemma FormatQuadraticExample()
    ensures Format([5, 3, 7]) == "5x^2 + 3x + 7"
  {
    var a, b, c := "5x^2", "3x", "7";
    QuadraticTerms();
    assert Join([c]) == c;
    assert Join([b, c]) == b + " + " + c by {
      assert [b, c][1..] == [c];
    }
    assert Join([a, b, c]) == a + " + " + (b + " + " + c) by {
      assert [a, b, c][1..] == [b, c];
    }
  }

  /** The three terms of [5, 3, 7], one per coefficient. */
  lemma QuadraticTerms()
    ensures Terms([5, 3, 7], 3, Decimal) == ["5x^2", "3x", "7"]
  {
    var s := [5, 3, 7];
    assert Core.Degree(s) == 2;
    assert Decimal(5) == "5" && Decimal(3) == "3" && Decimal(7) == "7" && Digits(2) == "2";
    assert FormatTerm(Decimal(5), 2) == "5x^2";
    assert FormatTerm(Decimal(3), 1) == "3x";
    assert FormatTerm(Decimal(7), 0) == "7";
    TermsStep(s, 0, Decimal);
    TermsStep(s, 1, Decimal);
    TermsStep(s, 2, Decimal);
  }

  /** [1, 0, 5, 0] is written "x^3 + 5x": the unit coefficient and the zero terms are omitted. */
  lemma FormatSkipsZerosExample()
    ensures Format([1, 0, 5, 0]) == "x^3 + 5x"
  {
    var s := [1, 0, 5, 0];
    assert Decimal(1) == "1" && Decimal(5) == "5" && Digits(3) == "3";
    assert FormatTerm("1", 3) == "x^3" && FormatTerm("5", 1) == "5x";
    assert Terms(s, 1, Decimal) == ["x^3"];
    assert Terms(s, 2, Decimal) == ["x^3"];
    assert Terms(s, 3, Decimal) == ["x^3", "5x"];
    assert Terms(s, 4, Decimal) == ["x^3", "5x"];
    assert Join(["x^3", "5x"]) == "x^3 + 5x" by {
      assert ["x^3", "5x"][1..] == ["5x"];
    }
  }

  // ---------------------------------------------------------------------------------------------
  // toAlphaString
  // ---------------------------------------------------------------------------------------------

  /**
   * toAlphaString: "0" for the zero polynomial whatever the field, BadMethodCall on a field
   * that is not GF(2^n), else the terms with each coefficient written by alphaPower, the
   * field's rendering of an element as a power of the generator.
   */
  function AlphaFormat(f: Field, s: seq<int>, alphaPower: int -> string): Result<string>
  {
    if s == [] then Ok("0")
    else if !IsBinary(f) then Err(BadMethodCall)
    else Ok(Join(Terms(s, |s|, alphaPower)))
  }

  /** toAlphaString, the guard clauses and then the foreach loop. */
  method ToAlphaString(p: Poly, alphaPower: int -> string) returns (r: Result<string>)
    ensures r == AlphaFormat(p.field, p.coefficients, alphaPower)
  {
    var s := p.coefficients;
    if s == [] {
      return Ok("0");
    }
    if !IsBinary(p.field) {
      return Err(BadMethodCall);
    }
    var terms := [];
    for i := 0 to |s|
      invariant terms == Terms(s, i, alphaPower)
    {
      TermsStep(s, i, alphaPower);
      if s[i] != 0 {
        var degree := Core.Degree(s) - i;
        terms := terms + [FormatTerm(alphaPower(s[i]), degree)];
      }
    }
    return Ok(Join(terms));
  }

  /**
   * The guards come in the source's order: the zero polynomial is "0" even over a prime
   * field, and only a nonzero polynomial over a field other than GF(2^n) is refused.
   */
  lemma AlphaFormatGuards(f: Field, s: seq<int>, alphaPower: int -> string)
    ensures s == [] ==> AlphaFormat(f, s, alphaPower) == Ok("0")
    ensures AlphaFormat(f, s, alphaPower).Err? <==> s != [] && !IsBinary(f)
    ensures AlphaFormat(f, s, alphaPower).Err? ==> AlphaFormat(f, s, alphaPower).error == BadMethodCall
  {
  }

  /**
   * Over GF(2^n) the α text reads back to the rendering of every nonzero coefficient at its
   * degree, highest degree first, with no term where the coefficient is zero.
   */
  lemma AlphaFormatReadsBack(f: Field, s: seq<int>, alphaPower: int -> string)
    requires IsBinary(f) && Core.IsNormalized(s) && s != [] && PlainRender(alphaPower)
    ensures AlphaFormat(f, s, alphaPower).Ok?
    ensures var terms := Read(AlphaFormat(f, s, alphaPower).value);
      Descending(terms) &&
      forall d: nat :: Lookup(terms, d) ==
        if Core.CoefficientAt(s, d) != 0 then alphaPower(Core.CoefficientAt(s, d)) else ""
  {
    ReadJoinedTerms(s, alphaPower);
    var pairs := TermPairs(s, |s|, alphaPower);
    assert Read(AlphaFormat(f, s, alphaPower).value) == pairs;
    forall d: nat
      ensures Lookup(pairs, d) ==
        if Core.CoefficientAt(s, d) != 0 then alphaPower(Core.CoefficientAt(s, d)) else ""
    {
      LookupTermPairs(s, |s|, alphaPower, d);
    }
  }
}
