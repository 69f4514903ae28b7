/** The per-page output file names (`get_output_pdf_image_names` and the
    `format` call of `process_poppeller_output`). */
module Naming {
  import opened Wrappers
  import opened Paths
  import opened TemplateFormat

  /** The fixed middle of every template: page number, then page total. */
  const PageFields: string := "-pdf-page{0}_from_{1}."

  /** `get_output_pdf_image_names` as the source writes it: the stem of the
      file name and the image format are pasted into the template unescaped. */
  function OutputTemplateAsWritten(path: string, imageFormat: string): string
  {
    Stem(FileName(path)) + PageFields + imageFormat
  }

  /** The template with the braces of the stem and of the image format
      doubled, so that `format` prints them literally. */
  function OutputTemplate(path: string, imageFormat: string): string
  {
    Escape(Stem(FileName(path))) + PageFields + Escape(imageFormat)
  }

  /** The name a page is meant to get: `<stem>-pdf-page<page>_from_<total>.<format>`. */
  function PageFileName(path: string, imageFormat: string, page: nat, total: nat): string
  {
    Stem(FileName(path)) + "-pdf-page" + Decimal(page) + "_from_" + Decimal(total) + "." + imageFormat
  }

  /** Formatting the template always succeeds and gives the intended name. */
  lemma OutputTemplateFormats(path: string, imageFormat: string, page: nat, total: nat)
    ensures Format(OutputTemplate(path, imageFormat), Decimal(page), Decimal(total))
            == Some(PageFileName(path, imageFormat, page, total))
  {
    var stem, a0, a1 := Stem(FileName(path)), Decimal(page), Decimal(total);
    TemplateLiteral(a0, a1);
    var middle := "-pdf-page" + a0 + "_from_" + a1 + ".";
    EscapedAround(stem, imageFormat, PageFields, middle, a0, a1);
    Associate(stem, a0, a1, imageFormat);
  }

  lemma Associate(stem: string, a0: string, a1: string, imageFormat: string)
    ensures stem + ("-pdf-page" + a0 + "_from_" + a1 + ".") + imageFormat
         == stem + "-pdf-page" + a0 + "_from_" + a1 + "." + imageFormat
  {
  }

  /** Escaped text on both sides of a template that formats to `middle`. */
  lemma EscapedAround(stem: string, imageFormat: string, m: string, middle: string, a0: string, a1: string)
    requires Format(m, a0, a1) == Some(middle)
    ensures Format(Escape(stem) + m + Escape(imageFormat), a0, a1) == Some(stem + middle + imageFormat)
  {
    EscapedAlone(stem, a0, a1);
    EscapedAlone(imageFormat, a0, a1);
    ConcatThree(Escape(stem), m, Escape(imageFormat), stem, middle, imageFormat, a0, a1);
  }

  /** An escaped string on its own formats to itself. */
  lemma EscapedAlone(s: string, a0: string, a1: string)
    ensures Format(Escape(s), a0, a1) == Some(s)
  {
    EscapeIsLiteral(s, "", a0, a1);
    assert Escape(s) + "" == Escape(s);
    assert s + "" == s;
  }

  /** The fixed middle of the template substitutes the page and the total. */
  lemma TemplateLiteral(a0: string, a1: string)
    ensures Format(PageFields, a0, a1) == Some("-pdf-page" + a0 + "_from_" + a1 + ".")
  {
    PageFieldsPieces();
    PlainPieces();
    TwoFields("-pdf-page", "_from_", ".", a0, a1);
  }

  lemma PlainPieces()
    ensures NoBraces("-pdf-page") && NoBraces("_from_") && NoBraces(".")
  {
  }

  lemma PageFieldsPieces()
    ensures PageFields == "-pdf-page" + "{0}" + "_from_" + "{1}" + "."
  {
  }

  /** Without braces in the stem and the image format, the template as
      written is the escaped one. */
  lemma AsWrittenAgreesWithoutBraces(path: string, imageFormat: string)
    requires NoBraces(Stem(FileName(path))) && NoBraces(imageFormat)
    ensures OutputTemplateAsWritten(path, imageFormat) == OutputTemplate(path, imageFormat)
  {
  }

  /** In `a + "_" + x` the character just after `a` is `_`, while inside a
      longer digit string `b` it is a digit. */
  lemma UnderscoreEndsDigitRun(a: string, x: string, b: string, y: string)
    ensures (a + "_" + x)[|a|] == '_'
    ensures |a| < |b| && AllDigits(b) ==> IsDigit((b + "_" + y)[|a|])
  {
  }

  /** A brace in the file name breaks the template as written: for a file
      whose stem is `a{b}` (such as `a{b}.pdf`, see `BraceNameStem`) the call
      `format` raises instead of naming the page. */
  lemma AsWrittenBraceRaises(path: string, imageFormat: string, a0: string, a1: string)
    requires Stem(FileName(path)) == "a{b}"
    ensures Format(OutputTemplateAsWritten(path, imageFormat), a0, a1) == None
  {
    var rest := PageFields + imageFormat;
    Regroup("a", "{b}", rest);
    BraceLetterRaises(rest, a0, a1);
    PlainPrefix();
    PlainIsLiteral("a", "{b}" + rest, a0, a1);
  }

  lemma PlainPrefix()
    ensures NoBraces("a")
  {
  }

  /** `{b}` is not a field of the template: `format` raises on it. */
  lemma BraceLetterRaises(t: string, a0: string, a1: string)
    ensures Format("{b}" + t, a0, a1) == None
  {
    var u := "{b}" + t;
    assert u[0] == '{' && u[1] == 'b';
  }

  /** The stem of `a{b}.pdf` is `a{b}`. */
  lemma BraceNameStem()
    ensures Stem(FileName("a{b}.pdf")) == "a{b}"
  {
    assert Normalize("a{b}.pdf") == "a{b}.pdf";
    SinglePiece("a{b}.pdf", '/');
    assert "a{b}.pdf" == "a{b}" + ['.'] + "pdf";
    PiecesAroundLast("a{b}", "pdf", '.');
  }

  /** A digit string followed by `_` can be read off unambiguously. */
  lemma DigitsBeforeUnderscore(a: string, b: string, x: string, y: string)
    requires AllDigits(a) && AllDigits(b)
    requires a + "_" + x == b + "_" + y
    ensures a == b
  {
    var u, w := a + "_" + x, b + "_" + y;
    if |a| < |b| {
      UnderscoreEndsDigitRun(a, x, b, y);
      assert false;
    } else if |b| < |a| {
      UnderscoreEndsDigitRun(b, y, a, x);
      assert false;
    } else {
      assert a == u[..|a|] && b == w[..|b|];
    }
  }

  /** Different pages get different file names, so no page overwrites
      another. */
  lemma PageFileNamesDistinct(path: string, imageFormat: string, p: nat, q: nat, total: nat)
    requires p != q
    ensures PageFileName(path, imageFormat, p, total) != PageFileName(path, imageFormat, q, total)
  {
    var head := Stem(FileName(path)) + "-pdf-page";
    var rest := "from_" + Decimal(total) + "." + imageFormat;
    PageFileNameShape(path, imageFormat, p, total);
    PageFileNameShape(path, imageFormat, q, total);
    if PageFileName(path, imageFormat, p, total) == PageFileName(path, imageFormat, q, total) {
      CancelPrefix(head, Decimal(p) + "_" + rest, Decimal(q) + "_" + rest);
      DigitsBeforeUnderscore(Decimal(p), Decimal(q), rest, rest);
      DecimalInjective(p, q);
      assert false;
    }
  }

  /** The page number sits between a fixed head and `_` plus a fixed tail. */
  lemma PageFileNameShape(path: string, imageFormat: string, page: nat, total: nat)
    ensures PageFileName(path, imageFormat, page, total)
         == (Stem(FileName(path)) + "-pdf-page")
            + (Decimal(page) + "_" + ("from_" + Decimal(total) + "." + imageFormat))
  {
    assert "_from_" == "_" + "from_";
  }

  lemma CancelPrefix(h: string, u: string, w: string)
    requires h + u == h + w
    ensures u == w
  {
    assert u == (h + u)[|h|..];
    assert w == (h + w)[|h|..];
  }
}
