/** The input check of the convertor: `get_supported_formats` and
    `validate_input_file`. */
module Validation {
  import opened Paths

  /** `str.lower()` on one character, for ASCII letters. */
  function LowerChar(c: char): char
  {
    if 'A' <= c <= 'Z' then (c as int + 32) as char else c
  }

  /** `str.lower()`, ASCII letters only. */
  function Lower(s: string): (r: string)
    ensures |r| == |s|
    ensures forall i :: 0 <= i < |s| ==> r[i] == LowerChar(s[i])
  {
    seq(|s|, i requires 0 <= i < |s| => LowerChar(s[i]))
  }

  /** No upper-case ASCII letter is left, every other character is kept,
      and a string is its own lower case exactly when it has no upper-case
      ASCII letter. */
  lemma LowerCaseOnly(s: string)
    ensures forall i :: 0 <= i < |s| ==> !('A' <= Lower(s)[i] <= 'Z')
    ensures forall i :: 0 <= i < |s| && !('A' <= s[i] <= 'Z') ==> Lower(s)[i] == s[i]
    ensures Lower(s) == s <==> forall i :: 0 <= i < |s| ==> !('A' <= s[i] <= 'Z')
  {
    if Lower(s) == s {
      forall i | 0 <= i < |s| ensures !('A' <= s[i] <= 'Z') {
        assert Lower(s)[i] == s[i];
      }
    }
  }

  /** Lower-casing twice is lower-casing once. */
  lemma LowerIdempotent(s: string)
    ensures Lower(Lower(s)) == Lower(s)
  {
  }

  /** `get_supported_formats`: the configured formats, lower-cased and in
      their order; an empty list stays empty. */
  function SupportedFormats(configured: seq<string>): (r: seq<string>)
    ensures |r| == |configured|
    ensures forall i :: 0 <= i < |r| ==> r[i] == Lower(configured[i])
  {
    if configured == [] then []
    else seq(|configured|, i requires 0 <= i < |configured| => Lower(configured[i]))
  }

  /** A format is supported exactly when it is the lower case of some
      configured format, and every supported format is already lower case. */
  lemma SupportedFormatsIgnoreCase(configured: seq<string>, f: string)
    ensures f in SupportedFormats(configured) <==>
      exists i :: 0 <= i < |configured| && Lower(configured[i]) == f
    ensures f in SupportedFormats(configured) ==> Lower(f) == f
  {
    var r := SupportedFormats(configured);
    if f in r {
      var i :| 0 <= i < |r| && r[i] == f;
      assert Lower(configured[i]) == f;
      LowerIdempotent(configured[i]);
    }
    if exists i :: 0 <= i < |configured| && Lower(configured[i]) == f {
      var i :| 0 <= i < |configured| && Lower(configured[i]) == f;
      assert r[i] == f;
    }
  }

  /** `validate_input_file`: the path names an existing regular file, and
      the text after the last `.` of the whole path, lower-cased, is one of
      the supported formats. */
  predicate IsValidInput(files: set<string>, supported: seq<string>, path: string)
  {
    path in files && Lower(Extension(path)) in supported
  }

  /** An empty format list rejects every path. */
  lemma EmptyFormatListRejectsAll(files: set<string>, path: string)
    ensures !IsValidInput(files, SupportedFormats([]), path)
  {
  }

  /** A path is accepted exactly when it is an existing file whose
      extension matches a configured format without regard to case. */
  lemma ValidExactlyWhenFormatMatches(files: set<string>, configured: seq<string>, path: string)
    ensures IsValidInput(files, SupportedFormats(configured), path) <==>
      path in files && exists i :: 0 <= i < |configured| && Lower(configured[i]) == Lower(Extension(path))
  {
    var supported := SupportedFormats(configured);
    var e := Lower(Extension(path));
    if e in supported {
      var i :| 0 <= i < |supported| && supported[i] == e;
      assert Lower(configured[i]) == e;
    }
    if exists i :: 0 <= i < |configured| && Lower(configured[i]) == e {
      var i :| 0 <= i < |configured| && Lower(configured[i]) == e;
      assert supported[i] == e;
    }
  }

  /** The extension is taken from the whole path, so a path with no `.` is
      its own extension and a `.` in a directory name counts. */
  lemma ExtensionOfWholePath(files: set<string>)
    requires "pdf" in files && "v1.2/report" in files
    ensures IsValidInput(files, SupportedFormats(["PDF"]), "pdf")
    ensures !IsValidInput(files, SupportedFormats(["PDF"]), "v1.2/report")
  {
    ExtensionExamples();
    PdfFormats();
    LowerExamples();
  }

  lemma PdfFormats()
    ensures SupportedFormats(["PDF"]) == ["pdf"]
  {
    assert Lower("PDF") == "pdf";
  }

  lemma LowerExamples()
    ensures Lower("pdf") == "pdf" && Lower("2/report") == "2/report"
  {
  }
}
