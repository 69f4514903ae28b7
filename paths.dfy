/** The string and path logic of the converter: Python's `str.split` and
    `str.join` on a one-character separator, backslash normalisation, and the
    path pieces derived from them. */
module Paths {

  /** Index of the last occurrence of `c` in `s`, or -1 when there is none. */
  function LastIndex(s: string, c: char): (r: int)
    ensures -1 <= r < |s|
    ensures r >= 0 ==> s[r] == c
    ensures forall j :: r < j < |s| ==> s[j] != c
    ensures r < 0 <==> c !in s
  {
    LastIndexBelow(s, c, |s|)
  }

  /** Index of the last occurrence of `c` in `s[..n]`, or -1. */
  function LastIndexBelow(s: string, c: char, n: nat): (r: int)
    requires n <= |s|
    ensures -1 <= r < n
    ensures r >= 0 ==> s[r] == c
    ensures forall j :: r < j < n ==> s[j] != c
    ensures r < 0 ==> forall j :: 0 <= j < n ==> s[j] != c
  {
    if n == 0 then -1
    else if s[n - 1] == c then n - 1
    else LastIndexBelow(s, c, n - 1)
  }

  /** `s.split(c)` for a one-character separator, built from the last
      separator backwards: never empty, one piece more than there are
      separators. */
  function Split(s: string, c: char): (r: seq<string>)
    ensures |r| >= 1
    decreases |s|
  {
    var k := LastIndex(s, c);
    if k < 0 then [s] else Split(s[..k], c) + [s[k + 1..]]
  }

  /** `c.join(parts)`. */
  function Join(parts: seq<string>, c: char): string
  {
    if |parts| == 0 then ""
    else if |parts| == 1 then parts[0]
    else Join(parts[..|parts| - 1], c) + [c] + parts[|parts| - 1]
  }

  /** `s.split(c)[-1]`. */
  function LastPiece(s: string, c: char): string
  {
    var parts := Split(s, c);
    parts[|parts| - 1]
  }

  /** `c.join(s.split(c)[:-1])`. */
  function AllButLastPiece(s: string, c: char): string
  {
    var parts := Split(s, c);
    Join(parts[..|parts| - 1], c)
  }

  /** Joining the pieces of a split gives the string back. */
  lemma {:induction false} JoinSplit(s: string, c: char)
    ensures Join(Split(s, c), c) == s
    decreases |s|
  {
    var k := LastIndex(s, c);
    if k >= 0 {
      var init := Split(s[..k], c);
      JoinSplit(s[..k], c);
      var parts := init + [s[k + 1..]];
      assert parts[..|parts| - 1] == init;
      assert Join(parts, c) == Join(init, c) + [c] + s[k + 1..];
      assert s == s[..k] + [c] + s[k + 1..];
    }
  }

  /** The last piece is the text after the last separator (all of `s` when
      there is no separator). */
  lemma LastPieceIsSuffix(s: string, c: char)
    ensures LastPiece(s, c) == s[LastIndex(s, c) + 1..]
  {
  }

  /** The pieces before the last one, rejoined, are the text before the last
      separator, and the empty string when there is no separator. */
  lemma AllButLastPieceIsPrefix(s: string, c: char)
    ensures AllButLastPiece(s, c) == if LastIndex(s, c) < 0 then "" else s[..LastIndex(s, c)]
  {
    var k := LastIndex(s, c);
    if k >= 0 {
      var init := Split(s[..k], c);
      JoinSplit(s[..k], c);
      assert (init + [s[k + 1..]])[..|init|] == init;
    }
  }

  /** `path.replace('\\', '/')`. */
  function Normalize(path: string): (r: string)
    ensures |r| == |path| && '\\' !in r
    ensures forall i :: 0 <= i < |path| && path[i] != '\\' ==> r[i] == path[i]
    ensures forall i :: 0 <= i < |path| && path[i] == '\\' ==> r[i] == '/'
  {
    seq(|path|, i requires 0 <= i < |path| => if path[i] == '\\' then '/' else path[i])
  }

  /** Normalising twice is normalising once, and a path without a
      backslash is already normal. */
  lemma NormalizeIdempotent(path: string)
    ensures Normalize(Normalize(path)) == Normalize(path)
    ensures '\\' !in path ==> Normalize(path) == path
  {
  }

  /** `path.replace('\\', '/').split('/')[-1]`: the file name. */
  function FileName(path: string): string
  {
    LastPiece(Normalize(path), '/')
  }

  /** `'/'.join(path.replace('\\', '/').split('/')[:-1])`: the directory part
      (`get_output_directory`). */
  function Directory(path: string): string
  {
    AllButLastPiece(Normalize(path), '/')
  }

  /** `'.'.join(name.split('.')[:-1])`: a file name without its last suffix,
      empty when the name has no dot. */
  function Stem(name: string): string
  {
    AllButLastPiece(name, '.')
  }

  /** `path.split('.')[-1]`: the text after the last dot of the WHOLE path, or
      the whole path when it has no dot. */
  function Extension(path: string): string
  {
    LastPiece(path, '.')
  }

  /** The file name carries no separator of either kind. */
  lemma FileNameHasNoSeparator(path: string)
    ensures '/' !in FileName(path) && '\\' !in FileName(path)
  {
    var n := Normalize(path);
    LastPieceIsSuffix(n, '/');
    var k := LastIndex(n, '/');
    var name := n[k + 1..];
    forall j | 0 <= j < |name| ensures name[j] != '/' {
      assert name[j] == n[k + 1 + j];
    }
  }

  /** The directory part followed by the file name rebuilds the normalised
      path; `get_output_directory` and the file name split it in two. */
  lemma DirectoryAndFileName(path: string)
    ensures var n := Normalize(path);
      if '/' in n then n == Directory(path) + "/" + FileName(path)
      else Directory(path) == "" && FileName(path) == n
  {
    var n := Normalize(path);
    LastPieceIsSuffix(n, '/');
    AllButLastPieceIsPrefix(n, '/');
    var k := LastIndex(n, '/');
    if '/' in n {
      var i :| 0 <= i < |n| && n[i] == '/';
      assert k >= i;
      assert n == n[..k] + "/" + n[k + 1..];
    }
  }

  /** The last separator of `p + [c] + q`, where `q` holds no separator,
      is the one after `p`. */
  lemma LastIndexAfter(p: string, q: string, c: char)
    requires c !in q
    ensures LastIndex(p + [c] + q, c) == |p|
  {
    var s := p + [c] + q;
    assert s[|p|] == c;
    forall j | |p| < j < |s| ensures s[j] != c {
      assert s[j] == q[j - |p| - 1];
    }
  }

  /** Around the last separator of `p + [c] + q`, where `q` holds no
      separator, the pieces are `p` and `q`. */
  lemma PiecesAroundLast(p: string, q: string, c: char)
    requires c !in q
    ensures LastPiece(p + [c] + q, c) == q
    ensures AllButLastPiece(p + [c] + q, c) == p
  {
    var s := p + [c] + q;
    LastIndexAfter(p, q, c);
    LastPieceIsSuffix(s, c);
    AllButLastPieceIsPrefix(s, c);
    assert s[..|p|] == p && s[|p| + 1..] == q;
  }

  /** A string without the separator is one piece. */
  lemma SinglePiece(s: string, c: char)
    requires c !in s
    ensures LastPiece(s, c) == s && AllButLastPiece(s, c) == ""
  {
  }

  /** `a\b.c.pdf` has the file name `b.c.pdf` and the directory `a`. */
  lemma BackslashPathExample()
    ensures FileName("a\\b.c.pdf") == "b.c.pdf"
    ensures Directory("a\\b.c.pdf") == "a"
  {
    assert Normalize("a\\b.c.pdf") == "a" + ['/'] + "b.c.pdf";
    PiecesAroundLast("a", "b.c.pdf", '/');
  }

  /** The stem of `b.c.pdf` is `b.c`: only the last suffix goes. */
  lemma StemExample()
    ensures Stem("b.c.pdf") == "b.c"
  {
    assert "b.c.pdf" == "b.c" + ['.'] + "pdf";
    PiecesAroundLast("b.c", "pdf", '.');
  }

  /** A path without a dot is its own extension; a dot in a directory name
      makes the extension run across the separator. */
  lemma ExtensionExamples()
    ensures Extension("pdf") == "pdf"
    ensures Extension("v1.2/report") == "2/report"
  {
    SinglePiece("pdf", '.');
    assert "v1.2/report" == "v1" + ['.'] + "2/report";
    PiecesAroundLast("v1", "2/report", '.');
  }
}
