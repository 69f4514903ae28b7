/** The file-name sanitiser of `remove_special_characters_from_filename`:
    every character outside digits, ASCII letters and ASCII punctuation
    becomes `_`. */
module Sanitizer {
  import opened Paths

  /** The ASCII characters from `lo` to `hi` in code-point order. */
  function CharRange(lo: char, hi: char): string
    requires lo <= hi < 128 as char
  {
    seq(hi as int - lo as int + 1, i requires 0 <= i <= hi as int - lo as int => (lo as int + i) as char)
  }

  lemma CharRangeMembers(lo: char, hi: char)
    requires lo <= hi < 128 as char
    ensures forall c :: c in CharRange(lo, hi) <==> lo <= c <= hi
  {
    var r := CharRange(lo, hi);
    forall c | lo <= c <= hi ensures c in r {
      assert r[c as int - lo as int] == c;
    }
  }

  /** `string.digits + string.ascii_lowercase + string.ascii_uppercase +
      string.punctuation`: the ranges below spell out exactly those four
      constants, the punctuation being the four runs of ASCII symbols. */
  const KeptCharacters: string :=
    CharRange('0', '9') + CharRange('a', 'z') + CharRange('A', 'Z')
    + CharRange('!', '/') + CharRange(':', '@') + CharRange('[', '`') + CharRange('{', '~')

  predicate Kept(c: char)
  {
    c in KeptCharacters
  }

  /** The kept characters are exactly the visible ASCII characters, `!`
      through `~`: space, control characters and everything beyond ASCII are
      replaced. */
  lemma KeptIsVisibleAscii(c: char)
    ensures Kept(c) <==> '!' <= c <= '~'
  {
    CharRangeMembers('0', '9');
    CharRangeMembers('a', 'z');
    CharRangeMembers('A', 'Z');
    CharRangeMembers('!', '/');
    CharRangeMembers(':', '@');
    CharRangeMembers('[', '`');
    CharRangeMembers('{', '~');
  }

  /** The name with every character that is not kept replaced by `_`. */
  function Sanitized(name: string): string
  {
    seq(|name|, i requires 0 <= i < |name| => if Kept(name[i]) then name[i] else '_')
  }

  /** Same length; a kept character stays in place; any other becomes `_`;
      the result holds kept characters only. */
  lemma SanitizedShape(name: string)
    ensures |Sanitized(name)| == |name|
    ensures forall i :: 0 <= i < |name| && Kept(name[i]) ==> Sanitized(name)[i] == name[i]
    ensures forall i :: 0 <= i < |name| && !Kept(name[i]) ==> Sanitized(name)[i] == '_'
    ensures forall i :: 0 <= i < |name| ==> Kept(Sanitized(name)[i])
  {
    KeptIsVisibleAscii('_');
  }

  /** Sanitising twice is sanitising once, because `_` is itself kept. */
  lemma SanitizedIdempotent(name: string)
    ensures Sanitized(Sanitized(name)) == Sanitized(name)
  {
    SanitizedShape(name);
    SanitizedShape(Sanitized(name));
  }

  /** A name made of kept characters only is left alone. */
  lemma SanitizedKeepsCleanName(name: string)
    requires forall i :: 0 <= i < |name| ==> Kept(name[i])
    ensures Sanitized(name) == name
  {
  }

  /** A name made of visible ASCII characters only is left alone. */
  lemma VisibleAsciiUnchanged(name: string)
    requires forall i :: 0 <= i < |name| ==> '!' <= name[i] <= '~'
    ensures Sanitized(name) == name
  {
    forall i | 0 <= i < |name| ensures Kept(name[i]) {
      KeptIsVisibleAscii(name[i]);
    }
  }

  /** `s.replace(old, new)` for one-character strings. */
  function Replace(s: string, target: char, replacement: char): (r: string)
    ensures |r| == |s|
    ensures forall i :: 0 <= i < |s| ==> r[i] == if s[i] == target then replacement else s[i]
  {
    seq(|s|, i requires 0 <= i < |s| => if s[i] == target then replacement else s[i])
  }

  /** After `s.replace(target, replacement)` the target no longer occurs
      (unless it is the replacement), every other character of `s` is still
      there, and replacing again changes nothing. */
  lemma ReplaceRemovesTarget(s: string, target: char, replacement: char)
    ensures target != replacement ==> target !in Replace(s, target, replacement)
    ensures forall ch :: ch in s && ch != target ==> ch in Replace(s, target, replacement)
    ensures Replace(Replace(s, target, replacement), target, replacement) == Replace(s, target, replacement)
  {
    var r := Replace(s, target, replacement);
    forall ch | ch in s && ch != target ensures ch in r {
      var i :| 0 <= i < |s| && s[i] == ch;
      assert r[i] == ch;
    }
  }

  /** The loop of the sanitiser: every distinct character of the name is
      visited once, in whatever order `set` yields them, and each one that is
      not kept is replaced everywhere by `_`. The result does not depend on
      the order. */
  method ReplaceUnkeptCharacters(name: string) returns (cleaned: string)
    ensures cleaned == Sanitized(name)
  {
    cleaned := name;
    var pending := set c | c in name;
    KeptIsVisibleAscii('_');
    while pending != {}
      invariant |cleaned| == |name|
      invariant forall i :: 0 <= i < |name| ==>
        cleaned[i] == if name[i] in pending || Kept(name[i]) then name[i] else '_'
      decreases pending
    {
      var c :| c in pending;
      if !Kept(c) {
        cleaned := Replace(cleaned, c, '_');
      }
      pending := pending - {c};
    }
  }

  /** The new path as `remove_special_characters_from_filename` builds it:
      the directory part, `/`, the sanitised file name. */
  function CleanedPathAsWritten(path: string): string
  {
    Directory(path) + "/" + Sanitized(FileName(path))
  }

  /** The new path kept in the directory of the original: no `/` is put in
      front of a path that has no directory part. */
  function CleanedPath(path: string): string
  {
    if '/' in Normalize(path) then Directory(path) + "/" + Sanitized(FileName(path))
    else Sanitized(FileName(path))
  }

  /** As written, a path without a directory part is sent to the root:
      `report.pdf` becomes `/report.pdf`. */
  lemma AsWrittenMovesToRoot(path: string)
    requires '/' !in path && '\\' !in path
    ensures CleanedPathAsWritten(path) == "/" + Sanitized(path)
    ensures CleanedPath(path) == Sanitized(path)
  {
    DirectoryAndFileName(path);
    assert Normalize(path) == path;
  }

  /** `report.pdf` is cleaned to `/report.pdf` as written, one `/` more than
      the corrected path. */
  lemma ReportExample()
    ensures CleanedPathAsWritten("report.pdf") == "/" + CleanedPath("report.pdf")
  {
    AsWrittenMovesToRoot("report.pdf");
  }

  /** Splitting `d + "/" + s`, where `s` has no `/`, gives back `d` and `s`. */
  lemma SplitAtLastSlash(d: string, s: string)
    requires '/' !in s && '\\' !in d && '\\' !in s
    ensures Normalize(d + "/" + s) == d + "/" + s
    ensures Directory(d + "/" + s) == d && FileName(d + "/" + s) == s
  {
    var p := d + "/" + s;
    assert Normalize(p) == p;
    assert p == d + ['/'] + s;
    PiecesAroundLast(d, s, '/');
  }

  /** The sanitised file name carries no separator. */
  lemma SanitizedFileNameHasNoSeparator(path: string)
    ensures '/' !in Sanitized(FileName(path)) && '\\' !in Sanitized(FileName(path))
  {
    var f := FileName(path);
    FileNameHasNoSeparator(path);
    SanitizedShape(f);
    forall i | 0 <= i < |f| ensures Sanitized(f)[i] != '/' && Sanitized(f)[i] != '\\' {
      assert f[i] != '/' && f[i] != '\\';
    }
  }

  /** The directory part carries no backslash. */
  lemma DirectoryHasNoBackslash(path: string)
    ensures '\\' !in Directory(path)
  {
    var n := Normalize(path);
    AllButLastPieceIsPrefix(n, '/');
    var k := LastIndex(n, '/');
    if k >= 0 {
      var d := n[..k];
      forall i | 0 <= i < |d| ensures d[i] != '\\' {
        assert d[i] == n[i];
      }
    }
  }

  /** The cleaned path stays in the directory of the original: it has a
      directory part exactly when the original has one, the same directory
      part, and the sanitised file name. */
  lemma CleanedPathStaysInDirectory(path: string)
    ensures var c := CleanedPath(path);
      && ('/' in Normalize(c) <==> '/' in Normalize(path))
      && Directory(c) == Directory(path)
      && FileName(c) == Sanitized(FileName(path))
  {
    var d, s := Directory(path), Sanitized(FileName(path));
    SanitizedFileNameHasNoSeparator(path);
    DirectoryHasNoBackslash(path);
    DirectoryAndFileName(path);
    if '/' in Normalize(path) {
      SplitAtLastSlash(d, s);
      assert (d + "/" + s)[|d|] == '/';
    } else {
      assert Normalize(s) == s;
      DirectoryAndFileName(s);
    }
  }

  /** Cleaning a cleaned path changes nothing. */
  lemma CleanedPathIdempotent(path: string)
    ensures CleanedPath(CleanedPath(path)) == CleanedPath(path)
  {
    var c := CleanedPath(path);
    CleanedPathStaysInDirectory(path);
    SanitizedIdempotent(FileName(path));
    SanitizedFileNameHasNoSeparator(path);
    DirectoryHasNoBackslash(path);
    DirectoryAndFileName(path);
    if '/' in Normalize(path) {
      SplitAtLastSlash(Directory(path), Sanitized(FileName(path)));
    } else {
      assert Normalize(c) == c;
    }
  }
}
