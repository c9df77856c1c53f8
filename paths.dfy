/** The part of Rust's `std::path::Path` the program relies on, for Unix paths separated by `/`:
    `parent`, `file_name`, `file_stem` and `join`. */
module Paths {
  import opened Wrappers

  /** The index of the last `c` in `s`. */
  function LastIndexOf(s: string, c: char): (r: Option<nat>)
    ensures r.Some? ==> r.value < |s| && s[r.value] == c && forall k :: r.value < k < |s| ==> s[k] != c
    ensures r.None? ==> c !in s
  {
    if |s| == 0 then None
    else if s[|s| - 1] == c then Some(|s| - 1)
    else LastIndexOf(s[..|s| - 1], c)
  }

  /** The last component of a path. */
  function FileName(p: string): (r: string)
    ensures '/' !in r && |r| <= |p| && r == p[|p| - |r|..]
    ensures |r| < |p| ==> p[|p| - |r| - 1] == '/'
  {
    match LastIndexOf(p, '/')
    case None => p
    case Some(i) => p[i + 1..]
  }

  /** `Path::parent`: the path without its last component; `/` for an entry of the root
      directory, the empty path for a bare file name. */
  function Parent(p: string): string {
    match LastIndexOf(p, '/')
    case None => ""
    case Some(i) => if i == 0 then "/" else p[..i]
  }

  /** A path without `/` has the empty parent; otherwise the path is its parent, a `/` and its
      file name, or the root directory `/` followed by the file name. */
  lemma ParentSplit(p: string)
    ensures '/' !in p ==> Parent(p) == []
    ensures '/' in p ==>
      (|Parent(p)| > 0
       && (p == Parent(p) + "/" + FileName(p) || (Parent(p) == "/" && p == Parent(p) + FileName(p))))
  {
    match LastIndexOf(p, '/')
    case None =>
    case Some(i) =>
      assert p == p[..i] + "/" + p[i + 1..];
  }

  /** Everything up to and including the last `/`: the text that precedes the file name. */
  function DirPrefix(p: string): string {
    match LastIndexOf(p, '/')
    case None => ""
    case Some(i) => p[..i + 1]
  }

  /** `Path::file_stem`: the file name without the text from its last dot on, unless that dot
      is its first character (`.hidden` is its own stem). */
  function FileStem(name: string): (r: string)
    ensures |r| <= |name| && r == name[..|r|]
    ensures r != name ==> 0 < |r| && name[|r|] == '.' && forall k :: |r| < k < |name| ==> name[k] != '.'
    ensures r == name ==> forall k :: 0 < k < |name| ==> name[k] != '.'
  {
    match LastIndexOf(name, '.')
    case Some(j) => if j > 0 then name[..j] else name
    case None => name
  }

  /** `Path::join` on Unix: an absolute name replaces the directory; otherwise a `/` goes in
      between unless the directory is empty or already ends with one. */
  function JoinPath(dir: string, name: string): (r: string)
    ensures |name| > 0 && name[0] == '/' ==> r == name
    ensures !(|name| > 0 && name[0] == '/') ==>
      |dir| + |name| <= |r| <= |dir| + |name| + 1 && r[..|dir|] == dir && r[|r| - |name|..] == name
      && (|dir| > 0 ==> r[|r| - |name| - 1] == '/')
      && (|r| == |dir| + |name| + 1 ==> |dir| > 0 && dir[|dir| - 1] != '/')
  {
    if |name| > 0 && name[0] == '/' then name
    else if |dir| > 0 && dir[|dir| - 1] != '/' then dir + "/" + name
    else dir + name
  }

  /** An extension as the content-type table gives it: a dot followed by at least one
      character, with no further dot and no `/`. */
  predicate IsExtension(e: string) {
    |e| >= 2 && e[0] == '.' && forall k :: 1 <= k < |e| ==> e[k] != '.' && e[k] != '/'
  }

  /** The save paths the model admits: both `parent` and `file_stem` exist, and the path has no
      empty or `.` component that Rust would normalise away. */
  predicate ValidSavePath(p: string) {
    |p| > 0 && p[|p| - 1] != '/' && NoEmptyComponent(p) && NoDotComponent(p)
    && FileName(p) != "." && FileName(p) != ".."
  }

  /** No `//` in the path. */
  predicate NoEmptyComponent(p: string) {
    forall k :: 0 <= k < |p| - 1 ==> !(p[k] == '/' && p[k + 1] == '/')
  }

  /** No `/./` in the path. */
  predicate NoDotComponent(p: string) {
    forall k :: 0 <= k < |p| - 2 ==> !(p[k] == '/' && p[k + 1] == '.' && p[k + 2] == '/')
  }

  lemma SeparatorsPrefix(p: string, j: nat)
    requires j <= |p| && NoEmptyComponent(p) && NoDotComponent(p)
    ensures NoEmptyComponent(p[..j]) && NoDotComponent(p[..j])
  {
    var d := p[..j];
    forall k | 0 <= k < |d| - 1 ensures !(d[k] == '/' && d[k + 1] == '/') {
      assert d[k] == p[k] && d[k + 1] == p[k + 1];
    }
    forall k | 0 <= k < |d| - 2 ensures !(d[k] == '/' && d[k + 1] == '.' && d[k + 2] == '/') {
      assert d[k] == p[k] && d[k + 1] == p[k + 1] && d[k + 2] == p[k + 2];
    }
  }

  /** Text without `/` appended to a path cannot create an empty or `.` component. */
  lemma SeparatorsAppend(d: string, tail: string)
    requires NoEmptyComponent(d) && NoDotComponent(d) && '/' !in tail
    ensures NoEmptyComponent(d + tail) && NoDotComponent(d + tail)
  {
    var r := d + tail;
    forall k | 0 <= k < |r| - 1 ensures !(r[k] == '/' && r[k + 1] == '/') {
      if k + 1 < |d| {
        assert r[k] == d[k] && r[k + 1] == d[k + 1];
      } else {
        assert r[k + 1] == tail[k + 1 - |d|];
      }
    }
    forall k | 0 <= k < |r| - 2 ensures !(r[k] == '/' && r[k + 1] == '.' && r[k + 2] == '/') {
      if k + 2 < |d| {
        assert r[k] == d[k] && r[k + 1] == d[k + 1] && r[k + 2] == d[k + 2];
      } else {
        assert r[k + 2] == tail[k + 2 - |d|];
      }
    }
  }

  /** A name without `/` followed by one `/` has no empty or `.` component. */
  lemma SeparatorAfterName(d: string)
    requires '/' !in d
    ensures NoEmptyComponent(d + "/") && NoDotComponent(d + "/")
  {
    var r := d + "/";
    forall k | 0 <= k < |r| - 1 ensures r[k] != '/' {
      assert r[k] == d[k];
    }
  }

  /** The last `c` is the one with no `c` after it. */
  lemma LastIndexAt(s: string, c: char, i: nat)
    requires i < |s| && s[i] == c && forall k :: i < k < |s| ==> s[k] != c
    ensures LastIndexOf(s, c) == Some(i)
  {
    var j := LastIndexOf(s, c);
    assert j.Some?;
  }

  /** Appending text free of `c` does not move the last `c`. */
  lemma LastIndexAppend(d: string, tail: string, c: char)
    requires c !in tail
    ensures LastIndexOf(d + tail, c) == LastIndexOf(d, c)
  {
    var s := d + tail;
    match LastIndexOf(d, c)
    case None =>
      assert c !in s by {
        forall k | 0 <= k < |s| ensures s[k] != c {
          if k < |d| { assert s[k] == d[k]; } else { assert s[k] == tail[k - |d|]; }
        }
      }
    case Some(i) =>
      forall k | i < k < |s| ensures s[k] != c {
        if k < |d| { assert s[k] == d[k]; } else { assert s[k] == tail[k - |d|]; }
      }
      LastIndexAt(s, c, i);
  }

  /** After a directory part that ends with `/`, the file name lies within what follows. */
  lemma FileNameWithin(d: string, t: string)
    requires |d| > 0 && d[|d| - 1] == '/'
    ensures |FileName(d + t)| <= |t| && FileName(d + t) == t[|t| - |FileName(d + t)|..]
  {
    var s := d + t;
    assert s[|d| - 1] == '/';
    var j := LastIndexOf(s, '/').value;
    assert j >= |d| - 1;
    assert s[j + 1..] == t[j + 1 - |d|..];
  }

  /** A name without `/` after a directory part that ends with `/` is the file name. */
  lemma FileNameAfterSeparator(d: string, t: string)
    requires '/' !in t && (d == [] || d[|d| - 1] == '/')
    ensures FileName(d + t) == t
    ensures d != [] ==> LastIndexOf(d + t, '/') == Some(|d| - 1)
  {
    var s := d + t;
    if d == [] {
      assert s == t;
    } else {
      forall k | |d| - 1 < k < |s| ensures s[k] != '/' {
        assert s[k] == t[k - |d|];
      }
      LastIndexAt(s, '/', |d| - 1);
      assert s[|d|..] == t;
    }
  }

  lemma FileNameSplit(p: string)
    ensures p == DirPrefix(p) + FileName(p)
    ensures '/' !in FileName(p)
    ensures LastIndexOf(DirPrefix(p), '/') == LastIndexOf(p, '/')
  {
    match LastIndexOf(p, '/')
    case None =>
    case Some(i) =>
      assert p == p[..i + 1] + p[i + 1..];
      assert forall k {:trigger p[k]} :: i + 1 <= k < |p| ==> p[k] != '/';
      LastIndexAt(p[..i + 1], '/', i);
  }

  lemma {:induction false} StemIsPrefix(name: string)
    requires |name| > 0
    ensures var stem := FileStem(name); 0 < |stem| <= |name| && stem == name[..|stem|]
  {
  }

  /** A name built as stem plus extension has that stem back. */
  lemma {:induction false} StemOfStemAndExtension(stem: string, ext: string)
    requires |stem| > 0 && IsExtension(ext)
    ensures FileStem(stem + ext) == stem
  {
    var name := stem + ext;
    assert name[|stem|] == '.';
    forall k | |stem| < k < |name| ensures name[k] != '.' {
      assert name[k] == ext[k - |stem|];
    }
    LastIndexAt(name, '.', |stem|);
    assert name[..|stem|] == stem;
  }

  lemma FileNameNonEmpty(p: string)
    requires |p| > 0 && p[|p| - 1] != '/'
    ensures |FileName(p)| > 0
  {
    match LastIndexOf(p, '/')
    case None =>
    case Some(i) =>
      assert i != |p| - 1;
  }

  /** The stem with an extension appended contains no `/` and keeps that stem. */
  lemma TailShape(name: string, ext: string)
    requires |name| > 0 && '/' !in name && IsExtension(ext)
    ensures var tail := FileStem(name) + ext;
      |tail| >= 3 && '/' !in tail && FileStem(tail) == FileStem(name)
  {
    StemIsPrefix(name);
    var stem := FileStem(name);
    var tail := stem + ext;
    forall k | 0 <= k < |tail| ensures tail[k] != '/' {
      if k < |stem| { assert tail[k] == name[k]; } else { assert tail[k] == ext[k - |stem|]; }
    }
    StemOfStemAndExtension(stem, ext);
  }

  /** Joining the parent with a relative name puts the name right after the directory prefix. */
  lemma JoinParent(p: string, tail: string)
    requires ValidSavePath(p) && |tail| > 0 && tail[0] != '/'
    ensures JoinPath(Parent(p), tail) == DirPrefix(p) + tail
  {
    match LastIndexOf(p, '/')
    case None =>
      assert JoinPath("", tail) == tail;
    case Some(i) =>
      if i > 0 {
        assert p[i] == '/' && p[i - 1] != '/';
        assert Parent(p) == p[..i] && p[..i][i - 1] == p[i - 1];
        assert JoinPath(p[..i], tail) == p[..i] + "/" + tail;
        assert p[..i + 1] == p[..i] + "/";
      } else {
        assert Parent(p) == "/" && p[..1] == "/";
        assert JoinPath("/", tail) == "/" + tail;
      }
  }

  /** The rewritten path keeps the separator rules of the original. */
  lemma RewrittenIsValid(p: string, tail: string)
    requires ValidSavePath(p) && |tail| >= 3 && '/' !in tail
    ensures FileName(DirPrefix(p) + tail) == tail
    ensures Parent(DirPrefix(p) + tail) == Parent(p)
    ensures ValidSavePath(DirPrefix(p) + tail)
  {
    FileNameSplit(p);
    var d := DirPrefix(p);
    var r := d + tail;
    LastIndexAppend(d, tail, '/');
    match LastIndexOf(p, '/')
    case None =>
      assert r == tail;
    case Some(i) =>
      assert r[i + 1..] == tail;
      assert r[..i] == p[..i];
    assert d == p[..|d|];
    SeparatorsPrefix(p, |d|);
    SeparatorsAppend(d, tail);
  }

  lemma RewriteFacts(p: string, ext: string)
    requires ValidSavePath(p) && IsExtension(ext)
    ensures var r := JoinPath(Parent(p), FileStem(FileName(p)) + ext);
      r == DirPrefix(p) + (FileStem(FileName(p)) + ext)
      && Parent(r) == Parent(p) && FileName(r) == FileStem(FileName(p)) + ext
      && ValidSavePath(r)
  {
    var tail := FileStem(FileName(p)) + ext;
    FileNameSplit(p);
    FileNameNonEmpty(p);
    TailShape(FileName(p), ext);
    JoinParent(p, tail);
    RewrittenIsValid(p, tail);
  }

  /** `Downloader::new` rewrites the requested save path: same parent directory, same file
      stem, the detected extension in place of the old one. */
  function RewriteSavePath(p: string, ext: string): (r: string)
    requires ValidSavePath(p) && IsExtension(ext)
    ensures r == DirPrefix(p) + (FileStem(FileName(p)) + ext)
    ensures Parent(r) == Parent(p) && FileName(r) == FileStem(FileName(p)) + ext
    ensures ValidSavePath(r)
  {
    RewriteFacts(p, ext);
    JoinPath(Parent(p), FileStem(FileName(p)) + ext)
  }

  /** Rewriting a path that was already rewritten for the same extension changes nothing. */
  lemma RewriteIdempotent(p: string, ext: string)
    requires ValidSavePath(p) && IsExtension(ext)
    ensures RewriteSavePath(RewriteSavePath(p, ext), ext) == RewriteSavePath(p, ext)
  {
    FileNameSplit(p);
    FileNameNonEmpty(p);
    TailShape(FileName(p), ext);
  }

  /** In `d/n`, with no `/` in either part, the only separator is the one in between. */
  lemma OneSeparatorName(d: string, n: string)
    requires '/' !in d && '/' !in n
    ensures LastIndexOf(d + "/" + n, '/') == Some(|d|)
    ensures FileName(d + "/" + n) == n
  {
    var q := d + "/";
    assert q[|q| - 1] == '/';
    FileNameAfterSeparator(q, n);
  }

  /** A path with one separator, between a directory name and a file name, is a valid save
      path. */
  lemma OneSeparatorValid(d: string, n: string)
    requires '/' !in d && '/' !in n && |n| > 0 && n != "." && n != ".."
    ensures ValidSavePath(d + "/" + n)
  {
    OneSeparatorName(d, n);
    SeparatorAfterName(d);
    SeparatorsAppend(d + "/", n);
  }

  /** For `dir/stem.was` the rewrite gives `dir/stem.ext`; with an empty `dir` this is
      `/stem.was` in the root directory becoming `/stem.ext`. */
  lemma RewriteInDirectory(d: string, stem: string, was: string, ext: string)
    requires '/' !in d && '/' !in stem && |stem| > 0 && IsExtension(was) && IsExtension(ext)
    ensures ValidSavePath(d + "/" + (stem + was))
    ensures RewriteSavePath(d + "/" + (stem + was), ext) == d + "/" + (stem + ext)
  {
    var name := stem + was;
    assert '/' !in name by {
      forall k | 0 <= k < |name| ensures name[k] != '/' {
        if k < |stem| { assert name[k] == stem[k]; } else { assert name[k] == was[k - |stem|]; }
      }
    }
    OneSeparatorValid(d, name);
    OneSeparatorName(d, name);
    var p := d + "/" + name;
    assert DirPrefix(p) == d + "/" by {
      assert p[..|d| + 1] == d + "/";
    }
    StemOfStemAndExtension(stem, was);
  }
}
