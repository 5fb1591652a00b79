/**
 * Path handling: the extension filter and path building of `select_folder`,
 * and the file name shown in the popup and tooltip (`path.split("/")[-1]`).
 */
module Paths {
  import opened Exif

  /** ASCII lower-casing of one character. */
  function LowerChar(c: char): char
  {
    if 'A' <= c <= 'Z' then (c as int + 32) as char else c
  }

  /** ASCII upper-casing of one character. */
  function UpperChar(c: char): char
  {
    if 'a' <= c <= 'z' then (c as int - 32) as char else c
  }

  /** `s.lower()`, on ASCII letters. */
  function Lower(s: string): string
  {
    seq(|s|, i requires 0 <= i < |s| => LowerChar(s[i]))
  }

  /** `s.upper()`, on ASCII letters. */
  function Upper(s: string): string
  {
    seq(|s|, i requires 0 <= i < |s| => UpperChar(s[i]))
  }

  predicate EndsWith(s: string, suffix: string)
  {
    |suffix| <= |s| && s[|s| - |suffix|..] == suffix
  }

  /** `file.lower().endswith(('.png', '.jpg', '.jpeg'))` */
  predicate IsImageFile(name: string)
  {
    var l := Lower(name);
    EndsWith(l, ".png") || EndsWith(l, ".jpg") || EndsWith(l, ".jpeg")
  }

  /** The filter is case-insensitive: a name is accepted exactly when its
      lower-case and its upper-case spellings are. */
  lemma ImageFileIgnoresCase(name: string)
    ensures IsImageFile(Lower(name)) == IsImageFile(name)
    ensures IsImageFile(Upper(name)) == IsImageFile(name)
  {
    assert Lower(Lower(name)) == Lower(name);
    assert Lower(Upper(name)) == Lower(name) by {
      forall i | 0 <= i < |name| ensures Lower(Upper(name))[i] == Lower(name)[i] {
        var c := name[i];
        assert LowerChar(UpperChar(c)) == LowerChar(c);
      }
    }
  }

  /** Any spelling of an accepted extension passes: upper case. */
  lemma AcceptsUpperCase()
    ensures IsImageFile("A.JPG")
  {
    var l := Lower("A.JPG");
    assert l[0] == 'a' && l[1] == '.' && l[2] == 'j' && l[3] == 'p' && l[4] == 'g';
    assert l[1..] == ".jpg";
  }

  /** Any spelling of an accepted extension passes: mixed case. */
  lemma AcceptsMixedCase()
    ensures IsImageFile("b.JpEg")
  {
    var l := Lower("b.JpEg");
    assert l[1] == '.' && l[2] == 'j' && l[3] == 'p' && l[4] == 'e' && l[5] == 'g';
    assert l[1..] == ".jpeg";
  }

  /** Any spelling of an accepted extension passes: lower case. */
  lemma AcceptsLowerCase()
    ensures IsImageFile("c.png")
  {
    var l := Lower("c.png");
    assert l[1] == '.' && l[2] == 'p' && l[3] == 'n' && l[4] == 'g';
    assert l[1..] == ".png";
  }

  /** Names against the filter: other extensions, a bare "jpg" and an
      extension that is not last are refused. */
  lemma RefusedExamples()
    ensures !IsImageFile("d.txt") && !IsImageFile("jpg") && !IsImageFile("e.jpg.bak")
  {
    assert Lower("d.txt") == "d.txt";
    assert Lower("jpg") == "jpg";
    assert Lower("e.jpg.bak") == "e.jpg.bak";
    assert "e.jpg.bak"[5..] != ".jpeg";
  }

  /** The names `select_folder` keeps, in listing order. */
  function ImageFiles(names: seq<string>): seq<string>
  {
    if names == [] then []
    else (if IsImageFile(names[0]) then [names[0]] else []) + ImageFiles(names[1..])
  }

  /** A name is kept exactly when it is listed and passes the filter. */
  lemma {:induction false} ImageFilesMembers(names: seq<string>)
    ensures forall x :: x in ImageFiles(names) <==> x in names && IsImageFile(x)
  {
    if names != [] {
      ImageFilesMembers(names[1..]);
      assert names == [names[0]] + names[1..];
    }
  }

  /** The filter keeps listing order: filtering a concatenation filters each
      part and concatenates the results. */
  lemma {:induction false} ImageFilesAppend(a: seq<string>, b: seq<string>)
    ensures ImageFiles(a + b) == ImageFiles(a) + ImageFiles(b)
  {
    if a != [] {
      assert (a + b)[1..] == a[1..] + b;
      ImageFilesAppend(a[1..], b);
    } else {
      assert a + b == b;
    }
  }

  /** `[f"{dir_path}/{file}" for file in res]` */
  function ImagePaths(dir: string, files: seq<string>): (paths: seq<string>)
  {
    seq(|files|, i requires 0 <= i < |files| => dir + "/" + files[i])
  }

  /** `select_folder` with the dialog's answer and the directory listing as
      inputs: no path list when the dialog was cancelled (empty answer) or the
      listing failed (the caught exception). */
  function SelectFolder(dir: string, listing: Option<seq<string>>): (r: Option<seq<string>>)
    ensures r.Some? <==> dir != "" && listing.Some?
  {
    if dir == "" then None
    else if listing.None? then None
    else Some(ImagePaths(dir, ImageFiles(listing.value)))
  }

  /** The index of the last "/" in `path`, or -1 when there is none. */
  function LastSlash(path: string): (k: int)
    ensures -1 <= k < |path|
    ensures k >= 0 ==> path[k] == '/'
    ensures forall j :: k < j < |path| ==> path[j] != '/'
  {
    if path == [] then -1
    else if path[|path| - 1] == '/' then |path| - 1
    else LastSlash(path[..|path| - 1])
  }

  /** `path.split("/")[-1]`: the part after the last "/", or the whole path:
      a suffix of the path without "/", preceded by "/" unless it is all of it. */
  function LastSegment(path: string): (r: string)
    ensures |r| <= |path| && r == path[|path| - |r|..]
    ensures '/' !in r
    ensures |r| < |path| ==> path[|path| - |r| - 1] == '/'
  {
    path[LastSlash(path) + 1..]
  }

  /** The name a popup shows is the name the path was built from. */
  lemma LastSegmentOfJoin(dir: string, name: string)
    requires '/' !in name
    ensures LastSegment(dir + "/" + name) == name
  {
    var p := dir + "/" + name;
    var r := LastSegment(p);
    assert p[|dir|] == '/';
    assert |r| == |name|;
  }

  /** Every path `select_folder` returns is `dir + "/" + name` for the
      corresponding kept name, in listing order; its last segment is that
      name (listed names hold no "/") and passes the extension filter. */
  lemma SelectFolderPaths(dir: string, listing: seq<string>)
    requires dir != ""
    requires forall k :: 0 <= k < |listing| ==> '/' !in listing[k]
    ensures var paths := SelectFolder(dir, Some(listing)).value;
      var files := ImageFiles(listing);
      && |paths| == |files|
      && forall i :: 0 <= i < |paths| ==>
           && paths[i] == dir + "/" + files[i]
           && LastSegment(paths[i]) == files[i]
           && IsImageFile(LastSegment(paths[i]))
  {
    var files := ImageFiles(listing);
    ImageFilesMembers(listing);
    forall i | 0 <= i < |files|
      ensures LastSegment(dir + "/" + files[i]) == files[i] && IsImageFile(files[i])
    {
      assert files[i] in files;
      LastSegmentOfJoin(dir, files[i]);
    }
  }
}
