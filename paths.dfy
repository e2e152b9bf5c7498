/** File-name handling around the detector: splitting on a separator as
    Python's `str.split` does, the last path segment, POSIX path joining,
    the image-extension filter over a directory walk, and the name under
    which an annotated image is saved. */
module Paths {

  // ---------------------------------------------------------------------
  // Splitting and joining

  /** The pieces of `s` between occurrences of `sep`, as `s.split(sep)`
      returns them: always at least one piece, empty pieces kept. */
  function Split(s: string, sep: char): (parts: seq<string>)
    ensures |parts| >= 1
    ensures forall k :: 0 <= k < |parts| ==> sep !in parts[k]
  {
    if s == [] then [""]
    else
      var rest := Split(s[1..], sep);
      if s[0] == sep then [""] + rest else [[s[0]] + rest[0]] + rest[1..]
  }

  /** The pieces glued back with `sep` between neighbours, as `sep.join`. */
  function Join(parts: seq<string>, sep: char): string {
    if parts == [] then ""
    else if |parts| == 1 then parts[0]
    else parts[0] + [sep] + Join(parts[1..], sep)
  }

  function Last<T>(s: seq<T>): T
    requires |s| >= 1
  {
    s[|s| - 1]
  }

  /** Joining the pieces gives back the string. */
  lemma {:induction false} SplitJoin(s: string, sep: char)
    ensures Join(Split(s, sep), sep) == s
  {
    if s != [] {
      var rest := Split(s[1..], sep);
      SplitJoin(s[1..], sep);
      if s[0] == sep {
        assert ([""] + rest)[1..] == rest;
      } else {
        var parts := [[s[0]] + rest[0]] + rest[1..];
        if |rest| == 1 {
          assert parts == [[s[0]] + rest[0]];
        } else {
          assert parts[1..] == rest[1..];
          assert Join(rest, sep) == rest[0] + [sep] + Join(rest[1..], sep);
        }
      }
    }
  }

  /** A string without the separator is one piece. */
  lemma {:induction false} SplitNoSep(t: string, sep: char)
    requires sep !in t
    ensures Split(t, sep) == [t]
  {
    if t != [] {
      SplitNoSep(t[1..], sep);
      assert [t[0]] + t[1..] == t;
    }
  }

  /** Splitting at a separator splits the two sides independently. */
  lemma {:induction false} SplitConcat(p: string, t: string, sep: char)
    ensures Split(p + [sep] + t, sep) == Split(p, sep) + Split(t, sep)
  {
    var s := p + [sep] + t;
    if p == [] {
      assert s[0] == sep && s[1..] == t;
    } else {
      assert s[0] == p[0] && s[1..] == p[1..] + [sep] + t;
      SplitConcat(p[1..], t, sep);
      var rest, tail := Split(p[1..], sep), Split(t, sep);
      var whole := Split(s[1..], sep);
      assert whole == rest + tail;
      if p[0] != sep {
        ConsPiece(p[0], rest, tail);
      }
    }
  }

  /** Extending the first piece commutes with appending more pieces. */
  lemma ConsPiece(c: char, rest: seq<string>, tail: seq<string>)
    requires |rest| >= 1
    ensures [[c] + (rest + tail)[0]] + (rest + tail)[1..] == ([[c] + rest[0]] + rest[1..]) + tail
  {
    assert (rest + tail)[0] == rest[0];
    assert (rest + tail)[1..] == rest[1..] + tail;
  }

  /** Separator-free pieces survive a join and a split. */
  lemma {:induction false} JoinSplit(parts: seq<string>, sep: char)
    requires |parts| >= 1 && forall k :: 0 <= k < |parts| ==> sep !in parts[k]
    ensures Split(Join(parts, sep), sep) == parts
  {
    if |parts| == 1 {
      SplitNoSep(parts[0], sep);
    } else {
      JoinSplit(parts[1..], sep);
      SplitNoSep(parts[0], sep);
      SplitConcat(parts[0], Join(parts[1..], sep), sep);
      assert [parts[0]] + parts[1..] == parts;
    }
  }

  /** The last piece is what follows the last separator. */
  lemma {:induction false} JoinLast(parts: seq<string>, sep: char)
    requires |parts| >= 2
    ensures Join(parts, sep) == Join(parts[..|parts| - 1], sep) + [sep] + Last(parts)
  {
    if |parts| > 2 {
      JoinLast(parts[1..], sep);
      assert parts[1..][..|parts| - 2] == parts[..|parts| - 1][1..];
    }
  }

  /** The first piece of `s` is its longest prefix without `sep`. */
  lemma FirstPiece(s: string, sep: char)
    ensures var first := Split(s, sep)[0];
            sep !in first && |first| <= |s| && s[..|first|] == first &&
            (|first| < |s| ==> s[|first|] == sep)
  {
    var parts := Split(s, sep);
    SplitJoin(s, sep);
    if |parts| >= 2 {
      assert s == parts[0] + [sep] + Join(parts[1..], sep);
    }
  }

  /** The last piece of `s` is its longest suffix without `sep`. */
  lemma LastPiece(s: string, sep: char)
    ensures var last := Last(Split(s, sep));
            sep !in last && |last| <= |s| && s[|s| - |last|..] == last &&
            (|last| < |s| ==> s[|s| - |last| - 1] == sep)
  {
    var parts := Split(s, sep);
    SplitJoin(s, sep);
    if |parts| >= 2 {
      JoinLast(parts, sep);
      var init := Join(parts[..|parts| - 1], sep);
      assert s == init + [sep] + Last(parts);
      assert s[|s| - |Last(parts)|..] == Last(parts);
    }
  }

  /** A character absent from `s` is absent from each of its pieces. */
  lemma {:induction false} PiecesAvoid(s: string, sep: char, c: char)
    requires c !in s
    ensures forall k :: 0 <= k < |Split(s, sep)| ==> c !in Split(s, sep)[k]
  {
    if s != [] {
      PiecesAvoid(s[1..], sep, c);
    }
  }

  // ---------------------------------------------------------------------
  // The last path segment

  /** The file name of a path: the text after its last '/'. */
  function GetFilename(path: string): (name: string)
    ensures '/' !in name && |name| <= |path| && path[|path| - |name|..] == name
  {
    LastPiece(path, '/');
    Last(Split(path, '/'))
  }

  /** The file name is a suffix of the path, holds no '/', and is the whole
      path or follows a '/'. */
  lemma FilenameIsLastSegment(path: string)
    ensures var name := GetFilename(path);
            '/' !in name && |name| <= |path| && path[|path| - |name|..] == name &&
            (|name| < |path| ==> path[|path| - |name| - 1] == '/')
  {
    LastPiece(path, '/');
  }

  /** A path without '/' is its own file name. */
  lemma FilenameOfBareName(path: string)
    requires '/' !in path
    ensures GetFilename(path) == path
  {
    SplitNoSep(path, '/');
  }

  /** A path ending in '/' has an empty file name. */
  lemma FilenameOfDirectory(path: string)
    requires |path| > 0 && path[|path| - 1] == '/'
    ensures GetFilename(path) == ""
  {
    var p := path[..|path| - 1];
    assert path == p + ['/'] + "";
    SplitConcat(p, "", '/');
  }

  /** `os.path.join(root, file)` on POSIX: an absolute `file` replaces
      `root`; otherwise a '/' is inserted unless `root` is empty or already
      ends in one. */
  function JoinPath(root: string, file: string): (path: string)
    ensures EndsWith(path, file)
    ensures !(|file| > 0 && file[0] == '/') ==> |root| <= |path| && path[..|root|] == root
  {
    if |file| > 0 && file[0] == '/' then file
    else if root == [] || root[|root| - 1] == '/' then root + file
    else root + "/" + file
  }

  /** The file name of a joined path is the file that was joined. */
  lemma FilenameOfJoin(root: string, file: string)
    requires '/' !in file
    ensures GetFilename(JoinPath(root, file)) == file
  {
    SplitNoSep(file, '/');
    if root == [] {
      assert JoinPath(root, file) == file;
    } else if root[|root| - 1] == '/' {
      var p := root[..|root| - 1];
      assert JoinPath(root, file) == p + ['/'] + file;
      SplitConcat(p, file, '/');
    } else {
      assert JoinPath(root, file) == root + ['/'] + file;
      SplitConcat(root, file, '/');
    }
  }

  // ---------------------------------------------------------------------
  // The image-extension filter

  /** The extensions of the files treated as images. */
  const Extensions: seq<string> := [".png", ".jpg", ".jpeg", ".tiff"]

  predicate EndsWith(s: string, suffix: string) {
    |suffix| <= |s| && s[|s| - |suffix|..] == suffix
  }

  /** `name.endswith(tuple(EXT))`: a case-sensitive match of one extension. */
  predicate IsImageName(name: string) {
    exists k :: 0 <= k < |Extensions| && EndsWith(name, Extensions[k])
  }

  /** Every extension ends in 'g' or 'f', so a name ending in anything
      else is rejected. */
  lemma RejectedByLastChar(name: string)
    requires |name| > 0 && name[|name| - 1] != 'g' && name[|name| - 1] != 'f'
    ensures !IsImageName(name)
  {
    forall k | 0 <= k < |Extensions|
      ensures !EndsWith(name, Extensions[k])
    {
      var e := Extensions[k];
      assert e[|e| - 1] == 'g' || e[|e| - 1] == 'f';
      if |e| <= |name| {
        assert name[|name| - |e|..][|e| - 1] == name[|name| - 1];
      }
    }
  }

  /** Every extension is at least four characters long. */
  lemma RejectedShort(name: string)
    requires |name| < 4
    ensures !IsImageName(name)
  {
  }

  lemma ImageNameExamples()
    ensures IsImageName("x.png") && IsImageName("leaf.jpeg") && IsImageName("a.b.tiff")
    ensures !IsImageName("x.PNG") && !IsImageName("x.txt") && !IsImageName("png")
  {
    assert EndsWith("x.png", Extensions[0]);
    assert EndsWith("leaf.jpeg", Extensions[2]);
    assert EndsWith("a.b.tiff", Extensions[3]);
    RejectedByLastChar("x.PNG");
    RejectedByLastChar("x.txt");
    RejectedShort("png");
  }

  /** One directory visited by the walk: its path and the names of the
      files directly in it. */
  datatype Dir = Dir(root: string, files: seq<string>)

  /** The joined paths of the image files of one directory, in order. */
  function ImagesIn(root: string, files: seq<string>): seq<string> {
    if files == [] then []
    else
      var f := Last(files);
      ImagesIn(root, files[..|files| - 1]) + (if IsImageName(f) then [JoinPath(root, f)] else [])
  }

  /** The joined paths of the image files of every directory, in walk order. */
  function ImagesOf(walk: seq<Dir>): seq<string> {
    if walk == [] then []
    else ImagesOf(walk[..|walk| - 1]) + ImagesIn(Last(walk).root, Last(walk).files)
  }

  /** The nested loops that collect image paths during the walk. */
  method GetImagesFilenames(walk: seq<Dir>) returns (filesList: seq<string>)
    ensures filesList == ImagesOf(walk)
  {
    filesList := [];
    for i := 0 to |walk|
      invariant filesList == ImagesOf(walk[..i])
    {
      var root, files := walk[i].root, walk[i].files;
      ghost var before := filesList;
      for j := 0 to |files|
        invariant filesList == before + ImagesIn(root, files[..j])
      {
        assert files[..j + 1][..j] == files[..j];
        if IsImageName(files[j]) {
          filesList := filesList + [JoinPath(root, files[j])];
        }
      }
      assert files[..|files|] == files;
      assert walk[..i + 1][..i] == walk[..i];
    }
    assert walk[..|walk|] == walk;
  }

  /** Every path collected from a directory joins it with one of its image
      files. */
  lemma {:induction false} ImagesInSource(root: string, files: seq<string>, p: string) returns (j: int)
    requires p in ImagesIn(root, files)
    ensures 0 <= j < |files| && IsImageName(files[j]) && p == JoinPath(root, files[j])
  {
    var init := files[..|files| - 1];
    if p in ImagesIn(root, init) {
      j := ImagesInSource(root, init, p);
      assert files[j] == init[j];
    } else {
      j := |files| - 1;
    }
  }

  /** Every image file of a directory is collected, joined with it. */
  lemma {:induction false} ImagesInHas(root: string, files: seq<string>, j: int)
    requires 0 <= j < |files| && IsImageName(files[j])
    ensures JoinPath(root, files[j]) in ImagesIn(root, files)
  {
    var init := files[..|files| - 1];
    if j < |files| - 1 {
      assert files[j] == init[j];
      ImagesInHas(root, init, j);
    }
  }

  /** Collecting from two runs of the walk concatenates, so the result keeps
      the walk order. */
  lemma {:induction false} ImagesOfAppend(a: seq<Dir>, b: seq<Dir>)
    ensures ImagesOf(a + b) == ImagesOf(a) + ImagesOf(b)
  {
    if b == [] {
      assert a + b == a;
    } else {
      assert (a + b)[..|a + b| - 1] == a + b[..|b| - 1];
      ImagesOfAppend(a, b[..|b| - 1]);
    }
  }

  /** Every collected path names an image file: when the walk's file names
      hold no '/', the file name of each collected path is one of them and
      passes the extension test. */
  lemma {:induction false} CollectedAreImages(walk: seq<Dir>)
    requires forall i, j :: 0 <= i < |walk| && 0 <= j < |walk[i].files| ==> '/' !in walk[i].files[j]
    ensures forall p :: p in ImagesOf(walk) ==> IsImageName(GetFilename(p))
  {
    if walk != [] {
      var init := walk[..|walk| - 1];
      CollectedAreImages(init);
      var d := Last(walk);
      forall p | p in ImagesIn(d.root, d.files)
        ensures IsImageName(GetFilename(p))
      {
        var j := ImagesInSource(d.root, d.files, p);
        FilenameOfJoin(d.root, d.files[j]);
      }
    }
  }

  // ---------------------------------------------------------------------
  // The output name

  /** The name for the annotated copy of `inputName`: the text before the
      first '.', then "_with_bb.", then the text after the last '.'. */
  function NewName(inputName: string): (name: string)
    ensures '/' !in inputName ==> '/' !in name
  {
    SlashFreePieces(inputName);
    Split(inputName, '.')[0] + "_with_bb." + Last(Split(inputName, '.'))
  }

  lemma SlashFreePieces(s: string)
    ensures '/' !in s ==> forall k :: 0 <= k < |Split(s, '.')| ==> '/' !in Split(s, '.')[k]
  {
    if '/' !in s {
      PiecesAvoid(s, '.', '/');
    }
  }

  /** The stem is the longest dot-free prefix and the extension the
      longest dot-free suffix. */
  lemma NewNameParts(name: string) returns (stem: string, ext: string)
    ensures NewName(name) == stem + "_with_bb." + ext
    ensures '.' !in stem && |stem| <= |name| && name[..|stem|] == stem
    ensures |stem| < |name| ==> name[|stem|] == '.'
    ensures '.' !in ext && |ext| <= |name| && name[|name| - |ext|..] == ext
    ensures |ext| < |name| ==> name[|name| - |ext| - 1] == '.'
  {
    stem, ext := Split(name, '.')[0], Last(Split(name, '.'));
    FirstPiece(name, '.');
    LastPiece(name, '.');
  }

  /** One dot: "s.e" becomes "s_with_bb.e". */
  lemma NewNameOneDot(s: string, e: string)
    requires '.' !in s && '.' !in e
    ensures NewName(s + "." + e) == s + "_with_bb." + e
  {
    SplitConcat(s, e, '.');
    SplitNoSep(s, '.');
    SplitNoSep(e, '.');
  }

  /** Several dots: everything between the first and the last is dropped. */
  lemma NewNameManyDots(s: string, middle: string, e: string)
    requires '.' !in s && '.' !in e
    ensures NewName(s + "." + middle + "." + e) == s + "_with_bb." + e
  {
    assert s + "." + middle + "." + e == s + ['.'] + (middle + ['.'] + e);
    SplitConcat(s, middle + ['.'] + e, '.');
    SplitConcat(middle, e, '.');
    SplitNoSep(s, '.');
    SplitNoSep(e, '.');
  }

  /** No dot: the whole name serves as both stem and extension. */
  lemma NewNameNoDot(s: string)
    requires '.' !in s
    ensures NewName(s) == s + "_with_bb." + s
  {
    SplitNoSep(s, '.');
  }

  lemma NewNameExampleOneDot()
    ensures NewName("s.e") == "s_with_bb.e"
  {
    assert "s.e" == "s" + "." + "e";
    NewNameOneDot("s", "e");
  }

  lemma NewNameExampleTwoDots()
    ensures NewName("a.b.png") == "a_with_bb.png"
  {
    assert "a.b.png" == "a" + "." + "b" + "." + "png";
    NewNameManyDots("a", "b", "png");
    assert "a" + "_with_bb." + "png" == "a_with_bb.png";
  }

  lemma NewNameExampleNoDot()
    ensures NewName("abc") == "abc_with_bb.abc"
  {
    NewNameNoDot("abc");
  }

  /** Because the input is a file name, the new name holds no '/'. */
  lemma NewNameOfFilenameHasNoSlash(path: string)
    ensures '/' !in NewName(GetFilename(path))
  {
    var name := GetFilename(path);
    FilenameIsLastSegment(path);
    PiecesAvoid(name, '.', '/');
  }
}
