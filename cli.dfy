/** getStem of cli.hpp: the command name is the last component of argv[0], cut at its
    last dot. */
module Cli {
  predicate IsSeparator(c: char)
  {
    c == '/' || c == '\\'
  }

  /** `find_last_of("/\\")`: the last index holding a separator, or -1 for npos. */
  function LastSeparator(s: string): (r: int)
    ensures -1 <= r < |s|
    ensures r >= 0 ==> IsSeparator(s[r])
    ensures forall k :: r < k < |s| ==> !IsSeparator(s[k])
  {
    if s == [] then -1
    else if IsSeparator(s[|s| - 1]) then |s| - 1
    else LastSeparator(s[..|s| - 1])
  }

  /** `find_last_of('.')`: the last index holding a dot, or -1 for npos. */
  function LastDot(s: string): (r: int)
    ensures -1 <= r < |s|
    ensures r >= 0 ==> s[r] == '.'
    ensures forall k :: r < k < |s| ==> s[k] != '.'
  {
    if s == [] then -1
    else if s[|s| - 1] == '.' then |s| - 1
    else LastDot(s[..|s| - 1])
  }

  /** The last path component: the longest suffix of path without a separator. */
  function BaseName(path: string): (file: string)
    ensures |file| <= |path| && file == path[|path| - |file|..]
    ensures forall k :: 0 <= k < |file| ==> !IsSeparator(file[k])
    ensures |file| < |path| ==> IsSeparator(path[|path| - |file| - 1])
  {
    var pos := LastSeparator(path);
    if pos == -1 then path else path[pos + 1..]
  }

  /** What a stem of a file name is: a prefix of it that is the whole name when the name
      has no dot, and otherwise stops at a dot after which no dot follows. */
  ghost predicate IsStem(file: string, stem: string)
  {
    |stem| <= |file| && stem == file[..|stem|] &&
    (|stem| == |file| <==> '.' !in file) &&
    (|stem| < |file| ==> file[|stem|] == '.' && '.' !in file[|stem| + 1..])
  }

  /** getStem: the last component of path with its last extension removed. */
  function GetStem(path: string): (stem: string)
    ensures IsStem(BaseName(path), stem)
    ensures forall k :: 0 <= k < |stem| ==> !IsSeparator(stem[k])
  {
    var file := BaseName(path);
    var dot := LastDot(file);
    if dot == -1 then file else file[..dot]
  }

  /** A file name has exactly one stem, so IsStem pins GetStem down. */
  lemma StemUnique(file: string, a: string, b: string)
    requires IsStem(file, a) && IsStem(file, b)
    ensures a == b
  {
  }

  /** Any stem of the last component is the one getStem returns. */
  lemma GetStemComplete(path: string, stem: string)
    requires IsStem(BaseName(path), stem)
    ensures GetStem(path) == stem
  {
    StemUnique(BaseName(path), GetStem(path), stem);
  }

  /** A path without separators is its own last component. */
  lemma BaseNamePlain(path: string)
    requires forall k :: 0 <= k < |path| ==> !IsSeparator(path[k])
    ensures BaseName(path) == path
  {
  }

  /** Stripping a directory part leaves the stem alone. */
  lemma StemAfterDirectory(dir: string, file: string)
    requires |dir| > 0 && IsSeparator(dir[|dir| - 1])
    requires forall k :: 0 <= k < |file| ==> !IsSeparator(file[k])
    ensures GetStem(dir + file) == GetStem(file)
  {
    var path := dir + file;
    assert path[|dir| - 1] == dir[|dir| - 1];
    assert forall k :: |dir| <= k < |path| ==> path[k] == file[k - |dir|];
    assert path[|dir|..] == file;
    BaseNamePlain(file);
  }

  /** A separator-free name whose stem is known. */
  lemma StemOfName(file: string, stem: string)
    requires forall k :: 0 <= k < |file| ==> !IsSeparator(file[k])
    requires IsStem(file, stem)
    ensures GetStem(file) == stem
  {
    BaseNamePlain(file);
    GetStemComplete(file, stem);
  }

  /** A name without a dot is its own stem ("README", "noextension"). */
  lemma StemWithoutDot(name: string)
    requires forall k :: 0 <= k < |name| ==> !IsSeparator(name[k])
    requires '.' !in name
    ensures GetStem(name) == name
  {
    StemOfName(name, name);
  }

  /** Only the last extension goes ("test.txt", "archive.tar.gz", "file.", ".hidden",
      ".config.json"): name + "." + ext has stem name when ext holds no dot. */
  lemma StemDropsLastExtension(name: string, ext: string)
    requires forall k :: 0 <= k < |name| ==> !IsSeparator(name[k])
    requires forall k :: 0 <= k < |ext| ==> !IsSeparator(ext[k]) && ext[k] != '.'
    ensures GetStem(name + "." + ext) == name
  {
    var file := name + "." + ext;
    assert file[..|name|] == name;
    assert file[|name|] == '.';
    assert file[|name| + 1..] == ext;
    assert forall k :: 0 <= k < |file| ==> !IsSeparator(file[k]) by {
      forall k | 0 <= k < |file| ensures !IsSeparator(file[k]) {
        if k < |name| {
          assert file[k] == name[k];
        } else if k > |name| {
          assert file[k] == ext[k - |name| - 1];
        }
      }
    }
    StemOfName(file, name);
  }
}
