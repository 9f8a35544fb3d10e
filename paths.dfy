/**
 * The part of Python's `pathlib.PurePosixPath` the core uses, on a path held
 * as its (already normalised) string: the final component `name`, its `suffix`
 * and `stem`, and the two rewrites `with_name` and `with_suffix("")`.
 */
module Paths {
  import opened Results

  /** The two `ValueError`s `with_name` and `with_suffix` raise. */
  datatype PathError = EmptyName | InvalidName(name: string)

  /** The index of the last `c` in `s`, or -1 (Python's `str.rfind`). */
  function LastIndexOf(s: string, c: char): (i: int)
    ensures -1 <= i < |s|
    ensures i >= 0 ==> s[i] == c
    ensures forall j :: i < j < |s| ==> s[j] != c
  {
    if s == [] then -1
    else if s[|s| - 1] == c then |s| - 1
    else LastIndexOf(s[..|s| - 1], c)
  }

  /** The directory part of a path: everything up to and including its last `/`. */
  function Dir(p: string): (d: string)
    ensures |d| <= |p| && d == p[..|d|]
    ensures d == [] || d[|d| - 1] == '/'
    ensures '/' !in p[|d|..]
  {
    p[..LastIndexOf(p, '/') + 1]
  }

  /** `PurePath.name`: the final component, after the last `/`. */
  function Name(p: string): (n: string)
    ensures '/' !in n
  {
    p[LastIndexOf(p, '/') + 1..]
  }

  /** A path is its directory part followed by its name. */
  lemma DirName(p: string)
    ensures Dir(p) + Name(p) == p
    ensures Dir(p) == [] || Dir(p)[|Dir(p)| - 1] == '/'
  {
  }

  /** Putting a name under a directory part gives back both. */
  lemma DirNameOfJoin(d: string, n: string)
    requires d == [] || d[|d| - 1] == '/'
    requires '/' !in n
    ensures Dir(d + n) == d && Name(d + n) == n
  {
    var p := d + n;
    var i := LastIndexOf(p, '/');
    if d != [] {
      assert p[|d| - 1] == '/';
    }
    assert i == |d| - 1;
  }

  /** `PurePath.suffix`: from the last dot of the name, unless that dot is first or last. */
  function Suffix(name: string): (x: string)
    ensures |x| <= |name| && x == name[|name| - |x|..]
    ensures x == "" || (2 <= |x| < |name| && x[0] == '.' && '.' !in x[1..])
  {
    var i := LastIndexOf(name, '.');
    if 0 < i < |name| - 1 then name[i..] else ""
  }

  /** `PurePath.stem`: the name without its suffix. */
  function Stem(name: string): (st: string)
    ensures |st| <= |name| && st == name[..|st|]
    ensures name != "" ==> st != ""
  {
    var i := LastIndexOf(name, '.');
    if 0 < i < |name| - 1 then name[..i] else name
  }

  /** The name splits into stem and suffix; a suffix is a dot and at least one more character, with no other dot. */
  lemma StemSuffix(name: string)
    ensures Stem(name) + Suffix(name) == name
    ensures Suffix(name) == "" || (|Suffix(name)| >= 2 && Suffix(name)[0] == '.' && '.' !in Suffix(name)[1..])
    ensures name != "" ==> Stem(name) != ""
    ensures '/' !in name ==> '/' !in Stem(name)
  {
  }

  /** The last `c` of `s + [c] + t` is the one between them when `t` has none. */
  lemma {:induction false} LastIndexOfBefore(s: string, c: char, t: string)
    requires c !in t
    ensures LastIndexOf(s + [c] + t, c) == |s|
  {
    var p := s + [c] + t;
    if t != [] {
      assert p[..|p| - 1] == s + [c] + t[..|t| - 1];
      LastIndexOfBefore(s, c, t[..|t| - 1]);
    }
  }

  /** A name with a dot after its first character and none later has that dot's tail as suffix. */
  lemma StemOfDotted(stem: string, ext: string)
    requires stem != "" && ext != "" && '.' !in ext
    ensures Stem(stem + "." + ext) == stem && Suffix(stem + "." + ext) == "." + ext
  {
    LastIndexOfBefore(stem, '.', ext);
    assert (stem + "." + ext)[..|stem|] == stem;
  }

  /** A name whose only dot is its first character has no suffix. */
  lemma StemOfDotFile(rest: string)
    requires '.' !in rest
    ensures Stem("." + rest) == "." + rest && Suffix("." + rest) == ""
  {
    LastIndexOfBefore("", '.', rest);
    assert "" + "." + rest == "." + rest;
  }

  /** A name `with_name` accepts. */
  predicate ValidName(n: string) {
    n != "" && '/' !in n && n != "."
  }

  /** `PurePath.with_name(newName)`: the same directory, another final component. */
  function WithName(p: string, newName: string): (r: Result<string, PathError>)
    ensures r.Ok? <==> Name(p) != "" && ValidName(newName)
    ensures r.Ok? ==> Dir(r.value) == Dir(p) && Name(r.value) == newName
  {
    if Name(p) == "" then Err(EmptyName)
    else if !ValidName(newName) then Err(InvalidName(newName))
    else
      DirName(p);
      DirNameOfJoin(Dir(p), newName);
      Ok(Dir(p) + newName)
  }

  /** `PurePath.with_suffix("")`: the same directory, the name cut to its stem. */
  function WithoutSuffix(p: string): (r: Result<string, PathError>)
    ensures r.Ok? <==> Name(p) != ""
    ensures r.Ok? ==> Dir(r.value) == Dir(p) && Name(r.value) == Stem(Name(p))
  {
    if Name(p) == "" then Err(EmptyName)
    else
      DirName(p);
      StemSuffix(Name(p));
      DirNameOfJoin(Dir(p), Stem(Name(p)));
      Ok(Dir(p) + Stem(Name(p)))
  }
}
