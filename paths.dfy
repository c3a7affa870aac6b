/** Path handling on '/'-separated paths: Python's `os.path.dirname` and
    `os.path.join` (posixpath), the tool's `completePath`, and the test that
    decides which files of the tree are scanned. */
module Paths {
  import opened Strings

  /** Python's `s.rfind(c)`: the last index of `c`, or -1. */
  function LastIndexOf(s: string, c: char): (i: int)
    ensures -1 <= i < |s|
    decreases |s|
  {
    if |s| == 0 then -1
    else if s[|s| - 1] == c then |s| - 1
    else LastIndexOf(s[..|s| - 1], c)
  }

  /** The index found holds `c`, and no later index does. */
  lemma {:induction false} LastIndexOfShape(s: string, c: char)
    ensures var i := LastIndexOf(s, c);
      (i >= 0 ==> s[i] == c) && forall k :: i < k < |s| ==> s[k] != c
    decreases |s|
  {
    if |s| > 0 && s[|s| - 1] != c {
      var init := s[..|s| - 1];
      LastIndexOfShape(init, c);
      forall k | LastIndexOf(s, c) < k < |s|
        ensures s[k] != c
      {
        if k < |s| - 1 {
          assert s[k] == init[k];
        }
      }
    }
  }

  predicate AllSlashes(s: string) {
    forall k :: 0 <= k < |s| ==> s[k] == '/'
  }

  /** `os.path.dirname`: everything up to the last '/', with the trailing
      slashes removed unless the head consists of slashes only. */
  function Dirname(p: string): string {
    var head := p[..LastIndexOf(p, '/') + 1];
    if head != "" && !AllSlashes(head) then StripRight(head, '/') else head
  }

  /** `os.path.basename`: everything after the last '/'. */
  function Basename(p: string): string {
    p[LastIndexOf(p, '/') + 1..]
  }

  /** `os.path.join(a, b)`: an absolute `b` replaces `a`; otherwise a '/'
      is inserted unless `a` is empty or already ends with one. */
  function Join(a: string, b: string): string {
    if StartsWith(b, "/") then b
    else if a == "" || EndsWith(a, "/") then a + b
    else a + "/" + b
  }

  /** `completePath(base, file)`: `file` resolved against the directory of
      the file `base` (tom.py:66-67). */
  function CompletePath(base: string, file: string): string {
    Join(Dirname(base), file)
  }

  /** A path is its directory, then one or more separating slashes, then its
      last component, which holds no slash; the directory never ends in a
      slash unless it is made of slashes only. */
  lemma DirnameShape(p: string)
    ensures StartsWith(p, Dirname(p))
    ensures EndsWith(p, Basename(p)) && '/' !in Basename(p)
    ensures forall k :: |Dirname(p)| <= k < |p| - |Basename(p)| ==> p[k] == '/'
    ensures Dirname(p) == "" || AllSlashes(Dirname(p)) || Dirname(p)[|Dirname(p)| - 1] != '/'
    ensures Dirname(p) == "" <==> '/' !in p
  {
    var i := LastIndexOf(p, '/') + 1;
    var head := p[..i];
    LastIndexOfShape(p, '/');
    StripRightShape(head, '/');
    assert Basename(p) == p[i..];
    assert '/' in p ==> i > 0 by {
      if '/' in p {
        var k :| 0 <= k < |p| && p[k] == '/';
      }
    }
    if i > 0 {
      assert head[i - 1] == '/';
      assert '/' in p;
    }
    assert StripRight(head, '/') == [] ==> AllSlashes(head);
    forall x | x in Basename(p)
      ensures x != '/'
    {
      var k :| 0 <= k < |Basename(p)| && Basename(p)[k] == x;
      assert p[i + k] == x;
    }
  }

  /** The resolution rule: a relative literal declared in a file that lies in
      a directory is that directory, a slash, and the literal. */
  lemma ResolveRelative(base: string, file: string)
    requires '/' in base && base[0] != '/'
    requires !StartsWith(file, "/")
    ensures Dirname(base) != "" && Dirname(base)[0] == base[0]
    ensures CompletePath(base, file) == Dirname(base) + "/" + file
  {
    DirnameShape(base);
    var d := Dirname(base);
    assert d != "";
    assert d[0] == base[0];
    assert !AllSlashes(d) by {
      assert d[0] != '/';
    }
  }

  /** Every path resolved against a file of the scanned tree (whose paths all
      start with ".") starts with "." too, unless the literal is absolute. */
  lemma ResolvedStaysRelative(base: string, file: string)
    requires StartsWith(base, ".") && '/' in base
    requires !StartsWith(file, "/")
    ensures StartsWith(CompletePath(base, file), ".")
  {
    assert base[0] == '.' by {
      assert base[..1] == ".";
    }
    ResolveRelative(base, file);
    var r := CompletePath(base, file);
    assert r[0] == '.';
  }

  /** An absolute literal is taken as it is. */
  lemma ResolveAbsolute(base: string, file: string)
    requires StartsWith(file, "/")
    ensures CompletePath(base, file) == file
  {
  }

  /** The normalisation done by `build`: `completePath('./', t)` puts "./"
      in front of a relative target. */
  lemma NormalizeRelative(target: string)
    requires !StartsWith(target, "/")
    ensures CompletePath("./", target) == "./" + target
  {
    DirnameOfDot();
    assert !EndsWith(".", "/");
    assert "." + "/" + target == "./" + target;
  }

  lemma DirnameOfDot()
    ensures Dirname("./") == "."
  {
    var head := "./"[..LastIndexOf("./", '/') + 1];
    assert LastIndexOf("./", '/') == 1;
    assert head == "./";
    assert !AllSlashes(head) by {
      assert head[0] != '/';
    }
    assert head[..1] == ".";
    assert StripRight(".", '/') == ".";
    assert StripRight(head, '/') == ".";
  }

  /** What `completePath('./', target)` comes to: an absolute target is
      kept, any other gets "./" in front. */
  function Normalize(target: string): string {
    if StartsWith(target, "/") then target else "./" + target
  }

  lemma NormalizeIsCompletePath(target: string)
    ensures CompletePath("./", target) == Normalize(target)
  {
    if StartsWith(target, "/") {
      ResolveAbsolute("./", target);
    } else {
      NormalizeRelative(target);
    }
  }

  /** The normalisation `build` applies to a target that does not start
      with "." (tom.py:105-106): `completePath('./', target)`. */
  method NormalizeTarget(target: string) returns (t: string)
    ensures t == Normalize(target)
  {
    t := CompletePath("./", target);
    NormalizeIsCompletePath(target);
  }

  const EXTENSIONS: seq<string> := [".c", ".cpp", ".h", ".hpp"]

  predicate IsSourceFile(file: string) {
    exists i :: 0 <= i < |EXTENSIONS| && EndsWith(file, EXTENSIONS[i])
  }

  /** `hasValidExtension` (tom.py:55-64): the loop over the extensions stops
      at the first one the name ends with. */
  method HasValidExtension(file: string) returns (result: bool)
    ensures result <==> exists i :: 0 <= i < |EXTENSIONS| && EndsWith(file, EXTENSIONS[i])
  {
    result := false;
    for i := 0 to |EXTENSIONS|
      invariant !result ==> forall k :: 0 <= k < i ==> !EndsWith(file, EXTENSIONS[k])
      invariant result ==> IsSourceFile(file)
    {
      if EndsWith(file, EXTENSIONS[i]) {
        result := true;
        break;
      }
    }
  }
}
