/**
 * `isTestFile`: a workspace path is a test file when, with backslashes turned into slashes, it
 * contains `.test.` or `.spec.`, or a `__tests__`, `test` or `tests` directory.
 */
module TestFiles {

  function Slash(c: char): char {
    if c == '\\' then '/' else c
  }

  /** `path.replace(/\\/g, "/")`. */
  function Normalize(path: string): (r: string)
    ensures |r| == |path|
  {
    if path == [] then [] else [Slash(path[0])] + Normalize(path[1..])
  }

  /** Each character is kept, except that a backslash becomes a slash. */
  lemma {:induction false} NormalizeChars(path: string)
    ensures forall k :: 0 <= k < |path| ==> Normalize(path)[k] == Slash(path[k])
  {
    if path != [] {
      NormalizeChars(path[1..]);
      assert forall k :: 1 <= k < |path| ==> Normalize(path)[k] == Normalize(path[1..])[k - 1];
    }
  }

  /** A normalised path has no backslash, and normalising it again changes nothing. */
  lemma {:induction false} NormalizeIdempotent(path: string)
    ensures '\\' !in Normalize(path)
    ensures Normalize(Normalize(path)) == Normalize(path)
  {
    var r := Normalize(path);
    NormalizeChars(path);
    NormalizeChars(r);
    assert forall k :: 0 <= k < |r| ==> r[k] != '\\';
  }

  /** Normalising works character by character. */
  lemma {:induction false} NormalizeAppend(a: string, b: string)
    ensures Normalize(a + b) == Normalize(a) + Normalize(b)
  {
    var l := Normalize(a + b);
    var r := Normalize(a) + Normalize(b);
    NormalizeChars(a + b);
    NormalizeChars(a);
    NormalizeChars(b);
    assert forall k :: 0 <= k < |l| ==> l[k] == r[k];
  }

  /** A path without backslashes is already normalised. */
  lemma {:induction false} NormalizeNoBackslash(s: string)
    requires '\\' !in s
    ensures Normalize(s) == s
  {
    var r := Normalize(s);
    NormalizeChars(s);
    assert forall k :: 0 <= k < |r| ==> r[k] == s[k];
  }

  predicate ContainsAt(s: string, w: string, k: nat) {
    k + |w| <= |s| && s[k..k + |w|] == w
  }

  /** Whether `w` occurs in `s` at `i` or later: the search of a regular expression `test`. */
  function ContainsFrom(s: string, w: string, i: nat): bool
    requires i <= |s|
    decreases |s| - i
  {
    ContainsAt(s, w, i) || (i < |s| && ContainsFrom(s, w, i + 1))
  }

  /** The search finds an occurrence exactly when there is one. */
  lemma {:induction false} ContainsFromExact(s: string, w: string, i: nat)
    requires i <= |s|
    ensures ContainsFrom(s, w, i) <==> exists k :: i <= k && ContainsAt(s, w, k)
    decreases |s| - i
  {
    if i < |s| {
      ContainsFromExact(s, w, i + 1);
      assert forall k :: i <= k && ContainsAt(s, w, k) ==> k == i || i + 1 <= k;
    }
  }

  function Contains(s: string, w: string): bool {
    ContainsFrom(s, w, 0)
  }

  /** `/(\.test\.|\.spec\.)/.test(p) || /\/(__tests__|tests?)\//.test(p)` on the normalised path. */
  function IsTestFile(path: string): bool {
    var p := Normalize(path);
    Contains(p, ".test.") || Contains(p, ".spec.")
    || Contains(p, "/__tests__/") || Contains(p, "/test/") || Contains(p, "/tests/")
  }

  predicate IsMarker(w: string) {
    w == ".test." || w == ".spec." || w == "/__tests__/" || w == "/test/" || w == "/tests/"
  }

  /** One marker anywhere is enough. */
  lemma {:induction false} MarkerMakesTestFile(path: string, w: string, k: nat)
    requires IsMarker(w) && ContainsAt(Normalize(path), w, k)
    ensures IsTestFile(path)
  {
    ContainsFromExact(Normalize(path), w, 0);
  }

  /** A path is a test file exactly when its normalised form contains one of the markers. */
  lemma {:induction false} IsTestFileMarkers(path: string)
    ensures IsTestFile(path) <==> exists w, k :: IsMarker(w) && ContainsAt(Normalize(path), w, k)
  {
    var p := Normalize(path);
    if IsTestFile(path) {
      var w := if Contains(p, ".test.") then ".test."
        else if Contains(p, ".spec.") then ".spec."
        else if Contains(p, "/__tests__/") then "/__tests__/"
        else if Contains(p, "/test/") then "/test/"
        else "/tests/";
      ContainsFromExact(p, w, 0);
      var k :| ContainsAt(p, w, k);
      assert IsMarker(w) && ContainsAt(Normalize(path), w, k);
      assert exists w', k' :: IsMarker(w') && ContainsAt(Normalize(path), w', k');
    } else {
      forall w, k: nat | IsMarker(w) && ContainsAt(p, w, k)
        ensures false
      {
        MarkerMakesTestFile(path, w, k);
      }
    }
  }

  /** The two ways of writing a path agree: backslashes do not matter. */
  lemma {:induction false} IsTestFileNormalized(path: string)
    ensures IsTestFile(Normalize(path)) == IsTestFile(path)
  {
    NormalizeIdempotent(path);
  }

  /** Whatever surrounds a piece of a path, its normalised form is found where the piece was. */
  lemma {:induction false} NormalizeInfix(a: string, v: string, b: string)
    ensures ContainsAt(Normalize(a + v + b), Normalize(v), |a|)
  {
    NormalizeAppend(a + v, b);
    NormalizeAppend(a, v);
  }

  /** Either separator normalises to a slash. */
  lemma SeparatorNormal(sep: char)
    requires sep == '/' || sep == '\\'
    ensures Normalize([sep]) == "/"
  {
    assert [sep][1..] == [];
  }

  lemma DirectoryWords(dir: string)
    requires dir == "__tests__" || dir == "test" || dir == "tests"
    ensures IsMarker("/" + dir + "/") && '\\' !in dir
  {
  }

  /** The directory markers, with either separator, normalise to a marker. */
  lemma DirectoryMarker(dir: string, sep: char)
    requires dir == "__tests__" || dir == "test" || dir == "tests"
    requires sep == '/' || sep == '\\'
    ensures IsMarker(Normalize([sep] + dir + [sep]))
  {
    SeparatorNormal(sep);
    DirectoryWords(dir);
    NormalizeNoBackslash(dir);
    NormalizeAppend([sep] + dir, [sep]);
    NormalizeAppend([sep], dir);
  }

  lemma Regroup(a: string, v1: string, v2: string, v3: string, b: string)
    ensures a + v1 + v2 + v3 + b == a + (v1 + v2 + v3) + b
  {
  }

  /** Any file inside a `__tests__`, `test` or `tests` directory is a test file, whichever
      separator the path uses. */
  lemma {:induction false} TestDirectory(a: string, dir: string, b: string, sep: char)
    requires dir == "__tests__" || dir == "test" || dir == "tests"
    requires sep == '/' || sep == '\\'
    ensures IsTestFile(a + [sep] + dir + [sep] + b)
  {
    var v := [sep] + dir + [sep];
    DirectoryMarker(dir, sep);
    NormalizeInfix(a, v, b);
    Regroup(a, [sep], dir, [sep], b);
    MarkerMakesTestFile(a + v + b, Normalize(v), |a|);
  }

  /** The name markers are markers without a backslash. */
  lemma SuffixMarker(kind: string)
    requires kind == "test" || kind == "spec"
    ensures IsMarker("." + kind + ".") && '\\' !in "." + kind + "."
  {
  }

  /** Any file whose name has a `.test.` or `.spec.` part is a test file. */
  lemma {:induction false} TestSuffix(a: string, kind: string, b: string)
    requires kind == "test" || kind == "spec"
    ensures IsTestFile(a + "." + kind + "." + b)
  {
    var w := "." + kind + ".";
    SuffixMarker(kind);
    NormalizeNoBackslash(w);
    NormalizeInfix(a, w, b);
    Regroup(a, ".", kind, ".", b);
    MarkerMakesTestFile(a + w + b, w, |a|);
  }

  /** Every marker begins with `.` or `/`, so a name with neither (and no backslash) is never a
      test file, whatever words it contains. */
  lemma {:induction false} PlainNameNotTestFile(path: string)
    requires '.' !in path && '/' !in path && '\\' !in path
    ensures !IsTestFile(path)
  {
    NormalizeNoBackslash(path);
    forall w, k: nat | IsMarker(w)
      ensures !ContainsAt(path, w, k)
    {
      if k + |w| <= |path| {
        assert path[k..k + |w|][0] == path[k] != w[0];
      }
    }
    IsTestFileMarkers(path);
  }
}
