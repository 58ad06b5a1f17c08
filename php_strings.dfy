/** The PHP string built-ins the extension rule relies on: `strtolower` and
    `pathinfo($path, PATHINFO_EXTENSION)` (with the `basename` it applies first). */
module PhpStrings {

  /** `strtolower` on one character: ASCII upper-case letters only. */
  function LowerChar(c: char): char {
    if 'A' <= c <= 'Z' then (c as int + 32) as char else c
  }

  /** A character that no letter lower-cases to, such as '.' or '/'. */
  predicate NotALetter(c: char) {
    !('A' <= c <= 'Z') && !('a' <= c <= 'z')
  }

  /** `strtolower`: every character is lower-cased on its own, the length is kept. */
  function Lower(s: string): (r: string)
    ensures |r| == |s|
    ensures forall i :: 0 <= i < |s| ==> r[i] == LowerChar(s[i])
  {
    if s == [] then [] else [LowerChar(s[0])] + Lower(s[1..])
  }

  /** Two strings that `strtolower` maps to the same string. */
  predicate SameUpToCase(a: string, b: string) {
    Lower(a) == Lower(b)
  }

  /** `s` without the run of `c` characters at its end. */
  function TrimTrailing(s: string, c: char): (r: string)
    ensures |r| <= |s| && r == s[..|r|]
  {
    if s != [] && s[|s| - 1] == c then TrimTrailing(s[..|s| - 1], c) else s
  }

  /** The part of `s` after its last `c`, or all of `s` when it has no `c`. */
  function AfterLast(s: string, c: char): (r: string)
    ensures |r| <= |s|
  {
    if s == [] then []
    else if s[|s| - 1] == c then []
    else AfterLast(s[..|s| - 1], c) + [s[|s| - 1]]
  }

  /** PHP's `basename` with '/' as the only separator: the last run of
      characters that are not '/', trailing slashes ignored. */
  function Basename(path: string): (r: string)
    ensures |r| <= |path|
  {
    AfterLast(TrimTrailing(path, '/'), '/')
  }

  /** `pathinfo($path, PATHINFO_EXTENSION)`: the text after the last '.' of the
      basename, or "" when the basename has no '.'. */
  function PathExtension(path: string): (r: string)
    ensures |r| <= |path|
  {
    var b := Basename(path);
    if '.' in b then AfterLast(b, '.') else ""
  }

  /** What `AfterLast` cuts off: a suffix with no `c` in it, which is either
      all of `s` (when `s` has no `c`) or what follows a `c`. */
  lemma {:induction false} AfterLastShape(s: string, c: char)
    ensures c !in AfterLast(s, c)
    ensures |AfterLast(s, c)| <= |s| && AfterLast(s, c) == s[|s| - |AfterLast(s, c)|..]
    ensures |AfterLast(s, c)| < |s| ==> s[|s| - |AfterLast(s, c)| - 1] == c
    ensures |AfterLast(s, c)| < |s| <==> c in s
    decreases |s|
  {
    if s != [] && s[|s| - 1] != c {
      var n := |s| - 1;
      var front := s[..n];
      AfterLastShape(front, c);
      var r := AfterLast(front, c);
      assert AfterLast(s, c) == r + [s[n]];
      assert s == front + [s[n]];
      assert c in s <==> c in front;
    }
  }

  lemma SuffixLacks(s: string, k: nat, c: char)
    requires k <= |s| && c !in s
    ensures c !in s[k..]
  {
  }

  /** The basename has no '/'. */
  /** Trimming removes exactly the run of `c` at the end: what remains does
      not end in `c`, and everything cut off was `c`. */
  lemma {:induction false} TrimTrailingShape(s: string, c: char)
    ensures TrimTrailing(s, c) == [] || TrimTrailing(s, c)[|TrimTrailing(s, c)| - 1] != c
    ensures forall i :: |TrimTrailing(s, c)| <= i < |s| ==> s[i] == c
    decreases |s|
  {
    if s != [] && s[|s| - 1] == c {
      TrimTrailingShape(s[..|s| - 1], c);
    }
  }

  /** The basename is the last path component once trailing slashes are
      stripped: a suffix of the trimmed path with no '/', which is either the
      whole trimmed path or follows a '/'. */
  lemma BasenameShape(path: string)
    ensures '/' !in Basename(path)
    ensures |Basename(path)| <= |TrimTrailing(path, '/')|
    ensures Basename(path) == TrimTrailing(path, '/')[|TrimTrailing(path, '/')| - |Basename(path)|..]
    ensures |Basename(path)| < |TrimTrailing(path, '/')| ==>
              TrimTrailing(path, '/')[|TrimTrailing(path, '/')| - |Basename(path)| - 1] == '/'
  {
    AfterLastShape(TrimTrailing(path, '/'), '/');
  }

  /** The extension has neither '.' nor '/'; it is "" when the basename has no
      '.', and otherwise what follows the last '.' of the basename. */
  lemma PathExtensionShape(path: string)
    ensures '.' !in PathExtension(path) && '/' !in PathExtension(path)
    ensures '.' !in Basename(path) ==> PathExtension(path) == ""
    ensures '.' in Basename(path) ==>
              |PathExtension(path)| < |Basename(path)|
              && Basename(path)[|Basename(path)| - |PathExtension(path)| - 1] == '.'
              && Basename(path)[|Basename(path)| - |PathExtension(path)|..] == PathExtension(path)
  {
    var b := Basename(path);
    AfterLastShape(TrimTrailing(path, '/'), '/');
    if '.' in b {
      assert PathExtension(path) == AfterLast(b, '.');
      DotSuffixShape(b);
    } else {
      assert PathExtension(path) == "";
    }
  }

  /** What follows the last '.' of a '/'-free name: a proper suffix after a
      '.', holding neither '.' nor '/'. */
  lemma DotSuffixShape(b: string)
    requires '/' !in b && '.' in b
    ensures '.' !in AfterLast(b, '.') && '/' !in AfterLast(b, '.')
    ensures |AfterLast(b, '.')| < |b| && b[|b| - |AfterLast(b, '.')| - 1] == '.'
    ensures b[|b| - |AfterLast(b, '.')|..] == AfterLast(b, '.')
  {
    AfterLastShape(b, '.');
    SuffixLacks(b, |b| - |AfterLast(b, '.')|, '/');
  }

  lemma {:induction false} AfterLastSplit(front: string, c: char, back: string)
    requires c !in back
    ensures AfterLast(front + [c] + back, c) == back
    decreases |back|
  {
    var s := front + [c] + back;
    if back != [] {
      var n := |back| - 1;
      assert s[..|s| - 1] == front + [c] + back[..n];
      assert back[n] in back;
      assert back[..n] + [back[n]] == back;
      AfterLastSplit(front, c, back[..n]);
    }
  }

  /** Text without `c` appended after the last `c` is carried along unchanged. */
  lemma {:induction false} AfterLastAppend(a: string, b: string, c: char)
    requires c !in b
    ensures AfterLast(a + b, c) == AfterLast(a, c) + b
    decreases |b|
  {
    if b != [] {
      var n := |b| - 1;
      assert (a + b)[..|a + b| - 1] == a + b[..n];
      assert b[n] in b;
      assert b[..n] + [b[n]] == b;
      AfterLastAppend(a, b[..n], c);
    } else {
      assert a + b == a;
    }
  }

  /** Building a name from a stem, which may hold a directory part, and an
      extension, and handing it to `pathinfo` gives the extension back. */
  lemma PathExtensionOfName(stem: string, ext: string)
    requires '/' !in ext && '.' !in ext
    ensures PathExtension(stem + "." + ext) == ext
  {
    var name := stem + "." + ext;
    assert name[|name| - 1] != '/' by {
      if ext != [] {
        assert name[|name| - 1] == ext[|ext| - 1];
        assert ext[|ext| - 1] in ext;
      }
    }
    assert TrimTrailing(name, '/') == name;
    assert '/' !in "." + ext;
    assert name == stem + ("." + ext);
    AfterLastAppend(stem, "." + ext, '/');
    var b := AfterLast(stem, '/');
    assert Basename(name) == b + ['.'] + ext;
    assert (b + ['.'] + ext)[|b|] == '.';
    AfterLastSplit(b, '.', ext);
  }

  lemma LowerAppend(a: string, b: string)
    ensures Lower(a + b) == Lower(a) + Lower(b)
  {
    assert forall i :: 0 <= i < |a + b| ==> Lower(a + b)[i] == (Lower(a) + Lower(b))[i];
  }

  lemma LowerPrefix(s: string, k: nat)
    requires k <= |s|
    ensures Lower(s[..k]) == Lower(s)[..k]
  {
    var a, b := Lower(s[..k]), Lower(s)[..k];
    assert |a| == k == |b|;
    forall i | 0 <= i < k
      ensures a[i] == b[i]
    {
      assert s[..k][i] == s[i];
    }
  }

  /** Lower-casing never creates or removes a character that is not a letter. */
  lemma LowerCharIsNotALetter(x: char, c: char)
    requires NotALetter(c)
    ensures LowerChar(x) == c <==> x == c
  {
  }

  lemma LowerContains(s: string, c: char)
    requires NotALetter(c)
    ensures c in Lower(s) <==> c in s
  {
    if c in s {
      var i :| 0 <= i < |s| && s[i] == c;
      assert Lower(s)[i] == c;
    }
    if c in Lower(s) {
      var i :| 0 <= i < |s| && Lower(s)[i] == c;
      LowerCharIsNotALetter(s[i], c);
    }
  }

  lemma {:induction false} LowerTrimTrailing(s: string, c: char)
    requires NotALetter(c)
    ensures TrimTrailing(Lower(s), c) == Lower(TrimTrailing(s, c))
    decreases |s|
  {
    if s != [] {
      var n := |s| - 1;
      LowerCharIsNotALetter(s[n], c);
      if s[n] == c {
        LowerPrefix(s, n);
        LowerTrimTrailing(s[..n], c);
      }
    }
  }

  lemma {:induction false} LowerAfterLast(s: string, c: char)
    requires NotALetter(c)
    ensures AfterLast(Lower(s), c) == Lower(AfterLast(s, c))
    decreases |s|
  {
    if s != [] {
      var n := |s| - 1;
      LowerCharIsNotALetter(s[n], c);
      if s[n] != c {
        LowerPrefix(s, n);
        LowerAfterLast(s[..n], c);
        LowerAppend(AfterLast(s[..n], c), [s[n]]);
      }
    }
  }

  lemma LowerBasename(path: string)
    ensures Basename(Lower(path)) == Lower(Basename(path))
  {
    LowerTrimTrailing(path, '/');
    LowerAfterLast(TrimTrailing(path, '/'), '/');
  }

  /** Extracting the extension commutes with lower-casing: a name's letter case
      only ever shows up as the same letter case in its extension. */
  lemma LowerPathExtension(path: string)
    ensures PathExtension(Lower(path)) == Lower(PathExtension(path))
  {
    LowerBasename(path);
    var b := Basename(path);
    LowerContains(b, '.');
    if '.' in b {
      LowerAfterLast(b, '.');
    }
  }

  /** Names that agree up to letter case have extensions that agree up to letter case. */
  lemma PathExtensionIgnoresCase(a: string, b: string)
    requires SameUpToCase(a, b)
    ensures SameUpToCase(PathExtension(a), PathExtension(b))
  {
    LowerPathExtension(a);
    LowerPathExtension(b);
  }
}
