/**
 * The parts of Node's POSIX `path` module, and of `String.prototype.toLowerCase`,
 * that the custom-docs rules depend on: the final path component, `extname`,
 * `basename` with the extension removed, and `join`.
 *
 * Paths are positions in one string: a component runs from `ComponentStart` to
 * `ComponentEnd`, trailing '/' characters being ignored as Node ignores them.
 */
module NodePath {

  /** Index just past the last character of the path `p[..n]`, skipping trailing '/'. */
  function ComponentEnd(p: string, n: nat): (e: nat)
    requires n <= |p|
    ensures e <= n
    ensures forall i :: e <= i < n ==> p[i] == '/'
    ensures e > 0 ==> p[e - 1] != '/'
  {
    if n > 0 && p[n - 1] == '/' then ComponentEnd(p, n - 1) else n
  }

  /** Index of the first character of the component that ends at `e`. */
  function ComponentStart(p: string, e: nat): (s: nat)
    requires e <= |p|
    ensures s <= e
    ensures forall i :: s <= i < e ==> p[i] != '/'
    ensures s > 0 ==> p[s - 1] == '/'
  {
    if e > 0 && p[e - 1] != '/' then ComponentStart(p, e - 1) else e
  }

  /** Index of the last '.' in `p[lo..hi]`, or -1 when there is none. */
  function LastDot(p: string, lo: nat, hi: nat): (d: int)
    requires lo <= hi <= |p|
    ensures d == -1 || (lo <= d < hi && p[d] == '.')
    ensures forall i :: (if d == -1 then lo else d + 1) <= i < hi ==> p[i] != '.'
  {
    if hi == lo then -1
    else if p[hi - 1] == '.' then hi - 1
    else LastDot(p, lo, hi - 1)
  }

  /** Where the extension of `p` starts; equal to the component's end when it has none. */
  function ExtStart(p: string): nat
  {
    var e := ComponentEnd(p, |p|);
    var s := ComponentStart(p, e);
    var d := LastDot(p, s, e);
    // No dot, a leading dot (".bashrc") and the component ".." give no extension.
    if d <= s || (e - s == 2 && p[s] == '.' && p[s + 1] == '.') then e else d
  }

  /** The component `p[s..e]` is ".." exactly when it has two characters, both dots. */
  lemma DotDotComponent(p: string, s: nat, e: nat)
    requires s <= e <= |p|
    ensures p[s..e] == ".." <==> (e - s == 2 && p[s] == '.' && p[s + 1] == '.')
  {
    if e - s == 2 && p[s] == '.' && p[s + 1] == '.' {
      assert p[s..e] == [p[s], p[s + 1]];
    }
  }

  /** There is no extension exactly when the final component is ".." or has no '.' after its first character. */
  lemma ExtnameAbsent(p: string)
    ensures Extname(p) == ""
            <==> Basename(p) == ".." || forall i :: 0 < i < |Basename(p)| ==> Basename(p)[i] != '.'
  {
    var e := ComponentEnd(p, |p|);
    var s := ComponentStart(p, e);
    var b := p[s..e];
    var d := LastDot(p, s, e);
    assert b == Basename(p);
    assert Extname(p) == p[ExtStart(p)..e];
    DotDotComponent(p, s, e);
    if d > s {
      assert b[d - s] == '.';
    } else {
      forall i | 0 < i < |b|
        ensures b[i] != '.'
      {
        assert b[i] == p[s + i];
      }
    }
  }

  /** `path.basename(p)`: the final component, without trailing separators. */
  function Basename(p: string): (b: string)
    ensures '/' !in b
  {
    var e := ComponentEnd(p, |p|);
    var s := ComponentStart(p, e);
    p[s..e]
  }

  /**
   * The final component is the piece of `p` that follows the last separator
   * before a run of trailing separators; it is empty only when `p` holds
   * nothing but separators.
   */
  lemma BasenameIsLastComponent(p: string)
    ensures Basename(p) == "" ==> forall i :: 0 <= i < |p| ==> p[i] == '/'
    ensures exists s :: 0 <= s <= |p| && (s == 0 || p[s - 1] == '/') && |Basename(p)| <= |p[s..]|
                        && p[s..][..|Basename(p)|] == Basename(p)
                        && forall i :: |Basename(p)| <= i < |p[s..]| ==> p[s..][i] == '/'
  {
    var e := ComponentEnd(p, |p|);
    var s := ComponentStart(p, e);
    assert p[s..][..e - s] == p[s..e];
  }

  /**
   * `path.extname(p)`: from the last '.' of the final component to its end.
   * It is empty, or a '.' followed by dot-free characters, and a non-empty
   * extension always leaves at least one character of the component before it.
   */
  function Extname(p: string): (x: string)
    ensures x == "" || (x[0] == '.' && '.' !in x[1..])
    ensures |x| <= |Basename(p)| && x == Basename(p)[|Basename(p)| - |x|..]
    ensures x != "" ==> |x| < |Basename(p)|
  {
    var e := ComponentEnd(p, |p|);
    var s := ComponentStart(p, e);
    assert ExtStart(p) == e || (s < ExtStart(p) < e && p[ExtStart(p)] == '.');
    assert p[ExtStart(p)..e] == p[s..e][ExtStart(p) - s..];
    p[ExtStart(p)..e]
  }

  /**
   * `path.basename(p, path.extname(p))`. Because the extension is a proper
   * suffix of the final component, Node's suffix match always succeeds and
   * never empties the name, so the result is the component minus its extension.
   */
  function Stem(p: string): (stem: string)
    ensures stem + Extname(p) == Basename(p)
    ensures Extname(p) != "" ==> stem != ""
  {
    var b := Basename(p);
    var x := Extname(p);
    assert b[..|b| - |x|] + x == b;
    b[..|b| - |x|]
  }

  /** `path.join(a, b)`, without Node's normalisation of "." and "..": `a`, one separator, then `b`. */
  function Join(a: string, b: string): string
  {
    a + "/" + b
  }

  lemma JoinInjective(a: string, b: string, c: string)
    ensures Join(a, b) == Join(a, c) <==> b == c
  {
    if Join(a, b) == Join(a, c) {
      assert b == Join(a, b)[|a| + 1..];
      assert c == Join(a, c)[|a| + 1..];
    }
  }

  /** Lower-case one ASCII letter; every other character is unchanged. */
  function LowerChar(c: char): char
  {
    if 'A' <= c <= 'Z' then (c as int + 32) as char else c
  }

  /** `s.toLowerCase()` on ASCII text. */
  function Lower(s: string): (r: string)
    ensures |r| == |s|
    ensures forall i :: 0 <= i < |s| ==> r[i] == LowerChar(s[i])
  {
    seq(|s|, i requires 0 <= i < |s| => LowerChar(s[i]))
  }

  /** `t` is the lower-cased `s`, shown one character at a time. */
  lemma LowerIs(s: string, t: string)
    requires |s| == |t| && forall i :: 0 <= i < |s| ==> LowerChar(s[i]) == t[i]
    ensures Lower(s) == t
  {
  }

  /** Two strings agree up to ASCII case, character by character. */
  predicate SameIgnoringCase(p: string, q: string)
  {
    |p| == |q| && forall i :: 0 <= i < |p| ==> LowerChar(p[i]) == LowerChar(q[i])
  }

  /** Two strings have their '/' and '.' characters at the same positions. */
  predicate SameShape(p: string, q: string)
  {
    |p| == |q| && forall i :: 0 <= i < |p| ==> (p[i] == '/' <==> q[i] == '/') && (p[i] == '.' <==> q[i] == '.')
  }

  lemma {:induction false} ComponentEndShape(p: string, q: string, n: nat)
    requires SameShape(p, q) && n <= |p|
    ensures ComponentEnd(p, n) == ComponentEnd(q, n)
  {
    if n > 0 && p[n - 1] == '/' {
      ComponentEndShape(p, q, n - 1);
    }
  }

  lemma {:induction false} ComponentStartShape(p: string, q: string, e: nat)
    requires SameShape(p, q) && e <= |p|
    ensures ComponentStart(p, e) == ComponentStart(q, e)
  {
    if e > 0 && p[e - 1] != '/' {
      ComponentStartShape(p, q, e - 1);
    }
  }

  lemma {:induction false} LastDotShape(p: string, q: string, lo: nat, hi: nat)
    requires SameShape(p, q) && lo <= hi <= |p|
    ensures LastDot(p, lo, hi) == LastDot(q, lo, hi)
  {
    if hi > lo && p[hi - 1] != '.' {
      LastDotShape(p, q, lo, hi - 1);
    }
  }

  /** Where the extension lies depends only on where the separators and dots are. */
  lemma ExtnameShape(p: string, q: string)
    requires SameShape(p, q)
    ensures ComponentEnd(p, |p|) == ComponentEnd(q, |q|)
    ensures ExtStart(p) == ExtStart(q)
  {
    var e := ComponentEnd(p, |p|);
    ComponentEndShape(p, q, |p|);
    ComponentStartShape(p, q, e);
    LastDotShape(p, q, ComponentStart(p, e), e);
  }

  /**
   * `path.extname(p).toLowerCase()` does not depend on the case of `p`: two
   * paths that agree up to case have extensions that agree up to case.
   */
  lemma ExtnameIgnoresCase(p: string, q: string)
    requires SameIgnoringCase(p, q)
    ensures Lower(Extname(p)) == Lower(Extname(q))
  {
    assert SameShape(p, q) by {
      forall i | 0 <= i < |p|
        ensures (p[i] == '/' <==> q[i] == '/') && (p[i] == '.' <==> q[i] == '.')
      {
        assert LowerChar(p[i]) == LowerChar(q[i]);
      }
    }
    ExtnameShape(p, q);
    var e := ComponentEnd(p, |p|);
    var x, y := Extname(p), Extname(q);
    assert x == p[ExtStart(p)..e] && y == q[ExtStart(p)..e];
    forall i | 0 <= i < |x|
      ensures LowerChar(x[i]) == LowerChar(y[i])
    {
      assert x[i] == p[ExtStart(p) + i] && y[i] == q[ExtStart(p) + i];
    }
  }
  /** A directory (empty, or ending in a separator) followed by a plain name has that name as its final component. */
  lemma BasenameUnderDir(dir: string, name: string)
    requires dir == "" || dir[|dir| - 1] == '/'
    requires name != "" && '/' !in name
    ensures Basename(dir + name) == name
  {
    var p := dir + name;
    assert p[|p| - 1] == name[|name| - 1];
    var e := ComponentEnd(p, |p|);
    assert e == |p|;
    forall i | |dir| <= i < |p|
      ensures p[i] != '/'
    {
      assert p[i] == name[i - |dir|];
    }
    if dir != "" {
      assert p[|dir| - 1] == '/';
    }
    assert ComponentStart(p, e) == |dir|;
    assert p[|dir|..] == name;
  }

  /**
   * A path `dir/stem.ext`, whose extension holds no '.', has extension ".ext"
   * and stem `stem`; the stem must be non-empty (".ext" is a dotfile) and the
   * name must not be "..". The proof uses only the contracts of `Basename` and
   * `Extname`.
   */
  lemma ExtnameOfDottedName(dir: string, stem: string, ext: string)
    requires dir == "" || dir[|dir| - 1] == '/'
    requires '/' !in stem && '/' !in ext && '.' !in ext
    requires stem != "" && stem + "." + ext != ".."
    ensures Extname(dir + stem + "." + ext) == "." + ext
    ensures Stem(dir + stem + "." + ext) == stem
  {
    var name := stem + "." + ext;
    var p := dir + name;
    assert dir + stem + "." + ext == p;
    BasenameUnderDir(dir, name);
    var b := Basename(p);
    assert b == name && b != "..";
    assert 0 < |stem| < |b| && b[|stem|] == '.';
    ExtnameAbsent(p);
    var x := Extname(p);
    assert x != "";
    NameSplitsAtDot(b, stem, ext, Stem(p), x);
  }

  /**
   * A name `stem.ext` with a dot-free `ext` splits at one place only: a stem
   * followed by a suffix that starts with its sole '.' is `stem` and ".ext".
   */
  lemma NameSplitsAtDot(b: string, stem: string, ext: string, t: string, x: string)
    requires b == stem + "." + ext && '.' !in ext
    requires x != "" && x[0] == '.' && '.' !in x[1..]
    requires t + x == b
    ensures t == stem && x == "." + ext
  {
    var k := |t|;
    assert x == b[k..];
    assert b[k] == '.';
    assert b[|stem|] == '.';
    assert forall j :: |stem| < j < |b| ==> b[j] != '.' by {
      forall j | |stem| < j < |b|
        ensures b[j] != '.'
      {
        assert b[j] == ext[j - |stem| - 1];
      }
    }
    assert forall j :: k < j < |b| ==> b[j] != '.' by {
      forall j | k < j < |b|
        ensures b[j] != '.'
      {
        assert b[j] == x[1..][j - k - 1];
      }
    }
    assert k == |stem|;
    assert t == b[..k] == stem;
    assert b[|stem|..] == "." + ext;
  }

  /** A plain name with no '.' after its first character has no extension, wherever it lies. */
  lemma ExtnameOfUndottedName(dir: string, name: string)
    requires dir == "" || dir[|dir| - 1] == '/'
    requires name != "" && '/' !in name && '.' !in name[1..]
    ensures Extname(dir + name) == "" && Stem(dir + name) == name
  {
    BasenameUnderDir(dir, name);
    ExtnameAbsent(dir + name);
    forall i | 0 < i < |name|
      ensures name[i] != '.'
    {
      assert name[i] == name[1..][i - 1];
    }
  }

  /** An ordinary name: the extension is what follows the dot. */
  lemma ExtnameOfPlainName()
    ensures Extname("intro.md") == ".md" && Stem("intro.md") == "intro"
  {
    ExtnameOfDottedName("", "intro", "md");
    assert "" + "intro" + "." + "md" == "intro.md";
  }

  /** A name with several dots: only the last one starts the extension. */
  lemma ExtnameOfManyDots()
    ensures Extname("a.b.c") == ".c" && Stem("a.b.c") == "a.b"
  {
    ExtnameOfDottedName("", "a.b", "c");
    assert "" + "a.b" + "." + "c" == "a.b.c";
  }

  /** A dotfile and a name without a dot have no extension. */
  lemma ExtnameOfDotless()
    ensures Extname(".bashrc") == "" && Extname("README") == ""
  {
    ExtnameOfUndottedName("", ".bashrc");
    ExtnameOfUndottedName("", "README");
    assert "" + ".bashrc" == ".bashrc" && "" + "README" == "README";
  }

  /** The component ".." has no extension, a trailing dot is one, and trailing separators are ignored. */
  lemma ExtnameOfEdgeCases()
    ensures Extname("..") == "" && Extname("a.") == "."
    ensures Extname("docs/a.md/") == ".md" && Stem("docs/a.md/") == "a"
  {
    var p := "docs/a.md/";
    assert ComponentEnd(p, 10) == 9;
    assert ComponentStart(p, 9) == 5;
    assert LastDot(p, 5, 9) == 6;
  }
}
