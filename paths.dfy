/**
 * The three `os.path` functions the scripts call, with the semantics of
 * Python's `posixpath`: `join`, `dirname` and the extension half of
 * `splitext`. The separator is '/'.
 */
module Paths {
  import opened Strings

  type Path = string

  const Sep: char := '/'
  const ExtSep: char := '.'

  /** Python's `s.rfind(c)`: the index of the last `c` in `s`, or -1. */
  function LastIndexOf(s: string, c: char): (r: int)
    ensures -1 <= r < |s|
  {
    if |s| == 0 then -1
    else if s[|s| - 1] == c then |s| - 1
    else LastIndexOf(s[..|s| - 1], c)
  }

  /** `rfind` finds an occurrence of `c`, and none after it. */
  lemma {:induction false} LastIndexOfSpec(s: string, c: char)
    ensures LastIndexOf(s, c) >= 0 ==> s[LastIndexOf(s, c)] == c
    ensures forall k :: LastIndexOf(s, c) < k < |s| ==> s[k] != c
  {
    if |s| > 0 && s[|s| - 1] != c {
      var init := s[..|s| - 1];
      LastIndexOfSpec(init, c);
      assert forall k :: 0 <= k < |init| ==> init[k] == s[k];
    }
  }

  /** The index of an occurrence of `c` with none after it is what `rfind` returns. */
  lemma LastIndexOfIs(s: string, c: char, i: int)
    requires 0 <= i < |s| && s[i] == c
    requires forall k :: i < k < |s| ==> s[k] != c
    ensures LastIndexOf(s, c) == i
  {
    LastIndexOfSpec(s, c);
  }

  /** With no occurrence of `c`, `rfind` returns -1. */
  lemma LastIndexOfNone(s: string, c: char)
    requires forall k :: 0 <= k < |s| ==> s[k] != c
    ensures LastIndexOf(s, c) == -1
  {
    LastIndexOfSpec(s, c);
  }

  /** Every character of `s` is `c`. */
  predicate AllOf(s: string, c: char)
  {
    s == [] || (s[|s| - 1] == c && AllOf(s[..|s| - 1], c))
  }

  lemma {:induction false} AllOfIff(s: string, c: char)
    ensures AllOf(s, c) <==> forall k :: 0 <= k < |s| ==> s[k] == c
  {
    if s != [] {
      var init := s[..|s| - 1];
      AllOfIff(init, c);
      assert forall k :: 0 <= k < |init| ==> init[k] == s[k];
    }
  }

  predicate AllSeps(s: string)
  {
    AllOf(s, Sep)
  }

  /** `s.rstrip('/')`. */
  function RStripSeps(s: string): string
  {
    if |s| > 0 && s[|s| - 1] == Sep then RStripSeps(s[..|s| - 1]) else s
  }

  /** `os.path.join(a, b)`: an absolute `b` replaces `a`; otherwise one separator is put between them. */
  function Join(a: Path, b: string): Path
  {
    if StartsWith(b, [Sep]) then b
    else if a == [] || EndsWith(a, [Sep]) then a + b
    else a + [Sep] + b
  }

  /** Joining a directory that does not end in a separator with a relative name puts one separator between them. */
  lemma JoinPlain(a: Path, b: string)
    requires a != [] && a[|a| - 1] != Sep
    requires b != [] && b[0] != Sep
    ensures Join(a, b) == a + [Sep] + b
  {
    assert !StartsWith(b, [Sep]) by { assert b[..1] == [b[0]]; }
    assert !EndsWith(a, [Sep]) by { assert a[|a| - 1..] == [a[|a| - 1]]; }
  }

  /** Joining a relative name adds a separator only when the directory is non-empty and does not end in one. */
  lemma JoinRelative(a: Path, b: string)
    requires b != [] && b[0] != Sep
    ensures Join(a, b) == (if a == [] || a[|a| - 1] == Sep then a else a + [Sep]) + b
  {
    assert !StartsWith(b, [Sep]) by { assert b[..1] == [b[0]]; }
    if a != [] {
      assert EndsWith(a, [Sep]) <==> a[|a| - 1] == Sep by { assert a[|a| - 1..] == [a[|a| - 1]]; }
    }
  }

  /** `os.path.dirname(p)`: everything up to the last separator, trailing separators removed unless that leaves nothing. */
  function Dirname(p: Path): Path
  {
    var head := p[..LastIndexOf(p, Sep) + 1];
    if head != [] && !AllSeps(head) then RStripSeps(head) else head
  }

  /**
   * `os.path.splitext(p)[1]`: from the last dot of the final component, provided that
   * dot is preceded in the component by something other than dots; otherwise "".
   */
  function Ext(p: Path): string
  {
    var sepIndex := LastIndexOf(p, Sep);
    var dotIndex := LastIndexOf(p, ExtSep);
    if dotIndex > sepIndex && !AllOf(p[sepIndex + 1..dotIndex], ExtSep)
    then p[dotIndex..]
    else []
  }

  /** The shape of an extension: empty, or one dot followed by anything but dots and separators. */
  predicate IsExtension(e: string)
  {
    e == [] || (e[0] == ExtSep && forall k :: 0 <= k < |e| ==> e[k] != Sep && (k > 0 ==> e[k] != ExtSep))
  }

  /** A stem that can replace a file's name: non-empty, with no dot and no separator. */
  predicate IsPlainStem(s: string)
  {
    s != [] && forall k :: 0 <= k < |s| ==> s[k] != Sep && s[k] != ExtSep
  }

  /** From a dot with no later dot and no later separator, the rest of a path has the shape of an extension. */
  lemma SuffixFromLastDot(p: Path, dotIndex: int)
    requires 0 <= dotIndex < |p| && p[dotIndex] == ExtSep
    requires forall k :: dotIndex < k < |p| ==> p[k] != ExtSep && p[k] != Sep
    ensures IsExtension(p[dotIndex..])
  {
    var e := p[dotIndex..];
    forall k | 0 <= k < |e| ensures e[k] != Sep && (k > 0 ==> e[k] != ExtSep) {
      assert e[k] == p[dotIndex + k];
    }
  }

  /** `splitext` returns a suffix of its argument as the extension, and that suffix has the shape of an extension. */
  lemma ExtIsSuffix(p: Path)
    ensures EndsWith(p, Ext(p))
    ensures IsExtension(Ext(p))
  {
    var sepIndex := LastIndexOf(p, Sep);
    var dotIndex := LastIndexOf(p, ExtSep);
    if dotIndex > sepIndex && !AllOf(p[sepIndex + 1..dotIndex], ExtSep) {
      LastIndexOfSpec(p, Sep);
      LastIndexOfSpec(p, ExtSep);
      SuffixFromLastDot(p, dotIndex);
      assert p[|p| - |p[dotIndex..]|..] == p[dotIndex..];
    } else {
      assert Ext(p) == [];
      assert p[|p|..] == [];
    }
  }

  lemma {:induction false} RStripSepsShape(s: string)
    ensures StartsWith(s, RStripSeps(s))
    ensures !AllSeps(s) ==> RStripSeps(s) != [] && RStripSeps(s)[|RStripSeps(s)| - 1] != Sep
  {
    if |s| > 0 && s[|s| - 1] == Sep {
      RStripSepsShape(s[..|s| - 1]);
      if !AllSeps(s) {
        assert !AllSeps(s[..|s| - 1]);
      }
    }
  }

  /** A directory name is either empty, all separators, or does not end in a separator. */
  predicate IsDirname(d: Path)
  {
    d == [] || AllSeps(d) || d[|d| - 1] != Sep
  }

  /** `dirname` returns a prefix of its argument, of the shape `IsDirname` describes. */
  lemma DirnameIsPrefix(p: Path)
    ensures StartsWith(p, Dirname(p))
    ensures IsDirname(Dirname(p))
  {
    var head := p[..LastIndexOf(p, Sep) + 1];
    RStripSepsShape(head);
  }

  /** A name with no separator, placed after a prefix, adds no separator. */
  lemma NoSepAfter(pre: string, name: string)
    requires forall k :: 0 <= k < |name| ==> name[k] != Sep
    ensures forall k :: |pre| <= k < |pre + name| ==> (pre + name)[k] != Sep
  {
    forall k | |pre| <= k < |pre + name| ensures (pre + name)[k] != Sep {
      assert (pre + name)[k] == name[k - |pre|];
    }
  }

  /** The `dirname` of a path whose last separator ends `pre` is `pre`, stripped of trailing separators unless it is all separators. */
  lemma DirnameAfter(pre: string, name: string)
    requires pre != [] && pre[|pre| - 1] == Sep
    requires forall k :: 0 <= k < |name| ==> name[k] != Sep
    ensures Dirname(pre + name) == if AllSeps(pre) then pre else RStripSeps(pre)
  {
    NoSepAfter(pre, name);
    LastIndexOfIs(pre + name, Sep, |pre| - 1);
    assert (pre + name)[..|pre|] == pre;
  }

  /** Joining a directory name with a plain file name, and taking `dirname` again, gives back the directory. */
  lemma DirnameOfJoin(d: Path, name: string)
    requires IsDirname(d)
    requires name != [] && forall k :: 0 <= k < |name| ==> name[k] != Sep
    ensures Dirname(Join(d, name)) == d
  {
    JoinRelative(d, name);
    if d == [] {
      assert Join(d, name) == name;
      LastIndexOfNone(name, Sep);
      assert name[..0] == [];
    } else if AllSeps(d) {
      assert Join(d, name) == d + name;
      DirnameAfter(d, name);
    } else {
      var head := d + [Sep];
      assert Join(d, name) == head + name;
      DirnameAfter(head, name);
      assert !AllSeps(head) by { assert head[|d| - 1] == d[|d| - 1]; }
      assert head[..|head| - 1] == d;
      assert RStripSeps(head) == RStripSeps(d);
    }
  }

  /** A stem and extension with no separator, after a prefix ending at a separator, leave that separator the last one. */
  lemma LastSepEndsPrefix(pre: Path, name: string)
    requires pre == [] || pre[|pre| - 1] == Sep
    requires forall k :: 0 <= k < |name| ==> name[k] != Sep
    ensures LastIndexOf(pre + name, Sep) == |pre| - 1
  {
    NoSepAfter(pre, name);
    if pre == [] {
      assert pre + name == name;
      LastIndexOfNone(name, Sep);
    } else {
      LastIndexOfIs(pre + name, Sep, |pre| - 1);
    }
  }

  /** With no `c` from index `j` on, `rfind` returns an index before `j`. */
  lemma LastIndexOfBefore(s: string, c: char, j: int)
    requires 0 <= j <= |s|
    requires forall k :: j <= k < |s| ==> s[k] != c
    ensures LastIndexOf(s, c) < j
  {
    LastIndexOfSpec(s, c);
  }

  /** Where the separators and dots of a stem followed by an extension are. */
  lemma StemAndExtChars(stem: string, e: string)
    requires IsPlainStem(stem) && IsExtension(e)
    ensures forall k :: 0 <= k < |stem + e| ==> (stem + e)[k] != Sep
    ensures e == [] ==> forall k :: 0 <= k < |stem + e| ==> (stem + e)[k] != ExtSep
    ensures e != [] ==> (stem + e)[|stem|] == ExtSep
    ensures forall k :: |stem| < k < |stem + e| ==> (stem + e)[k] != ExtSep
    ensures !AllOf(stem, ExtSep)
  {
    var name := stem + e;
    forall k | 0 <= k < |name| ensures name[k] != Sep && (k != |stem| ==> name[k] != ExtSep) {
      if k < |stem| { assert name[k] == stem[k]; } else { assert name[k] == e[k - |stem|]; }
    }
    AllOfIff(stem, ExtSep);
  }

  /** Behind a prefix ending at a separator, a plain stem followed by an extension has that extension. */
  lemma ExtOfStemAndExt(pre: Path, stem: string, e: string)
    requires pre == [] || pre[|pre| - 1] == Sep
    requires IsPlainStem(stem) && IsExtension(e)
    ensures Ext(pre + stem + e) == e
  {
    var name := stem + e;
    var s := pre + name;
    assert pre + stem + e == s;
    StemAndExtChars(stem, e);
    LastSepEndsPrefix(pre, name);
    var i := |pre| + |stem|;
    forall k | i < k < |s| ensures s[k] != ExtSep {
      assert s[k] == name[k - |pre|];
    }
    if e == [] {
      forall k | |pre| <= k < |s| ensures s[k] != ExtSep {
        assert s[k] == name[k - |pre|];
      }
      LastIndexOfBefore(s, ExtSep, |pre|);
    } else {
      assert s[i] == name[|stem|];
      LastIndexOfIs(s, ExtSep, i);
      assert s[|pre|..i] == stem;
      assert s[i..] == e;
    }
  }
}
