/**
  POSIX path-name arithmetic as Python's `posixpath` performs it: `rfind`,
  `basename`, `join` and `splitext`. The tool relies on these for joining a
  directory's listing onto the directory path, for the "." / ".." test of the
  discovery walk, and for the `.pdf` check on the output name.
 */
module PathNames {

  type Path = string

  const Sep: char := '/'
  const ExtSep: char := '.'
  const CurDir: string := "."
  const ParDir: string := ".."

  /** Index of the last `c` in `s`, or -1 when there is none (`str.rfind`). */
  function RFind(s: string, c: char): (i: int)
    ensures -1 <= i < |s|
    ensures 0 <= i ==> s[i] == c
    ensures forall j :: i < j < |s| ==> s[j] != c
  {
    if |s| == 0 then -1
    else if s[|s| - 1] == c then |s| - 1
    else RFind(s[..|s| - 1], c)
  }

  /** The last occurrence is unique: any index that is a `c` with no `c` after it is the answer. */
  lemma RFindIs(s: string, c: char, i: int)
    requires -1 <= i < |s|
    requires 0 <= i ==> s[i] == c
    requires forall j :: i < j < |s| ==> s[j] != c
    ensures RFind(s, c) == i
  {
  }

  /** Appending text without `c` does not move the last `c`. */
  lemma RFindAppend(s: string, t: string, c: char)
    requires c !in t
    ensures RFind(s + t, c) == RFind(s, c)
  {
    var k := RFind(s, c);
    forall j | k < j < |s + t|
      ensures (s + t)[j] != c
    {
      if j >= |s| {
        assert (s + t)[j] == t[j - |s|];
      }
    }
    RFindIs(s + t, c, k);
  }

  /** Every character of `s` is a dot (vacuously so for the empty string). */
  predicate AllDots(s: string)
  {
    forall i :: 0 <= i < |s| ==> s[i] == ExtSep
  }

  /** `os.path.basename`: the text after the last separator. */
  function BaseName(p: Path): (b: string)
    ensures Sep !in b
    ensures |b| <= |p| && b == p[|p| - |b|..]
    ensures |b| < |p| ==> p[|p| - |b| - 1] == Sep
  {
    p[RFind(p, Sep) + 1..]
  }

  /** What a directory listing can return: non-empty, no separator, never "." or "..". */
  predicate ValidName(name: string)
  {
    |name| > 0 && Sep !in name && name != CurDir && name != ParDir
  }

  /** `os.path.join(dir, name)` for two components. */
  function Join(dir: Path, name: string): (p: Path)
    ensures ValidName(name) ==> dir <= p && BaseName(p) == name
  {
    if |name| > 0 && name[0] == Sep then name
    else if |dir| == 0 || dir[|dir| - 1] == Sep then
      JoinedBaseName(dir, name);
      dir + name
    else
      JoinedBaseName(dir + [Sep], name);
      dir + [Sep] + name
  }

  /** A name without separators, appended to text that is empty or ends in one, is the base name. */
  lemma JoinedBaseName(dir: Path, name: string)
    requires |dir| == 0 || dir[|dir| - 1] == Sep
    ensures Sep !in name ==> BaseName(dir + name) == name
  {
    if Sep !in name {
      var p := dir + name;
      assert forall j :: |dir| <= j < |p| ==> p[j] == name[j - |dir|];
      RFindIs(p, Sep, |dir| - 1);
    }
  }

  /** `os.path.splitext`: the extension runs from the last dot of the final
      component, unless that component consists of dots up to that point. */
  function SplitExt(p: Path): (r: (Path, string))
    ensures r.0 + r.1 == p
    ensures r.1 == [] || (r.1[0] == ExtSep && ExtSep !in r.1[1..] && Sep !in r.1)
    ensures r.1 != [] ==> !AllDots(BaseName(r.0))
  {
    var sepIndex := RFind(p, Sep);
    var dotIndex := RFind(p, ExtSep);
    if dotIndex > sepIndex && !AllDots(p[sepIndex + 1..dotIndex]) then
      RFindAppend(p[..dotIndex], p[dotIndex..], Sep);
      assert p[..dotIndex] + p[dotIndex..] == p;
      (p[..dotIndex], p[dotIndex..])
    else
      (p, [])
  }

  function Extension(p: Path): string
  {
    SplitExt(p).1
  }

  /** Independent reading of `splitext`: `p` has extension `e` (a dot followed by
      neither dots nor separators) exactly when `p` is some stem followed by `e`
      and the stem's final component holds a character other than a dot. */
  lemma ExtensionIff(p: Path, e: string)
    requires |e| > 0 && e[0] == ExtSep && ExtSep !in e[1..] && Sep !in e
    ensures Extension(p) == e <==>
              (|e| <= |p| && p[|p| - |e|..] == e && !AllDots(BaseName(p[..|p| - |e|])))
  {
    if |e| <= |p| && p[|p| - |e|..] == e && !AllDots(BaseName(p[..|p| - |e|])) {
      var q := p[..|p| - |e|];
      assert q + e == p;
      ExtensionOfStem(q, e);
    }
  }

  /** A stem whose final component is not all dots, followed by an extension-shaped
      suffix, has that suffix as its extension. */
  lemma ExtensionOfStem(q: Path, e: string)
    requires |e| > 0 && e[0] == ExtSep && ExtSep !in e[1..] && Sep !in e
    requires !AllDots(BaseName(q))
    ensures Extension(q + e) == e
  {
    var p := q + e;
    forall j | |q| < j < |p|
      ensures p[j] != ExtSep
    {
      assert p[j] == e[1..][j - |q| - 1];
    }
    RFindIs(p, ExtSep, |q|);
    RFindAppend(q, e, Sep);
    var sepIndex := RFind(p, Sep);
    assert p[sepIndex + 1..|q|] == BaseName(q);
    assert p[..|q|] == q && p[|q|..] == e;
  }

  /** The output-name test of the tool: `.pdf` is accepted only as a real, lower-case extension. */
  lemma PdfExtensionIff(p: Path)
    ensures Extension(p) == ".pdf" <==>
              (|p| >= 4 && p[|p| - 4..] == ".pdf" && !AllDots(BaseName(p[..|p| - 4])))
  {
    ExtensionIff(p, ".pdf");
  }

}
