/** The file-type gate of the report tool: the extension `os.path.splitext`
    gives on a POSIX system, lower-cased, must be `.doc` or `.docx`. */
module Paths {
  import opened Text

  /** `s.rfind(c)`: the index of the last `c` in `s`, or -1 when there is none. */
  function LastIndexOf(s: string, c: char): (r: int)
    ensures -1 <= r < |s|
    ensures r >= 0 ==> s[r] == c
    ensures forall k :: r < k < |s| ==> s[k] != c
    ensures r == -1 <==> c !in s
    decreases |s|
  {
    if |s| == 0 then -1
    else if s[|s| - 1] == c then |s| - 1
    else LastIndexOf(s[..|s| - 1], c)
  }

  /** Some index in `[lo, hi)` holds a character other than a dot. */
  predicate HasNonDot(s: string, lo: int, hi: int)
    requires 0 <= lo && hi <= |s|
  {
    exists k :: lo <= k < hi && s[k] != '.'
  }

  /** The loop of `splitext` that skips leading dots of the file name: is
      there a non-dot character in `p[from..dot)`? */
  function SkipsLeadingDots(p: string, from: int, dot: int): (r: bool)
    requires 0 <= from && dot < |p|
    ensures r <==> HasNonDot(p, from, dot)
    decreases dot - from
  {
    if from >= dot then false
    else if p[from] != '.' then true
    else SkipsLeadingDots(p, from + 1, dot)
  }

  /** The extension part of `os.path.splitext(p)` for POSIX paths: from the
      last dot to the end, provided that dot lies in the last path component
      and is not one of the dots the component starts with; otherwise empty. */
  function Extension(p: string): (e: string)
    ensures e == "" || (|e| <= |p| && e == p[|p| - |e|..] && e[0] == '.')
  {
    var sep := LastIndexOf(p, '/');
    var dot := LastIndexOf(p, '.');
    if dot > sep && SkipsLeadingDots(p, sep + 1, dot) then p[dot..] else ""
  }

  /** The last occurrence is the one with no occurrence after it. */
  lemma LastIndexOfIs(s: string, c: char, i: int)
    requires 0 <= i < |s| && s[i] == c
    requires forall k :: i < k < |s| ==> s[k] != c
    ensures LastIndexOf(s, c) == i
  {
  }

  /** The lower-cased extension is one of `.doc` and `.docx`. */
  predicate IsSupported(p: string) {
    var ext := LowerAscii(Extension(p));
    ext == ".doc" || ext == ".docx"
  }

  /** The extension, when there is one, is a dot followed by neither dots
      nor slashes, and the file name before it is not made of dots only. */
  lemma ExtensionShape(p: string)
    ensures var e := Extension(p);
      e != "" ==>
        && e[0] == '.' && '.' !in e[1..] && '/' !in e
        && HasNonDot(p, LastIndexOf(p, '/') + 1, |p| - |e|)
  {
    var dot := LastIndexOf(p, '.');
    var e := Extension(p);
    if e != "" {
      assert forall k :: 0 <= k < |e| ==> e[k] == p[dot + k];
      assert forall k :: 0 <= k < |e| - 1 ==> e[1..][k] == p[dot + 1 + k];
    }
  }

  /** A dot with no dot after it is the last dot. */
  lemma LastDotUnique(p: string, d: int)
    requires 0 <= d < |p| && p[d] == '.' && '.' !in p[d + 1..]
    ensures d == LastIndexOf(p, '.')
  {
    forall k | d < k < |p|
      ensures p[k] != '.'
    {
      assert p[k] == p[d + 1..][k - d - 1];
    }
    LastIndexOfIs(p, '.', d);
  }

  /** The last path component has a last dot at `d` with some non-dot
      character before it in that component. */
  predicate SplitsAt(p: string, d: int) {
    var sep := LastIndexOf(p, '/');
    sep < d < |p| && p[d] == '.' && '.' !in p[d + 1..] && HasNonDot(p, sep + 1, d)
  }

  /** There is an extension exactly when the last path component splits
      at a dot in that way, and the extension starts at that dot. */
  lemma ExtensionPresent(p: string)
    ensures Extension(p) != "" <==> exists d :: SplitsAt(p, d)
    ensures forall d :: SplitsAt(p, d) ==> Extension(p) == p[d..]
  {
    var dot := LastIndexOf(p, '.');
    if Extension(p) != "" {
      var tail := p[dot + 1..];
      forall k | 0 <= k < |tail|
        ensures tail[k] != '.'
      {
        assert tail[k] == p[dot + 1 + k];
      }
      assert SplitsAt(p, dot);
    }
    forall d | SplitsAt(p, d)
      ensures d == dot
    {
      LastDotUnique(p, d);
    }
  }

  /** The gate accepts a path exactly when its last component splits at a
      dot into a non-dot name and `.doc` or `.docx` in any letter case. */
  lemma SupportedIff(p: string)
    ensures IsSupported(p) <==>
      exists d :: SplitsAt(p, d) && (LowerAscii(p[d..]) == ".doc" || LowerAscii(p[d..]) == ".docx")
  {
    ExtensionPresent(p);
    if IsSupported(p) {
      assert Extension(p) != "";
      var dot := LastIndexOf(p, '.');
      assert SplitsAt(p, dot) by {
        if !SplitsAt(p, dot) {
          var d :| SplitsAt(p, d);
          LastDotUnique(p, d);
        }
      }
    }
  }

  /** A hidden file named `.docx` has no extension, so it is refused. */
  lemma HiddenFileUnsupported()
    ensures Extension(".docx") == ""
    ensures !IsSupported(".docx")
  {
    assert LastIndexOf(".docx", '/') == -1;
    assert LastIndexOf(".docx", '.') == 0;
  }

  /** In a path without slashes whose name does not start with a dot, the
      extension starts at the last dot. */
  lemma PlainNameExtension(p: string, d: int)
    requires 0 < d < |p| && '/' !in p && p[0] != '.' && p[d] == '.' && '.' !in p[d + 1..]
    ensures Extension(p) == p[d..]
  {
    LastDotUnique(p, d);
    assert HasNonDot(p, 0, d);
  }

  /** Upper-case extensions are accepted. */
  lemma UpperCaseSupported()
    ensures Extension("Informe.DOCX") == ".DOCX"
    ensures IsSupported("Informe.DOCX")
  {
    var p := "Informe.DOCX";
    assert p[8..] == "DOCX";
    PlainNameExtension(p, 7);
    assert p[7..] == ".DOCX";
  }

  /** Only the last extension counts. */
  lemma BackupCopyUnsupported()
    ensures Extension("informe.docx.bak") == ".bak"
    ensures !IsSupported("informe.docx.bak")
  {
    var p := "informe.docx.bak";
    assert p[13..] == "bak";
    PlainNameExtension(p, 12);
    assert p[12..] == ".bak";
  }

  /** A plain report name is accepted. */
  lemma PlainNameSupported()
    ensures Extension("informe.docx") == ".docx"
    ensures IsSupported("informe.docx")
  {
    var p := "informe.docx";
    assert p[8..] == "docx";
    PlainNameExtension(p, 7);
    assert p[7..] == ".docx";
  }
}
