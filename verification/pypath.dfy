/** `os.path.splitext` as POSIX Python defines it: the extension is the
    part from the last '.' of the final path component, unless everything
    before that dot in the component is dots (so ".bashrc" and "..a" have
    no extension). */
module PyPath {

  /** `s.rfind(ch)`: the last index of `ch` in `s`, or -1. */
  function LastIndex(s: string, ch: char): (r: int)
    ensures -1 <= r < |s|
    ensures r >= 0 ==> s[r] == ch
    ensures forall k | r < k < |s| :: s[k] != ch
  {
    if s == [] then -1
    else if s[|s| - 1] == ch then |s| - 1
    else LastIndex(s[..|s| - 1], ch)
  }

  /** `os.path.splitext(p)`, as the pair (root, ext). */
  function SplitExt(p: string): (res: (string, string))
    ensures res.0 + res.1 == p
    ensures var slash := LastIndex(p, '/');
            if res.1 == [] then
              // no dot in the final component follows a character other than a dot
              forall i, j | slash < i < j < |p| :: p[i] != '.' ==> p[j] != '.'
            else
              // the extension runs from the last dot, which follows a non-dot
              && res.1[0] == '.'
              && (forall k | 1 <= k < |res.1| :: res.1[k] != '.' && res.1[k] != '/')
              && (exists k | slash < k < |res.0| :: p[k] != '.')
  {
    var slash := LastIndex(p, '/');
    var dot := LastIndex(p, '.');
    if dot > slash && exists k | slash + 1 <= k < dot :: p[k] != '.' then
      ExtensionShape(p, slash, dot);
      (p[..dot], p[dot..])
    else
      NoExtension(p, slash, dot);
      (p, [])
  }

  lemma ExtensionShape(p: string, slash: int, dot: int)
    requires slash == LastIndex(p, '/') && dot == LastIndex(p, '.') && slash < dot
    ensures p[..dot] + p[dot..] == p
    ensures p[dot..][0] == '.'
    ensures forall k | 1 <= k < |p[dot..]| :: p[dot..][k] != '.' && p[dot..][k] != '/'
  {
    assert forall k | 1 <= k < |p[dot..]| :: p[dot..][k] == p[dot + k];
  }

  lemma NoExtension(p: string, slash: int, dot: int)
    requires slash == LastIndex(p, '/') && dot == LastIndex(p, '.')
    requires !(dot > slash && exists k | slash + 1 <= k < dot :: p[k] != '.')
    ensures forall i, j | slash < i < j < |p| :: p[i] != '.' ==> p[j] != '.'
  {
    forall i, j | slash < i < j < |p| && p[i] != '.'
      ensures p[j] != '.'
    {
      assert p[j] == '.' ==> j <= dot;
    }
  }

  /** `os.path.splitext(p)[0]`. */
  function Root(p: string): (r: string)
    ensures |r| <= |p| && r == p[..|r|]
    ensures r == p || p[|r|] == '.'
  {
    SplitExt(p).0
  }
}
