/** The part of Go's `path/filepath` the repository manager uses, on a Unix host
    where the only path separator is `/`. */
module FilePath {

  /** The path separator on Unix hosts. */
  const Separator: char := '/'

  /** Index `i` of `p` lies in the final `/`-separated element: no separator at or after it. */
  ghost predicate InFinalElement(p: string, i: int)
  {
    0 <= i < |p| && forall j :: i <= j < |p| ==> p[j] != Separator
  }

  /** `e` is the extension of `p` in the sense of `filepath.Ext`: the suffix of `p` that starts
      at the last dot of the final element, or empty when the final element has no dot. */
  ghost predicate IsExtension(e: string, p: string)
  {
    && |e| <= |p|
    && e == p[|p| - |e|..]
    && (e == [] ==> forall i :: 0 <= i < |p| && p[i] == '.' ==> !InFinalElement(p, i))
    && (e != [] ==> e[0] == '.' && forall k :: 1 <= k < |e| ==> e[k] != '.' && e[k] != Separator)
  }

  /** `filepath.Ext`: scans back from the end of the path, stops at a separator,
      and returns the suffix from the first dot met. */
  function Ext(p: string): (e: string)
    ensures IsExtension(e, p)
  {
    if |p| == 0 then ""
    else
      var last := p[|p| - 1];
      if last == Separator then
        assert forall i :: 0 <= i < |p| ==> !InFinalElement(p, i) by {
          forall i | 0 <= i < |p| ensures !InFinalElement(p, i) {
            assert p[|p| - 1] == Separator;
          }
        }
        ""
      else if last == '.' then
        [last]
      else
        var init := p[..|p| - 1];
        var e := Ext(init);
        if e == [] then
          assert forall i :: 0 <= i < |p| && p[i] == '.' ==> !InFinalElement(p, i) by {
            forall i | 0 <= i < |p| && p[i] == '.' ensures !InFinalElement(p, i) {
              assert i < |p| - 1 && init[i] == '.';
              assert !InFinalElement(init, i);
              var j :| i <= j < |init| && init[j] == Separator;
              assert p[j] == Separator;
            }
          }
          ""
        else
          assert e + [last] == p[|p| - |e| - 1..];
          e + [last]
  }

  /** `IsExtension` pins down a single suffix, so `Ext` is its only solution. */
  lemma ExtUnique(e: string, p: string)
    requires IsExtension(e, p)
    ensures e == Ext(p)
  {
    var x := Ext(p);
    if |e| < |x| {
      DotStartsFinalElementSuffix(x, p);
    } else if |x| < |e| {
      DotStartsFinalElementSuffix(e, p);
    }
  }

  /** A non-empty extension begins with a dot that lies in the final element. */
  lemma DotStartsFinalElementSuffix(e: string, p: string)
    requires IsExtension(e, p) && e != []
    ensures p[|p| - |e|] == '.' && InFinalElement(p, |p| - |e|)
  {
    var i := |p| - |e|;
    forall j | i <= j < |p| ensures p[j] != Separator {
      assert p[j] == e[j - i];
    }
  }

  /** A dot followed by no dot and no separator, at the end of a path, is its extension. */
  lemma ExtOfDottedSuffix(head: string, ext: string)
    requires |ext| > 0 && ext[0] == '.'
    requires forall k :: 1 <= k < |ext| ==> ext[k] != '.' && ext[k] != Separator
    ensures Ext(head + ext) == ext
  {
    assert (head + ext)[|head|..] == ext;
    ExtUnique(ext, head + ext);
  }
}
