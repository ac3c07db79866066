/** Display names for image entries: the file name with one trailing image
    extension removed, the extension matched without regard to ASCII case
    (script.js:31, the regular expression `/\.(jpg|jpeg|png|gif|webp|heic|HEIC)$/i`). */
module ImageNames {

  /** The alternatives of the regular expression, in lower case. The `HEIC`
      alternative adds nothing under the `i` flag and is folded into `heic`. */
  const Extensions: seq<string> := ["jpg", "jpeg", "png", "gif", "webp", "heic"]

  /** Case folding of the `i` flag without the `u` flag: only ASCII letters
      fold onto each other. */
  function ToLower(c: char): char {
    if 'A' <= c <= 'Z' then (c as int + 32) as char else c
  }

  predicate SameIgnoringCase(x: string, y: string) {
    |x| == |y| && forall i :: 0 <= i < |x| ==> ToLower(x[i]) == ToLower(y[i])
  }

  /** s ends in "." followed by e, up to case. */
  predicate EndsWithExtension(s: string, e: string) {
    |s| > |e| && s[|s| - |e| - 1] == '.' && SameIgnoringCase(s[|s| - |e|..], e)
  }

  predicate HasImageExtension(s: string) {
    exists k :: 0 <= k < |Extensions| && EndsWithExtension(s, Extensions[k])
  }

  /** No two alternatives can match the same string, so "the" match of the
      anchored expression is well defined. */
  lemma ExtensionMatchUnique(s: string, i: nat, j: nat)
    requires i < |Extensions| && j < |Extensions|
    requires EndsWithExtension(s, Extensions[i]) && EndsWithExtension(s, Extensions[j])
    ensures i == j
  {
    var ei, ej := Extensions[i], Extensions[j];
    if |ei| == |ej| {
      var t := s[|s| - |ei|..];
      forall n | 0 <= n < |ei| ensures ei[n] == ej[n] {
        assert ToLower(t[n]) == ToLower(ei[n]) && ToLower(t[n]) == ToLower(ej[n]);
      }
      assert ei == ej;
    }
  }

  function StripFrom(s: string, k: nat): (r: string)
    requires k <= |Extensions|
    ensures forall j :: k <= j < |Extensions| && EndsWithExtension(s, Extensions[j]) ==>
      r == s[..|s| - |Extensions[j]| - 1]
    ensures (forall j :: k <= j < |Extensions| ==> !EndsWithExtension(s, Extensions[j])) ==> r == s
    decreases |Extensions| - k
  {
    if k == |Extensions| then s
    else if EndsWithExtension(s, Extensions[k]) then
      (forall j | k <= j < |Extensions| && EndsWithExtension(s, Extensions[j])
        ensures j == k { ExtensionMatchUnique(s, j, k); }
       s[..|s| - |Extensions[k]| - 1])
    else StripFrom(s, k + 1)
  }

  /** The name shown for an image file. */
  function StripExtension(s: string): (r: string)
    ensures forall k :: 0 <= k < |Extensions| && EndsWithExtension(s, Extensions[k]) ==>
      r == s[..|s| - |Extensions[k]| - 1]
    ensures !HasImageExtension(s) ==> r == s
  {
    StripFrom(s, 0)
  }

  /** Appending "." and any case variant of an extension to a base name and
      stripping gives the base name back. */
  lemma StripAppendedExtension(base: string, k: nat, x: string)
    requires k < |Extensions| && SameIgnoringCase(x, Extensions[k])
    ensures StripExtension(base + "." + x) == base
  {
    var s := base + "." + x;
    assert s[|s| - |x|..] == x;
    assert s[|s| - |x| - 1] == '.';
    assert EndsWithExtension(s, Extensions[k]);
    assert s[..|s| - |Extensions[k]| - 1] == base;
  }

  /** The result is the input or the input less "." and an extension. */
  lemma StripRemovesAtMostOneExtension(s: string)
    ensures StripExtension(s) == s ||
      (exists k :: 0 <= k < |Extensions| && |Extensions[k]| < |s| &&
        s == StripExtension(s) + "." + s[|s| - |Extensions[k]|..] &&
        SameIgnoringCase(s[|s| - |Extensions[k]|..], Extensions[k]))
  {
    if HasImageExtension(s) {
      var k :| 0 <= k < |Extensions| && EndsWithExtension(s, Extensions[k]);
      var n := |Extensions[k]|;
      var r, dot, ext := s[..|s| - n - 1], s[|s| - n - 1..|s| - n], s[|s| - n..];
      assert dot == ".";
      assert s == r + dot + ext;
      assert StripExtension(s) == r;
    }
  }
}
