/**
 * Reconciliation of the three URL-carrying columns of a Bibdesk record (`url`,
 * `bdsk-url-1`, `bdsk-url-2`) into one `url`, as both record normalisers do it.
 */
module Bibdesk {
  import opened Strings
  import opened Frames

  /** A cell that `str()` can render in this model. */
  predicate Renderable(c: Cell) {
    !c.Num?
  }

  /**
   * The admissible outcomes of `set([u, b1, b2]) - {''}` followed by `str(urlset.pop())`:
   * the empty string when all three are empty, otherwise the rendering of some
   * non-empty one of them (`set.pop` picks an arbitrary element).
   */
  predicate UrlChoice(u: Cell, b1: Cell, b2: Cell, r: Cell)
    requires Renderable(u) && Renderable(b1) && Renderable(b2)
  {
    if u == Str("") && b1 == Str("") && b2 == Str("") then r == Str("")
    else
      || (u != Str("") && r == Str(PyStr(u)))
      || (b1 != Str("") && r == Str(PyStr(b1)))
      || (b2 != Str("") && r == Str(PyStr(b2)))
  }

  /** The reconciled url is empty exactly when all three are, and a lone string value survives. */
  lemma UrlChoiceSpec(u: Cell, b1: Cell, b2: Cell, r: Cell)
    requires Renderable(u) && Renderable(b1) && Renderable(b2) && UrlChoice(u, b1, b2, r)
    ensures r.Str?
    ensures r == Str("") <==> u == Str("") && b1 == Str("") && b2 == Str("")
    ensures forall x: Cell :: x.Str? && x != Str("") && {u, b1, b2} - {Str("")} == {x} ==> r == x
  {
    if u != Str("") { PyStrNonEmpty(u); }
    if b1 != Str("") { PyStrNonEmpty(b1); }
    if b2 != Str("") { PyStrNonEmpty(b2); }
    forall x: Cell | x.Str? && x != Str("") && {u, b1, b2} - {Str("")} == {x} ensures r == x {
      if u != Str("") { assert u in {u, b1, b2} - {Str("")}; }
      if b1 != Str("") { assert b1 in {u, b1, b2} - {Str("")}; }
      if b2 != Str("") { assert b2 in {u, b1, b2} - {Str("")}; }
    }
  }

  /** The loop `for i in range(len(urls)): ... urls[i] = ...` over aligned columns. */
  method ReconcileUrls(urls: seq<Cell>, b1s: seq<Cell>, b2s: seq<Cell>) returns (out: seq<Cell>)
    requires |urls| == |b1s| == |b2s|
    requires forall i :: 0 <= i < |urls| ==> Renderable(urls[i]) && Renderable(b1s[i]) && Renderable(b2s[i])
    ensures |out| == |urls|
    ensures forall i :: 0 <= i < |out| ==> UrlChoice(urls[i], b1s[i], b2s[i], out[i])
  {
    out := urls;
    var i := 0;
    while i < |urls|
      invariant 0 <= i <= |urls| && |out| == |urls|
      invariant forall k :: 0 <= k < i ==> UrlChoice(urls[k], b1s[k], b2s[k], out[k])
    {
      var urlset := {urls[i], b1s[i], b2s[i]} - {Str("")};
      if |urlset| == 0 {
        assert urls[i] !in urlset && b1s[i] !in urlset && b2s[i] !in urlset;
        out := out[i := Str("")];
      } else {
        var x :| x in urlset;
        out := out[i := Str(PyStr(x))];
      }
      i := i + 1;
    }
  }
}
