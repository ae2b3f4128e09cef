/**
 * The two wrappers read a `column::value` directive differently:
 * `_ancombc` splits on the first `::` only and leaves any further `::` in
 * the value, while the ANCOM-BC2 wrapper splits on every `::` and wants
 * exactly two fields. This module relates the two parsers.
 */
module DirectiveParsers {
  import opened Wrappers
  import opened Strings
  import Ancombc
  import Ancombc2

  /**
   * The strict parser accepts a directive exactly when the first-`::`
   * split succeeds and leaves a value with no `::` of its own; it then
   * returns the same pair. It rejects as having too many levels exactly
   * the directives whose first-`::` value still holds a `::`.
   */
  lemma {:induction false} StrictIsFirstSplitWithPlainValue(d: string)
    ensures Ancombc2.ExtractColumnReferenceLevel(d).Success? <==>
      Ancombc.SplitFirst(d).Some? && !HasSep(Ancombc.SplitFirst(d).value.1)
    ensures Ancombc2.ExtractColumnReferenceLevel(d).Success? ==>
      Ancombc.SplitFirst(d) == Some(Ancombc2.ExtractColumnReferenceLevel(d).value)
    ensures Ancombc2.ExtractColumnReferenceLevel(d) == Failure(Ancombc2.TooManyReferenceLevels(d)) <==>
      Ancombc.SplitFirst(d).Some? && HasSep(Ancombc.SplitFirst(d).value.1)
  {
    match FindSep(d, 0)
    case None =>
    case Some(i) =>
      var rest := d[i + 2..];
      var tail := Ancombc2.SplitAll(rest);
      assert Ancombc2.SplitAll(d) == [d[..i]] + tail;
      assert Ancombc.SplitFirst(d) == Some((d[..i], rest));
      if !HasSep(rest) {
        assert |tail| == 1 && tail == [tail[0]];
        assert Ancombc2.Joined(tail) == tail[0];
      }
  }

  /**
   * `a::b::c`: `_ancombc` takes column `a` with value `b::c`, while the
   * ANCOM-BC2 wrapper rejects it as naming more than one level.
   */
  lemma NestedSeparatorExample()
    ensures Ancombc.SplitFirst("a::b::c") == Some(("a", "b::c"))
    ensures Ancombc2.ExtractColumnReferenceLevel("a::b::c") == Failure(Ancombc2.TooManyReferenceLevels("a::b::c"))
  {
    assert !HasSep("a") && !EndsWithColon("a") by {
      forall i ensures !SepAt("a", i) { }
    }
    Ancombc.SplitFirstOfJoin("a", "b::c");
    assert "a" + Separator + "b::c" == "a::b::c";
    assert SepAt("b::c", 1);
    StrictIsFirstSplitWithPlainValue("a::b::c");
  }
}
