/**
 * The string facts both directive parsers rest on: where the `::`
 * separator occurs, and the order Python uses to compare two strings.
 */
module Strings {
  import opened Wrappers

  /** The separator between a column name and a value in `column::value`. */
  const Separator: string := "::"

  /** `s` has a `::` starting at index `i`. */
  predicate SepAt(s: string, i: int)
  {
    0 <= i && i + 1 < |s| && s[i] == ':' && s[i + 1] == ':'
  }

  /** `s` contains `::` somewhere. */
  ghost predicate HasSep(s: string)
  {
    exists i :: SepAt(s, i)
  }

  /** The last character of `s` is a colon. */
  predicate EndsWithColon(s: string)
  {
    |s| > 0 && s[|s| - 1] == ':'
  }

  /**
   * `d` is `c::l` with one `::` only: neither part holds a `::` and `c`
   * does not end in `:` (which would put a `::` one character earlier).
   */
  ghost predicate JoinsPlain(d: string, c: string, l: string)
  {
    d == c + Separator + l && !HasSep(c) && !EndsWithColon(c) && !HasSep(l)
  }

  /** `d` holds exactly one `::`, between a column and a level. */
  ghost predicate HasOneSep(d: string)
  {
    exists c, l :: JoinsPlain(d, c, l)
  }

  /** Python's `s.find('::', from)`: the first `::` at or after `from`. */
  function FindSep(s: string, from: nat): (r: Option<nat>)
    decreases |s| - from
    ensures r.Some? ==> from <= r.value && SepAt(s, r.value)
    ensures r.Some? ==> forall j :: from <= j < r.value ==> !SepAt(s, j)
    ensures r.None? ==> forall j :: from <= j ==> !SepAt(s, j)
  {
    if from + 1 >= |s| then None
    else if s[from] == ':' && s[from + 1] == ':' then Some(from)
    else FindSep(s, from + 1)
  }

  /** A `::` sits at `i` of a suffix exactly when it sits at `from + i` of the whole. */
  lemma SepAtSuffix(s: string, from: nat, i: int)
    requires from <= |s|
    ensures SepAt(s[from..], i) <==> (0 <= i && SepAt(s, from + i))
  {
  }

  /** No `::` from `from` on means the suffix has none. */
  lemma NoSepInSuffix(s: string, from: nat)
    requires from <= |s|
    requires forall j :: from <= j ==> !SepAt(s, j)
    ensures !HasSep(s[from..])
  {
    forall i ensures !SepAt(s[from..], i) {
      SepAtSuffix(s, from, i);
    }
  }

  /** No `::` in `[from, to)` means the slice `s[from..to]` has none. */
  lemma NoSepInSlice(s: string, from: nat, to: nat)
    requires from <= to <= |s|
    requires forall j :: from <= j < to ==> !SepAt(s, j)
    ensures !HasSep(s[from..to])
  {
    forall i | SepAt(s[from..to], i) ensures false {
      assert s[from..to][i] == s[from + i] && s[from..to][i + 1] == s[from + i + 1];
      assert SepAt(s, from + i);
    }
  }

  /**
   * In `c + "::" + v` the first `::` is the one written between the two
   * parts exactly when `c` has none of its own and does not end in `:`.
   */
  lemma {:induction false} FirstSepOfJoin(c: string, v: string)
    ensures FindSep(c + Separator + v, 0) == Some(|c|) <==> !HasSep(c) && !EndsWithColon(c)
  {
    var s := c + Separator + v;
    assert SepAt(s, |c|);
    if !HasSep(c) && !EndsWithColon(c) {
      forall j | 0 <= j < |c| ensures !SepAt(s, j) {
        assert s[j] == c[j];
        if j + 1 < |c| {
          assert s[j + 1] == c[j + 1];
          assert !SepAt(c, j);
        }
      }
    }
    if FindSep(s, 0) == Some(|c|) {
      if EndsWithColon(c) {
        assert SepAt(s, |c| - 1);
      }
      forall j | 0 <= j && j + 1 < |c| ensures !SepAt(c, j) {
        assert s[j] == c[j] && s[j + 1] == c[j + 1];
        assert !SepAt(s, j);
      }
    }
  }

  /** Python's `a <= b` on strings: code point by code point, a prefix first. */
  predicate LexLe(a: string, b: string)
  {
    |a| == 0 || (|b| > 0 && (a[0] < b[0] || (a[0] == b[0] && LexLe(a[1..], b[1..]))))
  }

  lemma {:induction false} LexLeReflexive(a: string)
    ensures LexLe(a, a)
  {
    if |a| > 0 {
      LexLeReflexive(a[1..]);
    }
  }

  lemma {:induction false} LexLeTotal(a: string, b: string)
    ensures LexLe(a, b) || LexLe(b, a)
  {
    if |a| > 0 && |b| > 0 && a[0] == b[0] {
      LexLeTotal(a[1..], b[1..]);
    }
  }

  lemma {:induction false} LexLeAntisymmetric(a: string, b: string)
    requires LexLe(a, b) && LexLe(b, a)
    ensures a == b
  {
    if |a| > 0 && |b| > 0 {
      LexLeAntisymmetric(a[1..], b[1..]);
      assert a == [a[0]] + a[1..] && b == [b[0]] + b[1..];
    }
  }

  lemma {:induction false} LexLeTransitive(a: string, b: string, c: string)
    requires LexLe(a, b) && LexLe(b, c)
    ensures LexLe(a, c)
  {
    if |a| > 0 && a[0] == b[0] && b[0] == c[0] {
      LexLeTransitive(a[1..], b[1..], c[1..]);
    }
  }

  /** A string below `b` is below everything `b` is below. */
  lemma LexLeBelowAll(a: string, b: string, vs: seq<string>)
    requires LexLe(a, b)
    requires forall v :: v in vs ==> LexLe(b, v)
    ensures forall v :: v in vs ==> LexLe(a, v)
  {
    forall v | v in vs ensures LexLe(a, v) {
      LexLeTransitive(a, b, v);
    }
  }

  /** The first entry after sorting `vs` ascending: its least element. */
  function Smallest(vs: seq<string>): (m: string)
    requires |vs| > 0
    ensures m in vs
    ensures forall v :: v in vs ==> LexLe(m, v)
  {
    if |vs| == 1 then
      LexLeReflexive(vs[0]);
      vs[0]
    else
      var rest := Smallest(vs[1..]);
      assert forall v :: v in vs ==> v == vs[0] || v in vs[1..];
      if LexLe(vs[0], rest) then
        LexLeReflexive(vs[0]);
        LexLeBelowAll(vs[0], rest, vs[1..]);
        vs[0]
      else
        LexLeTotal(vs[0], rest);
        rest
  }

  /** The least element is unique, so the sample order cannot change it. */
  lemma SmallestUnique(vs: seq<string>, m: string)
    requires m in vs
    requires forall v :: v in vs ==> LexLe(m, v)
    ensures m == Smallest(vs)
  {
    LexLeAntisymmetric(m, Smallest(vs));
  }
}
