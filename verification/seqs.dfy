/** Sequence helpers shared by the path model, the revved-file finder and the
    step configuration generators. */
module Seqs {

  /** `s` begins with `prefix` (JavaScript `s.indexOf(prefix) === 0`). */
  predicate StartsWith<T(==)>(s: seq<T>, prefix: seq<T>)
  {
    |prefix| <= |s| && s[..|prefix|] == prefix
  }

  /** Left-to-right search for `needle` inside `s`, as an unanchored
      regular expression made only of literal characters performs it
      (`s.match(/:\/\//)`, `s.match(/\.js/)`). */
  predicate Contains<T(==)>(s: seq<T>, needle: seq<T>)
    decreases |s|
  {
    StartsWith(s, needle) || (|s| > 0 && Contains(s[1..], needle))
  }

  /** `needle` occurs in `s` at index `i`. */
  ghost predicate OccursAt<T>(s: seq<T>, needle: seq<T>, i: int)
  {
    0 <= i && i + |needle| <= |s| && s[i..i + |needle|] == needle
  }

  /** The scan finds `needle` exactly when it occurs somewhere. */
  lemma {:induction false} ContainsIff<T>(s: seq<T>, needle: seq<T>)
    ensures Contains(s, needle) <==> exists i :: OccursAt(s, needle, i)
    decreases |s|
  {
    if StartsWith(s, needle) {
      assert OccursAt(s, needle, 0);
    } else if |s| > 0 {
      ContainsIff(s[1..], needle);
      if Contains(s[1..], needle) {
        var i :| OccursAt(s[1..], needle, i);
        assert s[1..][i..i + |needle|] == s[i + 1..i + 1 + |needle|];
        assert OccursAt(s, needle, i + 1);
      } else {
        forall i ensures !OccursAt(s, needle, i) {
          if 0 < i && i + |needle| <= |s| {
            assert s[1..][i - 1..i - 1 + |needle|] == s[i..i + |needle|];
            assert !OccursAt(s[1..], needle, i - 1);
          }
        }
      }
    } else {
      assert |needle| > 0;
    }
  }

  /** A sequence ending in `needle` contains it. */
  lemma {:induction false} ContainsSuffix<T>(s: seq<T>, needle: seq<T>)
    ensures Contains(s + needle, needle)
    decreases |s|
  {
    if s == [] {
      assert s + needle == needle;
      assert StartsWith(needle, needle);
    } else {
      assert (s + needle)[1..] == s[1..] + needle;
      ContainsSuffix(s[1..], needle);
    }
  }

  /** Concatenation of `f(x)` over `xs`, in order: the shape of every
      `forEach` loop in the modelled code that pushes zero or more values per
      element. */
  function ConcatMap<T, U>(xs: seq<T>, f: T -> seq<U>): seq<U>
    decreases |xs|
  {
    if xs == [] then [] else f(xs[0]) + ConcatMap(xs[1..], f)
  }

  /** Processing `xs + ys` yields the results for `xs` followed by those for
      `ys`: the order of the input is kept. */
  lemma {:induction false} ConcatMapAppend<T, U>(xs: seq<T>, ys: seq<T>, f: T -> seq<U>)
    ensures ConcatMap(xs + ys, f) == ConcatMap(xs, f) + ConcatMap(ys, f)
    decreases |xs|
  {
    if xs == [] {
      assert xs + ys == ys;
    } else {
      assert (xs + ys)[1..] == xs[1..] + ys;
      ConcatMapAppend(xs[1..], ys, f);
    }
  }

  /** One more element at the end appends its results at the end (the step
      of a loop over `xs`). */
  lemma ConcatMapSnoc<T, U>(xs: seq<T>, x: T, f: T -> seq<U>)
    ensures ConcatMap(xs + [x], f) == ConcatMap(xs, f) + f(x)
  {
    ConcatMapAppend(xs, [x], f);
    assert ConcatMap([x], f) == f(x) + ConcatMap([x][1..], f);
  }

  /** One more element of a prefix of `xs`: the step a loop over `xs`
      takes. */
  lemma ConcatMapPrefix<T, U>(xs: seq<T>, i: nat, f: T -> seq<U>)
    requires i < |xs|
    ensures ConcatMap(xs[..i + 1], f) == ConcatMap(xs[..i], f) + f(xs[i])
  {
    assert xs[..i + 1] == xs[..i] + [xs[i]];
    ConcatMapSnoc(xs[..i], xs[i], f);
  }

  /** Every result of every element is among the results. */
  lemma ConcatMapIn<T, U>(xs: seq<T>, f: T -> seq<U>, j: nat, y: U)
    requires j < |xs| && y in f(xs[j])
    ensures y in ConcatMap(xs, f)
  {
    assert xs[..j] + xs[j..] == xs;
    ConcatMapAppend(xs[..j], xs[j..], f);
    assert xs[j..] == [xs[j]] + xs[j + 1..];
    ConcatMapAppend([xs[j]], xs[j + 1..], f);
    assert ConcatMap([xs[j]], f) == f(xs[j]) + ConcatMap([xs[j]][1..], f);
  }

  /** No results at all exactly when no element produces one. */
  lemma {:induction false} ConcatMapEmpty<T, U>(xs: seq<T>, f: T -> seq<U>)
    ensures ConcatMap(xs, f) == [] <==> forall j :: 0 <= j < |xs| ==> f(xs[j]) == []
    decreases |xs|
  {
    if xs != [] {
      ConcatMapEmpty(xs[1..], f);
      if ConcatMap(xs, f) == [] {
        forall j | 0 <= j < |xs| ensures f(xs[j]) == [] {
          if j > 0 { assert xs[j] == xs[1..][j - 1]; }
        }
      } else if f(xs[0]) == [] {
        var j :| 0 <= j < |xs[1..]| && f(xs[1..][j]) != [];
        assert xs[1..][j] == xs[j + 1];
      }
    }
  }

  /** The first result comes from the first element that produces any. */
  lemma {:induction false} ConcatMapFirst<T, U>(xs: seq<T>, f: T -> seq<U>, k: nat)
    requires k < |xs| && f(xs[k]) != []
    requires forall j :: 0 <= j < k ==> f(xs[j]) == []
    ensures ConcatMap(xs, f) != [] && ConcatMap(xs, f)[0] == f(xs[k])[0]
    decreases k
  {
    if k > 0 {
      forall j | 0 <= j < k - 1 ensures f(xs[1..][j]) == [] {
        assert xs[1..][j] == xs[j + 1];
      }
      assert xs[1..][k - 1] == xs[k];
      ConcatMapFirst(xs[1..], f, k - 1);
    }
  }

  /** When each element produces at most one result, there are at most as
      many results as elements. */
  lemma {:induction false} ConcatMapAtMostOne<T, U>(xs: seq<T>, f: T -> seq<U>)
    requires forall j :: 0 <= j < |xs| ==> |f(xs[j])| <= 1
    ensures |ConcatMap(xs, f)| <= |xs|
    decreases |xs|
  {
    if xs != [] {
      forall j | 0 <= j < |xs[1..]| ensures |f(xs[1..][j])| <= 1 {
        assert xs[1..][j] == xs[j + 1];
      }
      ConcatMapAtMostOne(xs[1..], f);
    }
  }

  /** When each element produces exactly one result, the results line up
      with the elements. */
  lemma {:induction false} ConcatMapExactlyOne<T, U>(xs: seq<T>, f: T -> seq<U>)
    requires forall j :: 0 <= j < |xs| ==> |f(xs[j])| == 1
    ensures |ConcatMap(xs, f)| == |xs|
    ensures forall j :: 0 <= j < |xs| ==> ConcatMap(xs, f)[j] == f(xs[j])[0]
    decreases |xs|
  {
    if xs != [] {
      forall j | 0 <= j < |xs[1..]| ensures |f(xs[1..][j])| == 1 {
        assert xs[1..][j] == xs[j + 1];
      }
      ConcatMapExactlyOne(xs[1..], f);
      forall j | 0 <= j < |xs| ensures ConcatMap(xs, f)[j] == f(xs[j])[0] {
        if j > 0 { assert xs[j] == xs[1..][j - 1]; }
      }
    }
  }

  /** Every result was produced by some element. */
  lemma {:induction false} ConcatMapOrigin<T, U>(xs: seq<T>, f: T -> seq<U>, y: U)
    requires y in ConcatMap(xs, f)
    ensures exists j :: 0 <= j < |xs| && y in f(xs[j])
    decreases |xs|
  {
    if y !in f(xs[0]) {
      ConcatMapOrigin(xs[1..], f, y);
      var j :| 0 <= j < |xs[1..]| && y in f(xs[1..][j]);
      assert xs[1..][j] == xs[j + 1];
    }
  }
}
