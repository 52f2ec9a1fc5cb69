/**
 * The pieces the entry box and the filter box share: filtering the known
 * tags by a typed prefix, cycling the focus with Tab, and resolving which
 * candidate an action applies to.
 */
module Suggest {

  /** `tags.filter(tag => tag.startsWith(prefix))`: case-sensitive prefix match, order kept. */
  function PrefixFilter(tags: seq<string>, prefix: string): (r: seq<string>)
    ensures forall x :: x in r <==> x in tags && prefix <= x
    ensures |r| <= |tags|
  {
    if tags == [] then []
    else if prefix <= tags[0] then [tags[0]] + PrefixFilter(tags[1..], prefix)
    else PrefixFilter(tags[1..], prefix)
  }

  /** Filtering keeps the order of the known tags: the matches of a part precede those of a later part. */
  lemma {:induction false} PrefixFilterConcat(a: seq<string>, b: seq<string>, prefix: string)
    ensures PrefixFilter(a + b, prefix) == PrefixFilter(a, prefix) + PrefixFilter(b, prefix)
  {
    if a == [] {
      assert a + b == b;
    } else {
      assert (a + b)[0] == a[0];
      assert (a + b)[1..] == a[1..] + b;
      PrefixFilterConcat(a[1..], b, prefix);
    }
  }

  /** Every matching tag is kept as often as it occurs among the known tags; no other tag is kept. */
  lemma {:induction false} PrefixFilterCount(tags: seq<string>, prefix: string, x: string)
    ensures multiset(PrefixFilter(tags, prefix))[x] == if prefix <= x then multiset(tags)[x] else 0
  {
    if tags != [] {
      assert tags == [tags[0]] + tags[1..];
      assert multiset(tags) == multiset{tags[0]} + multiset(tags[1..]);
      PrefixFilterCount(tags[1..], prefix, x);
    }
  }

  /**
   * Typing further narrows the candidates: filtering the candidates of a
   * prefix by a longer text gives the candidates of the longer text.
   */
  lemma {:induction false} PrefixFilterNarrows(tags: seq<string>, prefix: string, longer: string)
    requires prefix <= longer
    ensures PrefixFilter(PrefixFilter(tags, prefix), longer) == PrefixFilter(tags, longer)
  {
    if tags != [] {
      PrefixFilterNarrows(tags[1..], prefix, longer);
      if longer <= tags[0] {
        assert prefix <= tags[0] by {
          assert tags[0][..|prefix|] == longer[..|prefix|];
        }
      }
    }
  }

  /** A positive multiple of `b` is at least `b`. */
  lemma {:induction false} MulAtLeast(d: int, b: int)
    requires d >= 1 && b > 0
    ensures d * b >= b
    decreases d
  {
    if d > 1 {
      MulAtLeast(d - 1, b);
      assert d * b == (d - 1) * b + b;
    }
  }

  /** Division with a remainder in 0 .. b - 1 is unique, so that remainder is Dafny's `%`. */
  lemma ModOf(a: int, b: int, q: int, m: int)
    requires b > 0 && 0 <= m < b && a == q * b + m
    ensures a % b == m
  {
    var q' := a / b;
    var m' := a % b;
    assert a == q' * b + m';
    assert (q - q') * b == m' - m;
    if q > q' { MulAtLeast(q - q', b); }
    if q < q' { MulAtLeast(q' - q, b); }
  }

  /**
   * The `%` of the script: the remainder is congruent to the dividend, lies
   * strictly between -b and b, and takes the sign of the dividend.
   */
  function JsRem(a: int, b: int): (r: int)
    requires b > 0
    ensures -b < r < b && r % b == a % b
    ensures a >= 0 ==> r >= 0
    ensures a <= 0 ==> r <= 0
  {
    if a >= 0 then a % b
    else
      var m := (-a) % b;
      var q := (-a) / b;
      assert -a == q * b + m;
      if m == 0 then
        ModOf(a, b, -q, 0);
        0
      else
        ModOf(a, b, -q - 1, b - m);
        ModOf(-m, b, -1, b - m);
        -m
  }

  /**
   * One Tab press with a candidate count other than one:
   * `focus += 1; focus %= len + 1; if (focus === len) focus = -1`.
   */
  function NextFocus(len: nat, focus: int): (r: int)
    ensures -1 <= focus ==> -1 <= r < len
    ensures -1 <= focus < len ==> r == if focus == len - 1 then -1 else focus + 1
  {
    var f := JsRem(focus + 1, len + 1);
    if f == len then -1 else f
  }

  /** The focus after a number of Tab presses. */
  ghost function FocusAfter(len: nat, focus: int, presses: nat): int
    decreases presses
  {
    if presses == 0 then focus else FocusAfter(len, NextFocus(len, focus), presses - 1)
  }

  /** However the focus was left, Tab presses keep it within -1 .. len - 1. */
  lemma {:induction false} FocusAfterInRange(len: nat, focus: int, presses: nat)
    requires -1 <= focus
    requires presses > 0 || focus < len
    ensures -1 <= FocusAfter(len, focus, presses) < len
    decreases presses
  {
    if presses > 0 {
      FocusAfterInRange(len, NextFocus(len, focus), presses - 1);
    }
  }

  /** Presses that do not reach the end of the list step the focus forward one candidate each. */
  lemma {:induction false} FocusAfterSteps(len: nat, focus: int, presses: nat)
    requires -1 <= focus && focus + presses < len
    ensures FocusAfter(len, focus, presses) == focus + presses
    decreases presses
  {
    if presses > 0 {
      FocusAfterSteps(len, focus + 1, presses - 1);
    }
  }

  /** Pressing a + b times is pressing a times and then b times. */
  lemma {:induction false} FocusAfterAdd(len: nat, focus: int, a: nat, b: nat)
    ensures FocusAfter(len, focus, a + b) == FocusAfter(len, FocusAfter(len, focus, a), b)
    decreases a
  {
    if a > 0 {
      FocusAfterAdd(len, NextFocus(len, focus), a - 1, b);
    }
  }

  /** Starting unfocused, k presses (k <= len) focus candidate k - 1, and len + 1 presses return to -1. */
  lemma FocusFromUnfocused(len: nat, k: nat)
    requires k <= len
    ensures FocusAfter(len, -1, k) == k - 1
    ensures FocusAfter(len, -1, len + 1) == -1
  {
    FocusAfterSteps(len, -1, k);
    FocusAfterSteps(len, -1, len);
    FocusAfterAdd(len, -1, len, 1);
    assert FocusAfter(len, len - 1, 1) == -1;
  }

  /** len + 1 presses restore any focus in range: the focus goes round the whole cycle once. */
  lemma FocusFullCycle(len: nat, focus: int)
    requires -1 <= focus < len
    ensures FocusAfter(len, focus, len + 1) == focus
  {
    var toEnd: nat := len - 1 - focus;
    FocusAfterSteps(len, focus, toEnd);
    FocusAfterAdd(len, focus, toEnd, 1);
    assert FocusAfter(len, len - 1, 1) == -1;
    FocusAfterAdd(len, focus, toEnd + 1, focus + 1);
    FocusAfterSteps(len, -1, focus + 1);
    assert toEnd + 1 + (focus + 1) == len + 1;
  }

  /** Which candidate an action applies to: a lone candidate without any Tab, otherwise the focused one. */
  function ResolvedIndex(count: nat, focus: int): (r: int)
    ensures count == 1 ==> r == 0
    ensures count != 1 ==> r == focus
    ensures -1 <= focus < count ==> -1 <= r < count
  {
    if count == 1 then 0 else focus
  }

  /** `candidates[i]`: a missing element reads as `undefined`, which string concatenation spells out. */
  function JsIndex(candidates: seq<string>, i: int): (r: string)
    ensures r in candidates || r == "undefined"
    ensures 0 <= i < |candidates| ==> r == candidates[i]
    ensures !(0 <= i < |candidates|) ==> r == "undefined"
  {
    if 0 <= i < |candidates| then candidates[i] else "undefined"
  }
}
