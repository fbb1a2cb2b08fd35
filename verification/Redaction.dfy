/**
 Masking of text (redact/redactor.go): keep the first and last characters, hide at least so many in between.
 Text is a sequence of characters (the program's runes).
 */
module Redaction {
  function Min(a: int, b: int): int { if a <= b then a else b }

  function Max(a: int, b: int): int { if a >= b then a else b }

  /** A requested count brought into 0..n. */
  function Clamp(count: int, n: nat): nat { Min(Max(count, 0), n) }

  /** How many characters are hidden: all that are not kept, but at least `minMask` where there are as many. */
  function Hidden(n: nat, keepFirst: int, keepLast: int, minMask: int): (hidden: nat)
    ensures hidden <= n
  {
    Max(Clamp(minMask, n), Max(0, n - Clamp(keepFirst, n) - Clamp(keepLast, n)))
  }

  /** How many leading characters stay: what was asked for, as far as the hidden ones leave room. */
  function Leading(n: nat, keepFirst: int, keepLast: int, minMask: int): (leading: nat)
    ensures leading + Hidden(n, keepFirst, keepLast, minMask) <= n
  {
    Min(Clamp(keepFirst, n), n - Hidden(n, keepFirst, keepLast, minMask))
  }

  function Repeat(text: string, count: nat): (all: string)
    ensures |all| == |text| * count
    ensures |text| == 1 ==> forall i :: 0 <= i < count ==> all[i] == text[0]
  {
    if count == 0 then "" else Repeat(text, count - 1) + text
  }

  lemma AtLeastOne(length: nat, n: nat)
    requires n >= 1
    ensures n * length >= length
  {
    assert (n - 1) * length >= 0;
  }

  lemma PlaceInside(length: nat, count: nat, k: nat, j: nat)
    requires k < count && j < length
    ensures k * length + j < length * count
  {
    AtLeastOne(length, count - k);
    assert (count - k) * length == count * length - k * length;
  }

  /** A repeated text reads like the text, over and over. */
  lemma {:induction false} RepeatedAt(text: string, count: nat, k: nat, j: nat)
    requires k < count && j < |text|
    ensures k * |text| + j < |Repeat(text, count)| && Repeat(text, count)[k * |text| + j] == text[j]
    decreases count
  {
    var before := Repeat(text, count - 1);
    if k == count - 1 {
      assert k * |text| == |before|;
    } else {
      RepeatedAt(text, count - 1, k, j);
    }
    PlaceInside(|text|, count, k, j);
  }

  /** The masked text. */
  function Masked(value: string, keepFirst: int, keepLast: int, minMask: int, maskChar: string): string {
    var n := |value|;
    var hidden := Hidden(n, keepFirst, keepLast, minMask);
    var leading := Leading(n, keepFirst, keepLast, minMask);
    if hidden == 0 then value
    else value[..leading] + Repeat(maskChar, hidden) + value[leading + hidden..]
  }

  lemma MaskedIs(value: string, keepFirst: int, keepLast: int, minMask: int, maskChar: string)
    ensures var hidden := Hidden(|value|, keepFirst, keepLast, minMask);
            var leading := Leading(|value|, keepFirst, keepLast, minMask);
            Masked(value, keepFirst, keepLast, minMask, maskChar) ==
            if hidden == 0 then value
            else value[..leading] + Repeat(maskChar, hidden) + value[leading + hidden..]
  {
  }

  /** What the adjustment of the clamped bounds amounts to. */
  lemma AdjustedBounds(n: nat, keepFirst: int, keepLast: int, minMask: int, first: nat, last: nat)
    requires var before := Clamp(keepFirst, n);
             var after := Min(Max(keepLast, 0), n - before);
             var need := Clamp(minMask, n) - (n - before - after);
             if need <= 0 then first == before && last == after
             else if need <= after then first == before && last == after - need
             else first == Max(0, before - (need - after)) && last == 0
    ensures n - first - last == Hidden(n, keepFirst, keepLast, minMask)
    ensures first == Leading(n, keepFirst, keepLast, minMask)
  {
  }

  /** The program's step-by-step adjustment of the bounds. */
  method MaskWithMin(value: string, keepFirst: int, keepLast: int, minMask: int, maskChar: string)
    returns (masked: string)
    ensures masked == Masked(value, keepFirst, keepLast, minMask, maskChar)
  {
    MaskedIs(value, keepFirst, keepLast, minMask, maskChar);
    hide Repeat, Hidden, Leading, Masked;
    var n := |value|;
    if n == 0 {
      return value;
    }
    var first, last, least := keepFirst, keepLast, minMask;
    if first < 0 {
      first := 0;
    }
    if last < 0 {
      last := 0;
    }
    if least < 0 {
      least := 0;
    }
    if first > n {
      first := n;
    }
    if last > n - first {
      last := n - first;
    }
    if least > n {
      least := n;
    }
    var hidden := n - first - last;
    if hidden < least {
      var need := least - hidden;
      if need <= last {
        last := last - need;
      } else {
        need := need - last;
        last := 0;
        if need > first {
          first := 0;
        } else {
          first := first - need;
        }
      }
    }
    hidden := n - first - last;
    AdjustedBounds(n, keepFirst, keepLast, minMask, first, last);
    if hidden == 0 {
      return value;
    }
    assert n - last == first + hidden;
    masked := value[..first] + Repeat(maskChar, hidden) + value[n - last..];
  }

  /** What a one-character mask shows: the same length, and each character itself or the mask. */
  lemma MaskedAt(value: string, keepFirst: int, keepLast: int, minMask: int, maskChar: string, i: nat)
    requires |maskChar| == 1 && i < |value|
    ensures var n := |value|;
            var leading := Leading(n, keepFirst, keepLast, minMask);
            var masked := Masked(value, keepFirst, keepLast, minMask, maskChar);
            |masked| == n
            && masked[i] == if leading <= i < leading + Hidden(n, keepFirst, keepLast, minMask)
                            then maskChar[0] else value[i]
  {
  }

  /** Whatever the bounds, at least `minMask` characters, or all there are, are hidden. */
  lemma EnoughIsHidden(n: nat, keepFirst: int, keepLast: int, minMask: int)
    ensures Hidden(n, keepFirst, keepLast, minMask) >= Min(minMask, n)
    ensures Leading(n, keepFirst, keepLast, minMask) <= Max(keepFirst, 0)
    ensures n - Leading(n, keepFirst, keepLast, minMask) - Hidden(n, keepFirst, keepLast, minMask) <= Max(keepLast, 0)
  {
  }

  /**
   Nothing is hidden in vain: of all ways to keep a beginning and an end, none longer than asked for, that hide
   at least `minMask` characters or all there are, the mask keeps the most, and the longest beginning.
   */
  lemma KeepsTheMost(n: nat, keepFirst: int, keepLast: int, minMask: int, first: nat, last: nat)
    requires first + last <= n && first <= Max(keepFirst, 0) && last <= Max(keepLast, 0)
    requires n - first - last >= Min(minMask, n)
    ensures first + last <= n - Hidden(n, keepFirst, keepLast, minMask)
    ensures first <= Leading(n, keepFirst, keepLast, minMask)
  {
  }

  /** Masking a masked text changes nothing. */
  lemma MaskIsIdempotent(value: string, keepFirst: int, keepLast: int, minMask: int, maskChar: string)
    requires |maskChar| == 1
    ensures var masked := Masked(value, keepFirst, keepLast, minMask, maskChar);
            Masked(masked, keepFirst, keepLast, minMask, maskChar) == masked
  {
    hide Masked, Hidden, Leading;
    var once := Masked(value, keepFirst, keepLast, minMask, maskChar);
    var twice := Masked(once, keepFirst, keepLast, minMask, maskChar);
    SameLength(value, keepFirst, keepLast, minMask, maskChar);
    SameLength(once, keepFirst, keepLast, minMask, maskChar);
    forall i | 0 <= i < |once| ensures twice[i] == once[i] {
      MaskedAt(value, keepFirst, keepLast, minMask, maskChar, i);
      MaskedAt(once, keepFirst, keepLast, minMask, maskChar, i);
    }
    assert twice == once;
  }

  lemma SameLength(value: string, keepFirst: int, keepLast: int, minMask: int, maskChar: string)
    requires |maskChar| == 1
    ensures |Masked(value, keepFirst, keepLast, minMask, maskChar)| == |value|
  {
  }

  lemma MaskedLength(value: string, keepFirst: int, keepLast: int, minMask: int, maskChar: string)
    ensures var hidden := Hidden(|value|, keepFirst, keepLast, minMask);
            |Masked(value, keepFirst, keepLast, minMask, maskChar)| == |value| - hidden + |maskChar| * hidden
  {
  }

  lemma OneLengthOnly(length: nat, hidden: nat)
    requires hidden > 0 && length * hidden == hidden
    ensures length == 1
  {
    assert (length - 1) * hidden == 0;
  }

  /** Exactly when masking again changes nothing: a one-character mask, or nothing left to hide. */
  lemma IdempotentExactly(value: string, keepFirst: int, keepLast: int, minMask: int, maskChar: string)
    ensures var masked := Masked(value, keepFirst, keepLast, minMask, maskChar);
            Masked(masked, keepFirst, keepLast, minMask, maskChar) == masked <==>
            |maskChar| == 1 || Hidden(|masked|, keepFirst, keepLast, minMask) == 0
  {
    var masked := Masked(value, keepFirst, keepLast, minMask, maskChar);
    var hidden := Hidden(|masked|, keepFirst, keepLast, minMask);
    if |maskChar| == 1 {
      MaskIsIdempotent(value, keepFirst, keepLast, minMask, maskChar);
    } else if hidden > 0 {
      MaskedLength(masked, keepFirst, keepLast, minMask, maskChar);
      if |maskChar| * hidden == hidden {
        OneLengthOnly(|maskChar|, hidden);
      }
    }
  }
}
