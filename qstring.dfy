/**
 * Qt's QString::arg(a) on the place markers %0 to %9: it replaces every
 * occurrence of the lowest-numbered marker in the whole string by a, and
 * leaves the string as it is when it holds no marker.
 */
module QtString {
  import opened Wrappers

  predicate IsDigit(ch: char)
  {
    '0' <= ch <= '9'
  }

  function DigitValue(ch: char): (d: nat)
    requires IsDigit(ch)
    ensures d < 10
  {
    ch as int - '0' as int
  }

  /** s starts with a place marker: a '%' followed by a digit. */
  predicate MarkerAt(s: string)
  {
    |s| >= 2 && s[0] == '%' && IsDigit(s[1])
  }

  function Min(a: Option<nat>, b: Option<nat>): Option<nat>
  {
    match (a, b)
    case (None, _) => b
    case (_, None) => a
    case (Some(x), Some(y)) => if x <= y then a else b
  }

  /** The number of the lowest place marker in s, scanning left to right. */
  function LowestMarker(s: string): (m: Option<nat>)
    ensures m.Some? ==> m.value < 10
    ensures '%' !in s ==> m == None
    decreases |s|
  {
    if |s| < 2 then None
    else if MarkerAt(s) then Min(Some(DigitValue(s[1])), LowestMarker(s[2..]))
    else LowestMarker(s[1..])
  }

  /** s with every place marker numbered d replaced by a; a itself is not rescanned. */
  function ReplaceMarker(s: string, d: nat, a: string): string
    decreases |s|
  {
    if s == [] then []
    else if MarkerAt(s) then (if DigitValue(s[1]) == d then a else s[..2]) + ReplaceMarker(s[2..], d, a)
    else [s[0]] + ReplaceMarker(s[1..], d, a)
  }

  /** QString::arg with one argument. */
  function Arg(s: string, a: string): string
  {
    match LowestMarker(s)
    case None => s
    case Some(d) => ReplaceMarker(s, d, a)
  }

  /** Dropping the first character of a prefix without '%' leaves a prefix without '%'. */
  lemma PlainTail(x: string, y: string)
    requires '%' !in x && x != []
    ensures x[0] != '%' && '%' !in x[1..] && (x + y)[1..] == x[1..] + y && (x + y)[0] == x[0]
  {
    forall k | 0 <= k < |x[1..]| ensures x[1..][k] != '%' { assert x[1..][k] == x[k + 1]; }
  }

  /** A prefix without '%' holds no place marker. */
  lemma {:induction false} PlainPrefixHasNoMarker(x: string, y: string)
    requires '%' !in x
    ensures LowestMarker(x + y) == LowestMarker(y)
  {
    if x != [] {
      PlainTail(x, y);
      PlainPrefixHasNoMarker(x[1..], y);
      var s := x + y;
      assert !MarkerAt(s);
      if |s| < 2 {
        assert y == [] && x[1..] + y == [];
      } else {
        assert LowestMarker(s) == LowestMarker(x[1..] + y);
      }
    } else {
      assert x + y == y;
    }
  }

  /** A prefix without '%' passes through replacement untouched. */
  lemma {:induction false} PlainPrefixIsKept(x: string, y: string, d: nat, a: string)
    requires '%' !in x
    ensures ReplaceMarker(x + y, d, a) == x + ReplaceMarker(y, d, a)
  {
    if x != [] {
      PlainTail(x, y);
      PlainPrefixIsKept(x[1..], y, d, a);
      var s := x + y;
      assert !MarkerAt(s);
      assert ReplaceMarker(s, d, a) == [x[0]] + ReplaceMarker(x[1..] + y, d, a);
      assert x == [x[0]] + x[1..];
    } else {
      assert x + y == y;
    }
  }

  /** A leading marker %c counts towards the lowest marker. */
  lemma MarkerFirst(c: char, y: string, d: nat, a: string)
    requires IsDigit(c)
    ensures LowestMarker(['%', c] + y) == Min(Some(DigitValue(c)), LowestMarker(y))
    ensures ReplaceMarker(['%', c] + y, d, a) == (if DigitValue(c) == d then a else ['%', c]) + ReplaceMarker(y, d, a)
  {
    var s := ['%', c] + y;
    assert MarkerAt(s) && s[1] == c && s[2..] == y && s[..2] == ['%', c];
  }

  // Place markers by position, independently of the left-to-right scan

  /**
   * No '%' of s is followed by 'L' or by a character outside ASCII, so Qt's
   * %L form and its non-ASCII decimal digits, which this model does not read
   * as markers, do not occur.
   */
  predicate NoOtherMarkerForms(s: string)
  {
    forall i :: 0 <= i < |s| - 1 && s[i] == '%' ==> s[i + 1] != 'L' && (s[i + 1] as int) < 128
  }

  /** Position i of s starts a place marker: a '%' followed by a digit. */
  predicate IsMarker(s: string, i: int)
  {
    0 <= i && i + 1 < |s| && s[i] == '%' && IsDigit(s[i + 1])
  }

  /** The number of the place marker at position i. */
  function Number(s: string, i: int): nat
    requires IsMarker(s, i)
  {
    DigitValue(s[i + 1])
  }

  /** Markers of a tail of s are the markers of s, shifted. */
  lemma MarkerShift(s: string, k: nat, i: nat)
    requires k <= |s|
    ensures IsMarker(s[k..], i) <==> IsMarker(s, i + k)
    ensures IsMarker(s[k..], i) ==> Number(s[k..], i) == Number(s, i + k)
  {
    if i + 1 < |s| - k {
      assert s[k..][i] == s[i + k] && s[k..][i + 1] == s[i + k + 1];
    }
  }

  /**
   * LowestMarker finds the least-numbered place marker of s: there is none
   * exactly when no position starts a marker, and otherwise some marker
   * carries that number and no marker carries a lower one.
   */
  lemma {:induction false} LowestMarkerIsLeast(s: string)
    ensures LowestMarker(s).None? <==> forall i :: !IsMarker(s, i)
    ensures LowestMarker(s).Some? ==> exists i :: IsMarker(s, i) && Number(s, i) == LowestMarker(s).value
    ensures LowestMarker(s).Some? ==> forall i :: IsMarker(s, i) ==> LowestMarker(s).value <= Number(s, i)
    decreases |s|
  {
    if |s| < 2 {
    } else if MarkerAt(s) {
      var t := s[2..];
      LowestMarkerIsLeast(t);
      assert IsMarker(s, 0) && Number(s, 0) == DigitValue(s[1]);
      var m := LowestMarker(s);
      if LowestMarker(t).Some? && LowestMarker(t).value < DigitValue(s[1]) {
        var j :| IsMarker(t, j) && Number(t, j) == LowestMarker(t).value;
        MarkerShift(s, 2, j);
      }
      forall i | IsMarker(s, i) ensures m.value <= Number(s, i) {
        if i >= 2 {
          MarkerShift(s, 2, i - 2);
        }
      }
    } else {
      var t := s[1..];
      LowestMarkerIsLeast(t);
      assert !IsMarker(s, 0);
      forall i | IsMarker(s, i) ensures i >= 1 && IsMarker(t, i - 1) && Number(t, i - 1) == Number(s, i) {
        MarkerShift(s, 1, i - 1);
      }
      if LowestMarker(t).Some? {
        var j :| IsMarker(t, j) && Number(t, j) == LowestMarker(t).value;
        MarkerShift(s, 1, j);
      }
    }
  }

  /** Replacement leaves a string alone when none of its markers carries the number d. */
  lemma {:induction false} ReplaceKeepsUnmarked(s: string, d: nat, a: string)
    requires forall i :: IsMarker(s, i) ==> Number(s, i) != d
    ensures ReplaceMarker(s, d, a) == s
    decreases |s|
  {
    if s == [] {
    } else if MarkerAt(s) {
      var t := s[2..];
      forall i | IsMarker(t, i) ensures Number(t, i) != d {
        MarkerShift(s, 2, i);
      }
      ReplaceKeepsUnmarked(t, d, a);
      assert IsMarker(s, 0);
      assert s == s[..2] + t;
    } else {
      var t := s[1..];
      forall i | IsMarker(t, i) ensures Number(t, i) != d {
        MarkerShift(s, 1, i);
      }
      ReplaceKeepsUnmarked(t, d, a);
      assert s == [s[0]] + t;
    }
  }

  lemma AppendIsAssociative(p: string, q: string, r: string)
    ensures p + (q + r) == (p + q) + r
  {
  }

  /** Replacement works piecewise across a boundary that no marker straddles. */
  lemma {:induction false} ReplaceConcat(x: string, z: string, d: nat, a: string)
    requires z != [] ==> !IsDigit(z[0])
    ensures ReplaceMarker(x + z, d, a) == ReplaceMarker(x, d, a) + ReplaceMarker(z, d, a)
    decreases |x|
  {
    var s := x + z;
    if x == [] {
      assert s == z;
      assert ReplaceMarker(x, d, a) == [];
      assert ReplaceMarker(x, d, a) + ReplaceMarker(z, d, a) == ReplaceMarker(z, d, a);
    } else if |x| == 1 {
      assert !MarkerAt(x) && x[1..] == [];
      assert ReplaceMarker(x, d, a) == [x[0]] + ReplaceMarker([], d, a) == [x[0]];
      assert !MarkerAt(s) && s[1..] == z;
      assert ReplaceMarker(s, d, a) == [x[0]] + ReplaceMarker(z, d, a);
      assert ReplaceMarker(s, d, a) == ReplaceMarker(x, d, a) + ReplaceMarker(z, d, a);
    } else if MarkerAt(x) {
      assert s[..2] == x[..2] && s[2..] == x[2..] + z && MarkerAt(s) && s[1] == x[1];
      var head := if DigitValue(x[1]) == d then a else x[..2];
      ReplaceConcat(x[2..], z, d, a);
      assert ReplaceMarker(s, d, a) == head + ReplaceMarker(x[2..] + z, d, a);
      assert ReplaceMarker(x, d, a) == head + ReplaceMarker(x[2..], d, a);
      AppendIsAssociative(head, ReplaceMarker(x[2..], d, a), ReplaceMarker(z, d, a));
      assert ReplaceMarker(s, d, a) == ReplaceMarker(x, d, a) + ReplaceMarker(z, d, a);
    } else {
      assert s[0] == x[0] && s[1] == x[1] && !MarkerAt(s) && s[1..] == x[1..] + z;
      ReplaceConcat(x[1..], z, d, a);
      assert ReplaceMarker(s, d, a) == [x[0]] + ReplaceMarker(x[1..] + z, d, a);
      assert ReplaceMarker(x, d, a) == [x[0]] + ReplaceMarker(x[1..], d, a);
      assert ReplaceMarker(s, d, a) == ReplaceMarker(x, d, a) + ReplaceMarker(z, d, a);
    }
  }

  /**
   * A marker %c in the middle of the string is replaced by a when it carries
   * the number d and kept otherwise; the text on either side is processed on
   * its own, so what a holds is never rescanned.
   */
  lemma ReplaceSplitsAtMarker(x: string, c: char, y: string, d: nat, a: string)
    requires IsDigit(c)
    ensures ReplaceMarker(x + ['%', c] + y, d, a)
         == ReplaceMarker(x, d, a) + (if DigitValue(c) == d then a else ['%', c]) + ReplaceMarker(y, d, a)
  {
    var mid := if DigitValue(c) == d then a else ['%', c];
    ReplaceConcat(x, ['%', c] + y, d, a);
    MarkerFirst(c, y, d, a);
    AppendIsAssociative(x, ['%', c], y);
    AppendIsAssociative(ReplaceMarker(x, d, a), mid, ReplaceMarker(y, d, a));
  }

  /** arg leaves a string without place markers as it is. */
  lemma ArgWithoutMarkers(s: string, a: string)
    requires forall i :: !IsMarker(s, i)
    ensures Arg(s, a) == s
  {
    LowestMarkerIsLeast(s);
  }

  /**
   * arg replaces the first occurrence of the lowest-numbered marker %c by a,
   * keeps the text before it, and treats the text after it the same way,
   * without looking into a.
   */
  lemma ArgFillsFirstLowest(x: string, c: char, y: string, a: string)
    requires IsDigit(c)
    requires forall i :: IsMarker(x + ['%', c] + y, i) ==> DigitValue(c) <= Number(x + ['%', c] + y, i)
    requires forall i :: IsMarker(x, i) ==> Number(x, i) != DigitValue(c)
    ensures Arg(x + ['%', c] + y, a) == x + a + ReplaceMarker(y, DigitValue(c), a)
  {
    var s := x + ['%', c] + y;
    LowestMarkerIsLeast(s);
    assert s[|x|] == '%' && s[|x| + 1] == c;
    assert IsMarker(s, |x|) && Number(s, |x|) == DigitValue(c);
    assert LowestMarker(s) == Some(DigitValue(c));
    ReplaceSplitsAtMarker(x, c, y, DigitValue(c), a);
    ReplaceKeepsUnmarked(x, DigitValue(c), a);
    assert Arg(s, a) == ReplaceMarker(s, DigitValue(c), a);
  }

  /** Text with no '%' that does not start with a digit adds no marker after n. */
  lemma MarkersOfPlainTail(n: string, t: string, k: nat)
    requires '%' !in t && (t == [] || !IsDigit(t[0]))
    requires forall i :: IsMarker(n, i) ==> Number(n, i) >= k
    ensures forall i :: IsMarker(n + t, i) ==> Number(n + t, i) >= k
  {
    var x := n + t;
    forall i ensures IsMarker(x, i) ==> Number(x, i) >= k {
      if 0 <= i < |n| - 1 {
        assert x[i] == n[i] && x[i + 1] == n[i + 1];
        assert IsMarker(x, i) ==> IsMarker(n, i);
      } else if 0 <= i == |n| - 1 && t != [] {
        assert x[i + 1] == t[0];
      } else if |n| <= i < |x| {
        assert x[i] == t[i - |n|];
      }
    }
  }

  /**
   * When every marker of n is numbered above c, arg on n + t + "%c" fills
   * the trailing %c and leaves n as it is.
   */
  lemma ArgFillsTrailingMarker(n: string, t: string, c: char, a: string)
    requires IsDigit(c)
    requires '%' !in t && t != [] && !IsDigit(t[0])
    requires forall i :: IsMarker(n, i) ==> Number(n, i) > DigitValue(c)
    ensures Arg(n + t + ['%', c], a) == n + t + a
  {
    var x := n + t;
    MarkersOfPlainTail(n, t, DigitValue(c) + 1);
    var s := x + ['%', c] + [];
    forall i ensures IsMarker(s, i) ==> DigitValue(c) <= Number(s, i) {
      if 0 <= i < |x| - 1 {
        assert s[i] == x[i] && s[i + 1] == x[i + 1];
        assert IsMarker(s, i) ==> IsMarker(x, i);
      } else if 0 <= i == |x| - 1 {
        assert s[i] == t[|t| - 1];
      }
    }
    assert s == x + ['%', c];
    ArgFillsFirstLowest(x, c, [], a);
    assert ReplaceMarker([], DigitValue(c), a) == [];
  }
}
