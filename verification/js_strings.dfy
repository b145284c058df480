/** JavaScript strings and the relational operator `<` on them.

    A JavaScript string is a sequence of UTF-16 code units, and `a < b`
    compares two strings code unit by code unit: the first position where
    they differ decides, and a proper prefix is smaller than the longer
    string. `a > b` is `b < a`. */
module JsStrings {

  /** One UTF-16 code unit. */
  newtype CodeUnit = x: int | 0 <= x < 0x1_0000

  type JsString = seq<CodeUnit>

  /** The value of `a < b` for two JavaScript strings. */
  predicate Less(a: JsString, b: JsString)
    decreases |a|
  {
    if |a| == 0 then |b| > 0
    else if |b| == 0 then false
    else if a[0] != b[0] then a[0] < b[0]
    else Less(a[1..], b[1..])
  }

  /** Reference definition of the same order: `a` is a proper prefix of `b`,
      or `a` has the smaller code unit at the first position where they differ. */
  ghost predicate LessByFirstDifference(a: JsString, b: JsString)
  {
    || (|a| < |b| && a == b[..|a|])
    || exists k :: 0 <= k < |a| && k < |b| && a[..k] == b[..k] && a[k] < b[k]
  }

  /** The recursive comparison is exactly the first-difference order. */
  lemma {:induction false} LessIsFirstDifference(a: JsString, b: JsString)
    ensures Less(a, b) <==> LessByFirstDifference(a, b)
    decreases |a|
  {
    if |a| == 0 || |b| == 0 {
      if |a| == 0 && |b| > 0 {
        assert a == b[..0];
      }
    } else if a[0] != b[0] {
      if a[0] < b[0] {
        assert a[..0] == b[..0];
      }
    } else {
      var a', b' := a[1..], b[1..];
      LessIsFirstDifference(a', b');
      // The prefix disjunct moves one position.
      if |a| < |b| && a == b[..|a|] {
        assert a' == b'[..|a'|];
      }
      if |a'| < |b'| && a' == b'[..|a'|] {
        assert a == [a[0]] + a' && b[..|a|] == [b[0]] + b'[..|a'|];
      }
      // The first-difference disjunct moves one position.
      if k :| 0 <= k < |a| && k < |b| && a[..k] == b[..k] && a[k] < b[k] {
        assert k > 0;
        assert a'[..k - 1] == a[1..k] == b[1..k] == b'[..k - 1];
        assert a'[k - 1] < b'[k - 1];
      }
      if k :| 0 <= k < |a'| && k < |b'| && a'[..k] == b'[..k] && a'[k] < b'[k] {
        assert a[..k + 1] == [a[0]] + a'[..k] && b[..k + 1] == [b[0]] + b'[..k];
        assert a[k + 1] < b[k + 1];
      }
    }
  }

  lemma {:induction false} LessIrreflexive(a: JsString)
    ensures !Less(a, a)
    decreases |a|
  {
    if |a| > 0 {
      LessIrreflexive(a[1..]);
    }
  }

  lemma {:induction false} LessAsymmetric(a: JsString, b: JsString)
    ensures Less(a, b) ==> !Less(b, a)
    decreases |a|
  {
    if |a| > 0 && |b| > 0 && a[0] == b[0] {
      LessAsymmetric(a[1..], b[1..]);
    }
  }

  lemma {:induction false} LessTransitive(a: JsString, b: JsString, c: JsString)
    requires Less(a, b) && Less(b, c)
    ensures Less(a, c)
    decreases |a|
  {
    if |a| > 0 && a[0] == b[0] && b[0] == c[0] {
      LessTransitive(a[1..], b[1..], c[1..]);
    }
  }

  /** Any two strings are equal or ordered one way or the other. */
  lemma {:induction false} LessTrichotomous(a: JsString, b: JsString)
    ensures a == b || Less(a, b) || Less(b, a)
    decreases |a|
  {
    if |a| > 0 && |b| > 0 && a[0] == b[0] {
      LessTrichotomous(a[1..], b[1..]);
      if a[1..] == b[1..] {
        assert a == [a[0]] + a[1..] && b == [b[0]] + b[1..];
      }
    }
  }
}
