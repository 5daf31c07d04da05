/** Strings as JavaScript sees them: comparison by code unit, fixed-width decimal fields, splitting at a mark. */
module Text {

  /** The `<` of two strings: the first differing character decides, and a proper prefix is smaller. */
  predicate Less(a: string, b: string) {
    b != "" && (a == "" || a[0] < b[0] || (a[0] == b[0] && Less(a[1..], b[1..])))
  }

  lemma LessIrreflexive(a: string)
    ensures !Less(a, a)
  {
  }

  lemma {:induction false} LessTransitive(a: string, b: string, c: string)
    requires Less(a, b) && Less(b, c)
    ensures Less(a, c)
  {
    if a != "" && a[0] == b[0] && b[0] == c[0] {
      LessTransitive(a[1..], b[1..], c[1..]);
    }
  }

  lemma {:induction false} LessTotal(a: string, b: string)
    ensures a == b || Less(a, b) || Less(b, a)
  {
    if a != "" && b != "" && a[0] == b[0] {
      LessTotal(a[1..], b[1..]);
    }
  }

  /** A difference inside equally long heads decides the comparison, whatever follows. */
  lemma {:induction false} LessByHead(a: string, b: string, x: string, y: string)
    requires |a| == |b| && Less(a, b)
    ensures Less(a + x, b + y)
  {
    assert (a + x)[0] == a[0] && (b + y)[0] == b[0];
    if a[0] == b[0] {
      LessByHead(a[1..], b[1..], x, y);
      assert (a + x)[1..] == a[1..] + x && (b + y)[1..] == b[1..] + y;
    }
  }

  /** A common head does not matter. */
  lemma {:induction false} LessByTail(p: string, x: string, y: string)
    ensures Less(p + x, p + y) <==> Less(x, y)
  {
    if p == "" {
      assert p + x == x && p + y == y;
    } else {
      LessByTail(p[1..], x, y);
      assert (p + x)[1..] == p[1..] + x && (p + y)[1..] == p[1..] + y;
    }
  }

  function Digit(n: nat): (c: char)
    requires n < 10
    ensures '0' <= c <= '9' && c as int - '0' as int == n
  {
    '0' + n as char
  }

  function Pow10(w: nat): (p: nat)
    ensures p >= 1
  {
    if w == 0 then 1 else 10 * Pow10(w - 1)
  }

  /** `n` in decimal, padded with zeros to `w` characters. */
  function Pad(n: nat, w: nat): (s: string)
    ensures |s| == w
  {
    if w == 0 then "" else Pad(n / 10, w - 1) + [Digit(n % 10)]
  }

  lemma {:induction false} PadIsDigits(n: nat, w: nat)
    ensures forall c <- Pad(n, w) :: '0' <= c <= '9'
  {
    if w > 0 {
      PadIsDigits(n / 10, w - 1);
    }
  }

  /** Fixed-width decimals compare as the numbers do. */
  lemma {:induction false} PadMonotone(a: nat, b: nat, w: nat)
    requires a < b < Pow10(w)
    ensures Less(Pad(a, w), Pad(b, w))
  {
    if a / 10 < b / 10 {
      PadMonotone(a / 10, b / 10, w - 1);
      LessByHead(Pad(a / 10, w - 1), Pad(b / 10, w - 1), [Digit(a % 10)], [Digit(b % 10)]);
    } else {
      LessByTail(Pad(a / 10, w - 1), [Digit(a % 10)], [Digit(b % 10)]);
    }
  }

  lemma PadInjective(a: nat, b: nat, w: nat)
    requires a < Pow10(w) && b < Pow10(w)
    ensures Pad(a, w) == Pad(b, w) <==> a == b
  {
    if a < b {
      PadMonotone(a, b, w);
      LessIrreflexive(Pad(a, w));
    } else if b < a {
      PadMonotone(b, a, w);
      LessIrreflexive(Pad(b, w));
    }
  }

  /** Two strings joined at the first occurrence of a mark are equal exactly when both parts are. */
  lemma {:induction false} SplitAtMark(a: string, b: string, mark: char, x: string, y: string)
    requires mark !in a && mark !in b
    ensures a + [mark] + x == b + [mark] + y <==> a == b && x == y
  {
    var s, t := a + [mark] + x, b + [mark] + y;
    if s == t {
      assert s[|a|] == mark && t[|b|] == mark;
      assert forall i :: 0 <= i < |a| ==> s[i] == a[i];
      assert forall i :: 0 <= i < |b| ==> t[i] == b[i];
      assert |a| == |b|;
      assert s[..|a|] == a && t[..|b|] == b;
      assert s[|a| + 1..] == x && t[|b| + 1..] == y;
    }
  }
}
