/** Regular expressions, and the patterns of the source as such. */
module Patterns {

  import opened TextSearch
  import opened SkillRegistry
  import opened SkillOwnership
  import ClientAddress

  /** A pattern between `^` and `$`. */
  datatype Pattern =
    | Chars(ok: char -> bool)
    | Exactly(text: string)
    | Then(first: Pattern, second: Pattern)
    | Either(left: Pattern, right: Pattern)
    | Many(one: Pattern)
    | Times(one: Pattern, n: nat)

  /** The whole text matches. */
  ghost predicate Accepts(p: Pattern, s: string)
    decreases p, 0, |s|
  {
    match p
    case Chars(ok) => |s| == 1 && ok(s[0])
    case Exactly(text) => s == text
    case Then(first, second) => exists k | 0 <= k <= |s| :: Accepts(first, s[..k]) && Accepts(second, s[k..])
    case Either(left, right) => Accepts(left, s) || Accepts(right, s)
    case Many(one) => s == "" || exists k | 0 < k <= |s| :: Accepts(one, s[..k]) && Accepts(p, s[k..])
    case Times(one, n) => Repeats(one, s, n)
  }

  /** `n` texts one behind the other match. */
  ghost predicate Repeats(p: Pattern, s: string, n: nat)
    decreases p, 1, n
  {
    if n == 0 then s == "" else exists k | 0 <= k <= |s| :: Accepts(p, s[..k]) && Repeats(p, s[k..], n - 1)
  }

  lemma ThenAt(first: Pattern, second: Pattern, s: string, k: nat)
    requires k <= |s|
    ensures Accepts(first, s[..k]) && Accepts(second, s[k..]) ==> Accepts(Then(first, second), s)
  {
  }

  lemma TimesIsRepeats(p: Pattern, s: string, n: nat)
    ensures Accepts(Times(p, n), s) <==> Repeats(p, s, n)
  {
  }

  // Runs of characters

  lemma AllBehind(ok: char -> bool, s: string, k: nat)
    requires k <= |s|
    ensures AreAll(ok, s) <==> AreAll(ok, s[..k]) && AreAll(ok, s[k..])
  {
    assert s == s[..k] + s[k..];
    forall i | k <= i < |s|
      ensures s[i] == s[k..][i - k]
    {
    }
  }

  predicate AreAll(ok: char -> bool, s: string) {
    forall i | 0 <= i < |s| :: ok(s[i])
  }

  lemma {:induction false} ManyChars(ok: char -> bool, s: string)
    ensures Accepts(Many(Chars(ok)), s) <==> AreAll(ok, s)
    decreases |s|
  {
    if s != "" {
      ManyChars(ok, s[1..]);
      AllBehind(ok, s, 1);
      if AreAll(ok, s) {
        assert Accepts(Chars(ok), s[..1]) && Accepts(Many(Chars(ok)), s[1..]);
      }
      if Accepts(Many(Chars(ok)), s) {
        var k :| 0 < k <= |s| && Accepts(Chars(ok), s[..k]) && Accepts(Many(Chars(ok)), s[k..]);
        assert k == 1;
      }
    }
  }

  lemma {:induction false} CharsTimes(ok: char -> bool, s: string, n: nat)
    ensures Repeats(Chars(ok), s, n) <==> |s| == n && AreAll(ok, s)
    decreases n
  {
    if n > 0 {
      if |s| == n && AreAll(ok, s) {
        AllBehind(ok, s, 1);
        CharsTimes(ok, s[1..], n - 1);
        assert Accepts(Chars(ok), s[..1]) && Repeats(Chars(ok), s[1..], n - 1);
      }
      if Repeats(Chars(ok), s, n) {
        var k :| 0 <= k <= |s| && Accepts(Chars(ok), s[..k]) && Repeats(Chars(ok), s[k..], n - 1);
        assert k == 1;
        CharsTimes(ok, s[1..], n - 1);
        AllBehind(ok, s, 1);
      }
    }
  }

  lemma TimesChars(ok: char -> bool, s: string, n: nat)
    ensures Accepts(Times(Chars(ok), n), s) <==> |s| == n && AreAll(ok, s)
  {
    CharsTimes(ok, s, n);
  }

  function Plus(ok: char -> bool): Pattern {
    Then(Chars(ok), Many(Chars(ok)))
  }

  lemma PlusChars(ok: char -> bool, s: string)
    ensures Accepts(Plus(ok), s) <==> s != "" && AreAll(ok, s)
  {
    if s != "" && AreAll(ok, s) {
      ManyChars(ok, s[1..]);
      assert Accepts(Chars(ok), s[..1]) && Accepts(Many(Chars(ok)), s[1..]);
    }
    if Accepts(Plus(ok), s) {
      var k :| 0 <= k <= |s| && Accepts(Chars(ok), s[..k]) && Accepts(Many(Chars(ok)), s[k..]);
      ManyChars(ok, s[k..]);
      AllBehind(ok, s, k);
    }
  }

  // Pieces between marks

  ghost predicate Free(p: Pattern, mark: char) {
    forall s | Accepts(p, s) :: mark !in s
  }

  ghost predicate PartsMatch(p: Pattern, parts: seq<string>) {
    forall part | part in parts :: Accepts(p, part)
  }

  lemma SplitHead(s: string, mark: char)
    ensures var parts := Split(s, mark);
            if |parts| == 1 then s == parts[0]
            else |parts[0]| < |s| && s == parts[0] + [mark] + s[|parts[0]| + 1..]
                 && Split(s[|parts[0]| + 1..], mark) == parts[1..]
  {
    var parts := Split(s, mark);
    JoinOfSplit(s, mark);
    if |parts| > 1 {
      var rest := Join(parts[1..], mark);
      SplitOfJoin(parts[1..], mark);
      assert s == parts[0] + [mark] + rest && s[|parts[0]| + 1..] == rest;
    }
  }

  function Marked(mark: char, p: Pattern): Pattern {
    Then(Exactly([mark]), p)
  }

  lemma MarkedIff(mark: char, p: Pattern, s: string)
    ensures Accepts(Marked(mark, p), s) <==> s != "" && s[0] == mark && Accepts(p, s[1..])
  {
    if Accepts(Marked(mark, p), s) {
      var k :| 0 <= k <= |s| && Accepts(Exactly([mark]), s[..k]) && Accepts(p, s[k..]);
      assert s[..k] == [mark];
    }
    if s != "" && s[0] == mark && Accepts(p, s[1..]) {
      assert s[..1] == [mark] && Accepts(Exactly([mark]), s[..1]);
    }
  }

  /** A text splits at a place into a piece and what a mark begins, or it is one piece. */
  lemma SplitsAt(p: Pattern, mark: char, s: string, k: nat)
    requires k <= |s| && mark !in s[..k] && (k == |s| || s[k] == mark)
    ensures Split(s, mark) == [s[..k]] + (if k == |s| then [] else Split(s[k + 1..], mark))
  {
    if k == |s| {
      assert s[..k] == s;
      SplitLast(s, mark);
    } else {
      assert s == s[..k] + [mark] + s[k + 1..];
      SplitFirst(s[..k], s[k + 1..], mark);
    }
  }

  function Pieces(p: Pattern, mark: char): Pattern {
    Then(p, Many(Marked(mark, p)))
  }

  /** Pieces with marks between them: what a split at the marks gives. */
  lemma {:induction false} SeparatedMany(p: Pattern, mark: char, s: string)
    requires Free(p, mark)
    ensures Accepts(Pieces(p, mark), s) <==> PartsMatch(p, Split(s, mark))
    decreases |s|
  {
    if Accepts(Pieces(p, mark), s) {
      var k :| 0 <= k <= |s| && Accepts(p, s[..k]) && Accepts(Many(Marked(mark, p)), s[k..]);
      MoreIff(p, mark, s[k..]);
      SplitsAt(p, mark, s, k);
      if k < |s| {
        assert s[k..][1..] == s[k + 1..];
        SeparatedMany(p, mark, s[k + 1..]);
      }
    } else if PartsMatch(p, Split(s, mark)) {
      SplitHead(s, mark);
      var k := |Split(s, mark)[0]|;
      if k < |s| {
        SeparatedMany(p, mark, s[k + 1..]);
      }
      PartsAreAccepted(p, mark, s);
    }
  }

  lemma PartsAreAccepted(p: Pattern, mark: char, s: string)
    requires PartsMatch(p, Split(s, mark))
    ensures var k := |Split(s, mark)[0]|;
            k <= |s| && ((k < |s| && PartsMatch(p, Split(s[k + 1..], mark)) ==> Accepts(Pieces(p, mark), s[k + 1..]))
                         ==> Accepts(Pieces(p, mark), s))
  {
    SplitHead(s, mark);
    var parts := Split(s, mark);
    var k := |parts[0]|;
    assert s[..k] == parts[0] && Accepts(p, s[..k]);
    if k < |s| {
      assert s[k] == mark && s[k..][1..] == s[k + 1..];
      assert forall part | part in parts[1..] :: part in parts;
    }
    MoreIff(p, mark, s[k..]);
  }

  lemma MoreIff(p: Pattern, mark: char, s: string)
    ensures Accepts(Many(Marked(mark, p)), s) <==>
            s == "" || (s[0] == mark && Accepts(Then(p, Many(Marked(mark, p))), s[1..]))
  {
    var one, more := Marked(mark, p), Many(Marked(mark, p));
    if s != "" && Accepts(more, s) {
      var k :| 0 < k <= |s| && Accepts(one, s[..k]) && Accepts(more, s[k..]);
      MarkMoves(p, mark, more, s, k);
    }
    if s != "" && s[0] == mark && Accepts(Then(p, more), s[1..]) {
      var k :| 0 <= k <= |s| - 1 && Accepts(p, s[1..][..k]) && Accepts(more, s[1..][k..]);
      MarkMovesBack(p, mark, more, s, k);
      assert Accepts(one, s[..k + 1]) && Accepts(more, s[k + 1..]);
    }
  }

  /** A mark and a piece in front of the rest are the mark in front of the piece and the rest. */
  lemma MarkMoves(p: Pattern, mark: char, rest: Pattern, s: string, k: nat)
    requires k <= |s| && Accepts(Marked(mark, p), s[..k]) && Accepts(rest, s[k..])
    ensures s != "" && s[0] == mark && Accepts(Then(p, rest), s[1..])
  {
    MarkedIff(mark, p, s[..k]);
    BehindFirst(s, k);
    ThenAt(p, rest, s[1..], k - 1);
  }

  lemma BehindFirst(s: string, k: nat)
    requires 0 < k <= |s|
    ensures s[..k][0] == s[0] && s[..k][1..] == s[1..][..k - 1] && s[k..] == s[1..][k - 1..]
  {
  }

  lemma MarkMovesBack(p: Pattern, mark: char, rest: Pattern, s: string, k: nat)
    requires s != "" && s[0] == mark && k <= |s| - 1 && Accepts(p, s[1..][..k]) && Accepts(rest, s[1..][k..])
    ensures Accepts(Marked(mark, p), s[..k + 1]) && Accepts(rest, s[k + 1..])
  {
    assert s[..k + 1][1..] == s[1..][..k] && s[k + 1..] == s[1..][k..];
    MarkedIff(mark, p, s[..k + 1]);
  }

  function PiecesTimes(p: Pattern, mark: char, n: nat): Pattern {
    Then(p, Times(Marked(mark, p), n))
  }

  lemma {:induction false} TimesSplits(p: Pattern, mark: char, s: string, n: nat)
    requires Free(p, mark) && Accepts(PiecesTimes(p, mark, n), s)
    ensures PartsMatch(p, Split(s, mark)) && |Split(s, mark)| == n + 1
    decreases n
  {
    var k :| 0 <= k <= |s| && Accepts(p, s[..k]) && Accepts(Times(Marked(mark, p), n), s[k..]);
    TimesIff(p, mark, s[k..], n);
    SplitsAt(p, mark, s, k);
    if n > 0 {
      assert s[k..][1..] == s[k + 1..];
      TimesSplits(p, mark, s[k + 1..], n - 1);
    }
  }

  lemma FirstPart(p: Pattern, mark: char, s: string, n: nat)
    requires PartsMatch(p, Split(s, mark)) && |Split(s, mark)| == n + 1
    ensures var k := |Split(s, mark)[0]|;
            && k <= |s| && Accepts(p, s[..k])
            && (if n == 0 then s[k..] == ""
                else k < |s| && s[k] == mark && PartsMatch(p, Split(s[k + 1..], mark)) && |Split(s[k + 1..], mark)| == n)
  {
    SplitHead(s, mark);
    var parts := Split(s, mark);
    assert s[..|parts[0]|] == parts[0];
    assert forall part | part in parts[1..] :: part in parts;
  }

  lemma {:induction false} PartsRepeat(p: Pattern, mark: char, s: string, n: nat)
    requires PartsMatch(p, Split(s, mark)) && |Split(s, mark)| == n + 1
    ensures Accepts(PiecesTimes(p, mark, n), s)
    decreases n
  {
    var k := |Split(s, mark)[0]|;
    FirstPart(p, mark, s, n);
    if n > 0 {
      PartsRepeat(p, mark, s[k + 1..], n - 1);
      assert s[k..][1..] == s[k + 1..];
    }
    TimesIff(p, mark, s[k..], n);
  }

  /** A fixed number of further pieces. */
  lemma SeparatedTimes(p: Pattern, mark: char, s: string, n: nat)
    requires Free(p, mark)
    ensures Accepts(PiecesTimes(p, mark, n), s) <==> PartsMatch(p, Split(s, mark)) && |Split(s, mark)| == n + 1
  {
    if Accepts(PiecesTimes(p, mark, n), s) {
      TimesSplits(p, mark, s, n);
    } else if PartsMatch(p, Split(s, mark)) && |Split(s, mark)| == n + 1 {
      PartsRepeat(p, mark, s, n);
    }
  }

  lemma TimesIff(p: Pattern, mark: char, s: string, n: nat)
    ensures Accepts(Times(Marked(mark, p), n), s) <==>
            if n == 0 then s == ""
            else s != "" && s[0] == mark && Accepts(PiecesTimes(p, mark, n - 1), s[1..])
  {
    if n > 0 {
      if Repeats(Marked(mark, p), s, n) {
        RepeatsFirst(p, mark, s, n);
      } else if s != "" && s[0] == mark && Accepts(PiecesTimes(p, mark, n - 1), s[1..]) {
        FirstRepeats(p, mark, s, n);
      }
    }
  }

  lemma RepeatsFirst(p: Pattern, mark: char, s: string, n: nat)
    requires n > 0 && Repeats(Marked(mark, p), s, n)
    ensures s != "" && s[0] == mark && Accepts(PiecesTimes(p, mark, n - 1), s[1..])
  {
    var one := Marked(mark, p);
    var k :| 0 <= k <= |s| && Accepts(one, s[..k]) && Repeats(one, s[k..], n - 1);
    TimesIsRepeats(one, s[k..], n - 1);
    MarkMoves(p, mark, Times(one, n - 1), s, k);
  }

  lemma FirstRepeats(p: Pattern, mark: char, s: string, n: nat)
    requires n > 0 && s != "" && s[0] == mark && Accepts(PiecesTimes(p, mark, n - 1), s[1..])
    ensures Repeats(Marked(mark, p), s, n)
  {
    var one := Marked(mark, p);
    var k :| 0 <= k <= |s| - 1 && Accepts(p, s[1..][..k]) && Accepts(Times(one, n - 1), s[1..][k..]);
    MarkMovesBack(p, mark, Times(one, n - 1), s, k);
    TimesIsRepeats(one, s[k + 1..], n - 1);
    assert Accepts(one, s[..k + 1]) && Repeats(one, s[k + 1..], n - 1);
  }

  // The patterns of the source

  function Range(low: char, high: char): char -> bool {
    (c: char) => low <= c <= high
  }

  function OneOf(a: char -> bool, b: char -> bool): char -> bool {
    (c: char) => a(c) || b(c)
  }

  function LowerOrDigit(): char -> bool {
    OneOf(Range('a', 'z'), Range('0', '9'))
  }

  /** `[a-z0-9]+(?:-[a-z0-9]+)*`. */
  function SkillName(): Pattern {
    Then(Plus(LowerOrDigit()), Many(Marked('-', Plus(LowerOrDigit()))))
  }

  lemma SkillNameIff(s: string)
    ensures IsSkillName(s) <==> Accepts(SkillName(), s)
  {
    forall t
      ensures Accepts(Plus(LowerOrDigit()), t) <==> t != "" && AreAll(LowerOrDigit(), t)
    {
      PlusChars(LowerOrDigit(), t);
    }
    SeparatedMany(Plus(LowerOrDigit()), '-', s);
  }

  /** `0|[1-9]\d*`. */
  function Whole(): Pattern {
    Either(Exactly("0"), Then(Chars(Range('1', '9')), Many(Chars(Range('0', '9')))))
  }

  /** `(0|[1-9]\d*)\.(0|[1-9]\d*)\.(0|[1-9]\d*)`. */
  function Version(): Pattern {
    Then(Whole(), Times(Marked('.', Whole()), 2))
  }

  lemma WholeIff(s: string)
    ensures Accepts(Whole(), s) <==> IsNumber(s)
  {
    var first, more := Chars(Range('1', '9')), Many(Chars(Range('0', '9')));
    if s != "" {
      ManyChars(Range('0', '9'), s[1..]);
      AllBehind(Range('0', '9'), s, 1);
    }
    if Accepts(Then(first, more), s) {
      var k :| 0 <= k <= |s| && Accepts(first, s[..k]) && Accepts(more, s[k..]);
      assert k == 1;
    }
    if IsNumber(s) && s[0] != '0' {
      assert Accepts(first, s[..1]) && Accepts(more, s[1..]);
    }
  }

  lemma VersionIff(s: string)
    ensures IsVersion(s) <==> Accepts(Version(), s)
  {
    forall t
      ensures Accepts(Whole(), t) <==> IsNumber(t)
    {
      WholeIff(t);
    }
    SeparatedTimes(Whole(), '.', s, 2);
  }

  function Hex(): char -> bool {
    OneOf(Range('a', 'f'), Range('0', '9'))
  }

  /** `[a-f0-9]{64}`. */
  lemma DigestIff(s: string, n: nat)
    requires n == 64
    ensures IsDigest(s) <==> Accepts(Times(Chars(Hex()), n), s)
  {
    TimesChars(Hex(), s, n);
  }

  /** `[a-z0-9_]+`. */
  lemma AppNameIff(s: string)
    ensures IsAppName(s) <==> Accepts(Plus(OneOf(LowerOrDigit(), Range('_', '_'))), s)
  {
    PlusChars(OneOf(LowerOrDigit(), Range('_', '_')), s);
  }

  /** `n-h[a-f0-9]{59}-n`. */
  function Reserved(n: nat): Pattern {
    Then(Exactly("n-h"), ReservedTail(n))
  }

  function ReservedTail(n: nat): Pattern {
    Then(Times(Chars(Hex()), n), Exactly("-n"))
  }

  lemma TailIff(s: string, n: nat)
    ensures Accepts(ReservedTail(n), s) <==> |s| == n + 2 && AreAll(Hex(), s[..n]) && s[n..] == "-n"
  {
    if Accepts(ReservedTail(n), s) {
      var m :| 0 <= m <= |s| && Accepts(Times(Chars(Hex()), n), s[..m]) && Accepts(Exactly("-n"), s[m..]);
      TimesChars(Hex(), s[..m], n);
    }
    if |s| == n + 2 && AreAll(Hex(), s[..n]) && s[n..] == "-n" {
      TimesChars(Hex(), s[..n], n);
      assert Accepts(Exactly("-n"), s[n..]);
    }
  }

  lemma ReservedIff(s: string, n: nat)
    requires n == 59
    ensures IsReserved(s) <==> Accepts(Reserved(n), s)
  {
    if Accepts(Reserved(n), s) {
      var k :| 0 <= k <= |s| && Accepts(Exactly("n-h"), s[..k]) && Accepts(ReservedTail(n), s[k..]);
      TailIff(s[k..], n);
      SlicesOf(s, n);
    }
    if IsReserved(s) {
      SlicesOf(s, n);
      TailIff(s[3..], n);
      assert Accepts(Exactly("n-h"), s[..3]);
    }
  }

  lemma SlicesOf(s: string, n: nat)
    requires n == 59
    ensures |s| == 64 ==> s[3..][..n] == s[3..62] && s[3..][n..] == s[62..]
  {
  }

  /** `\d{1,3}`. */
  function Octet(): Pattern {
    Either(Times(Chars(Range('0', '9')), 1), Either(Times(Chars(Range('0', '9')), 2), Times(Chars(Range('0', '9')), 3)))
  }

  lemma OctetIff(s: string)
    ensures Accepts(Octet(), s) <==> 1 <= |s| <= 3 && AreAll(Range('0', '9'), s)
  {
    TimesChars(Range('0', '9'), s, 1);
    TimesChars(Range('0', '9'), s, 2);
    TimesChars(Range('0', '9'), s, 3);
  }

  /** `\d{1,3}(?:\.\d{1,3}){3}`. */
  lemma QuadIff(s: string)
    ensures ClientAddress.IsQuad(s) <==> Accepts(Then(Octet(), Times(Marked('.', Octet()), 3)), s)
  {
    forall t
      ensures Accepts(Octet(), t) <==> 1 <= |t| <= 3 && AreAll(Range('0', '9'), t)
    {
      OctetIff(t);
    }
    SeparatedTimes(Octet(), '.', s, 3);
  }
}
