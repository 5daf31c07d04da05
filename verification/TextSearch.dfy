/** `indexOf`, `split`, `join` and `trimEnd` of JavaScript strings. */
module TextSearch {

  /** `p` stands in `s` at `i`. */
  predicate Occurs(s: string, p: string, i: int) {
    0 <= i && i + |p| <= |s| && s[i..i + |p|] == p
  }

  /** `s.indexOf(p, from)`, or -1. */
  function Find(s: string, p: string, from: nat): (at: int)
    ensures at == -1 || from <= at <= |s| - |p|
    decreases |s| - from
  {
    if from + |p| > |s| then -1
    else if s[from..from + |p|] == p then from
    else Find(s, p, from + 1)
  }

  /** `at` is the first occurrence at `from` or later. */
  ghost predicate First(s: string, p: string, from: nat, at: int) {
    from <= at && Occurs(s, p, at) && forall i | from <= i < at :: !Occurs(s, p, i)
  }

  ghost predicate Absent(s: string, p: string, from: nat) {
    forall i | from <= i :: !Occurs(s, p, i)
  }

  lemma {:induction false} FindIsFirst(s: string, p: string, from: nat)
    ensures if Find(s, p, from) == -1 then Absent(s, p, from) else First(s, p, from, Find(s, p, from))
    decreases |s| - from
  {
    if from + |p| <= |s| && s[from..from + |p|] != p {
      FindIsFirst(s, p, from + 1);
    }
  }

  lemma FoundFirst(s: string, p: string, from: nat, at: nat)
    requires First(s, p, from, at)
    ensures Find(s, p, from) == at
  {
    FindIsFirst(s, p, from);
  }

  lemma OccursCharacter(s: string, c: char, i: int)
    requires Occurs(s, [c], i)
    ensures s[i] == c
  {
    assert s[i] == s[i..i + 1][0];
  }

  lemma FoundCharacter(s: string, c: char, at: nat)
    requires at < |s| && s[at] == c && forall i | 0 <= i < at :: s[i] != c
    ensures Find(s, [c], 0) == at
  {
    assert s[at..at + 1] == [c];
    forall i | 0 <= i < at
      ensures !Occurs(s, [c], i)
    {
      if Occurs(s, [c], i) {
        OccursCharacter(s, c, i);
      }
    }
    FoundFirst(s, [c], 0, at);
  }

  // Occurrences in the two parts of a text

  lemma OccursInLeft(x: string, y: string, p: string, i: int)
    requires 0 <= i && i + |p| <= |x|
    ensures Occurs(x + y, p, i) <==> Occurs(x, p, i)
  {
    assert (x + y)[i..i + |p|] == x[i..i + |p|];
  }

  lemma OccursInRight(x: string, y: string, p: string, i: nat)
    ensures Occurs(x + y, p, |x| + i) <==> Occurs(y, p, i)
  {
    if i + |p| <= |y| {
      assert (x + y)[|x| + i..|x| + i + |p|] == y[i..i + |p|];
    }
  }

  lemma OccurrenceCovers(s: string, p: string, i: int, k: int)
    requires Occurs(s, p, i) && i <= k < i + |p|
    ensures s[k] in p && (k > i ==> s[k] in p[1..])
  {
    assert s[k] == s[i..i + |p|][k - i] == p[k - i];
    assert k > i ==> p[k - i] == p[1..][k - i - 1];
  }

  /** A text that holds no line break occurs inside a line. */
  lemma OccursInALine(x: string, y: string, p: string, i: int)
    requires p != "" && '\n' !in p && Occurs(x + "\n" + y, p, i)
    ensures Occurs(x, p, i) || (i > |x| && Occurs(y, p, i - |x| - 1))
  {
    var s := x + "\n" + y;
    if i <= |x| < i + |p| {
      OccurrenceCovers(s, p, i, |x|);
    } else if i <= |x| {
      assert s == x + ("\n" + y);
      OccursInLeft(x, "\n" + y, p, i);
    } else {
      OccursInRight(x + "\n", y, p, i - |x| - 1);
    }
  }

  /** A text that starts with `c` and holds it nowhere else does not reach across a `c`. */
  lemma OccursUpToMark(x: string, y: string, p: string, i: int, c: char)
    requires p != "" && c !in p[1..] && y != "" && y[0] == c
    requires 0 <= i < |x| && Occurs(x + y, p, i)
    ensures Occurs(x, p, i)
  {
    if |x| < i + |p| {
      OccurrenceCovers(x + y, p, i, |x|);
    } else {
      OccursInLeft(x, y, p, i);
    }
  }

  /** A line break at the end makes no difference. */
  lemma OccursBeforeBreak(x: string, p: string, i: int)
    requires p != "" && '\n' !in p
    ensures Occurs(x + "\n", p, i) <==> Occurs(x, p, i)
  {
    if Occurs(x + "\n", p, i) {
      assert x + "\n" == x + "\n" + "";
      OccursInALine(x, "", p, i);
    }
    if Occurs(x, p, i) {
      OccursInLeft(x, "\n", p, i);
    }
  }

  // Length

  /** `s.length`: UTF-16 code units, two for a character beyond the Basic Multilingual Plane. */
  function Utf16Length(s: string): nat {
    if s == "" then 0 else Utf16Length(s[..|s| - 1]) + if s[|s| - 1] < '\U{10000}' then 1 else 2
  }

  lemma {:induction false} Utf16LengthBounds(s: string)
    ensures |s| <= Utf16Length(s) <= 2 * |s|
    ensures (forall k | 0 <= k < |s| :: s[k] < '\U{10000}') ==> Utf16Length(s) == |s|
  {
    if s != "" {
      Utf16LengthBounds(s[..|s| - 1]);
    }
  }

  // Splitting

  /** `s.split(mark)` for a single character. */
  function Split(s: string, mark: char): (parts: seq<string>)
    ensures parts != []
    ensures forall part | part in parts :: mark !in part
  {
    if s == "" then [""]
    else
      var rest := Split(s[1..], mark);
      if s[0] == mark then [""] + rest else [[s[0]] + rest[0]] + rest[1..]
  }

  /** `parts.join(mark)`. */
  function Join(parts: seq<string>, mark: char): string {
    if parts == [] then "" else if |parts| == 1 then parts[0] else parts[0] + [mark] + Join(parts[1..], mark)
  }

  lemma {:induction false} JoinOfSplit(s: string, mark: char)
    ensures Join(Split(s, mark), mark) == s
  {
    if s != "" {
      JoinOfSplit(s[1..], mark);
      var rest := Split(s[1..], mark);
      if s[0] == mark {
        assert Split(s, mark)[1..] == rest;
      } else {
        assert Split(s, mark)[1..] == rest[1..];
      }
    }
  }

  lemma {:induction false} SplitFirst(part: string, rest: string, mark: char)
    requires mark !in part
    ensures Split(part + [mark] + rest, mark) == [part] + Split(rest, mark)
  {
    var s := part + [mark] + rest;
    if part == "" {
      assert s[1..] == rest;
    } else {
      SplitFirst(part[1..], rest, mark);
      assert s[1..] == part[1..] + [mark] + rest;
      assert [part[0]] + part[1..] == part;
    }
  }

  lemma {:induction false} SplitLast(part: string, mark: char)
    requires mark !in part
    ensures Split(part, mark) == [part]
  {
    if part != "" {
      SplitLast(part[1..], mark);
      assert [part[0]] + part[1..] == part;
    }
  }

  lemma {:induction false} SplitOfJoin(parts: seq<string>, mark: char)
    requires parts != [] && forall part | part in parts :: mark !in part
    ensures Split(Join(parts, mark), mark) == parts
  {
    assert parts[0] in parts;
    if |parts| == 1 {
      SplitLast(parts[0], mark);
    } else {
      SplitOfJoin(parts[1..], mark);
      SplitFirst(parts[0], Join(parts[1..], mark), mark);
      assert [parts[0]] + parts[1..] == parts;
    }
  }

  // The end of a text

  predicate EndsWith(s: string, suffix: string) {
    |suffix| <= |s| && s[|s| - |suffix|..] == suffix
  }

  /** White space and line terminators of ECMA-262. */
  predicate IsSpace(c: char) {
    c in {'\t', '\n', '\U{0b}', '\U{0c}', '\r', ' ', '\U{a0}', '\U{1680}', '\U{2028}', '\U{2029}', '\U{202f}',
          '\U{205f}', '\U{3000}', '\U{feff}'}
    || '\U{2000}' <= c <= '\U{200a}'
  }

  function TrimEnd(s: string): string {
    if s != "" && IsSpace(s[|s| - 1]) then TrimEnd(s[..|s| - 1]) else s
  }
}
