/** Following a path segment by segment, as a file system does, and where its `..` segments stand. */
module PathWalk {

  import opened TextSearch

  // The walk

  /** The folder that one segment leads to, from the folder whose names from the top are `stack`. */
  function Step(stack: seq<string>, part: string): seq<string> {
    if part == "" || part == "." then stack
    else if part == ".." then if stack == [] then [] else stack[..|stack| - 1]
    else stack + [part]
  }

  function Walk(stack: seq<string>, parts: seq<string>): seq<string>
    decreases |parts|
  {
    if parts == [] then stack else Walk(Step(stack, parts[0]), parts[1..])
  }

  /** Every folder on the way is `root` or lies in it. */
  predicate StaysWithin(root: seq<string>, stack: seq<string>, parts: seq<string>)
    decreases |parts|
  {
    root <= stack && (parts == [] || StaysWithin(root, Step(stack, parts[0]), parts[1..]))
  }

  /** The path leads into `root` and from there on never out of it. */
  predicate NeverLeaves(root: string, path: string) {
    var r, p := Split(root, '/'), Split(path, '/');
    r <= p && Walk([], r) == r && StaysWithin(r, r, p[|r|..])
  }

  // When the walk leaves

  function Ups(parts: seq<string>): nat {
    if parts == [] then 0 else (if parts[0] == ".." then 1 else 0) + Ups(parts[1..])
  }

  function Downs(parts: seq<string>): nat {
    if parts == [] then 0 else (if parts[0] in {"", ".", ".."} then 0 else 1) + Downs(parts[1..])
  }

  /** Some prefix goes up more often than it has gone down, by more than `depth`. */
  ghost predicate Surfaces(parts: seq<string>, depth: nat) {
    exists k | 0 <= k <= |parts| :: Ups(parts[..k]) > Downs(parts[..k]) + depth
  }

  lemma CountFirst(parts: seq<string>, k: nat)
    requires 0 < k <= |parts|
    ensures Ups(parts[..k]) == (if parts[0] == ".." then 1 else 0) + Ups(parts[1..][..k - 1])
    ensures Downs(parts[..k]) == (if parts[0] in {"", ".", ".."} then 0 else 1) + Downs(parts[1..][..k - 1])
  {
    assert parts[..k][1..] == parts[1..][..k - 1];
  }

  lemma SurfacesStep(parts: seq<string>, depth: nat)
    requires parts != []
    ensures Surfaces(parts, depth) <==>
            if parts[0] == ".." then depth == 0 || Surfaces(parts[1..], depth - 1)
            else if parts[0] in {"", "."} then Surfaces(parts[1..], depth)
            else Surfaces(parts[1..], depth + 1)
  {
    forall k | 0 < k <= |parts|
      ensures Ups(parts[..k]) == (if parts[0] == ".." then 1 else 0) + Ups(parts[1..][..k - 1])
      ensures Downs(parts[..k]) == (if parts[0] in {"", ".", ".."} then 0 else 1) + Downs(parts[1..][..k - 1])
    {
      CountFirst(parts, k);
    }
    assert parts[..0] == [];
    if parts[0] == ".." && depth == 0 {
      assert parts[1..][..0] == [];
      assert Ups(parts[..1]) > Downs(parts[..1]) + depth;
    }
    SurfacesLater(parts, depth);
  }

  lemma SurfacesLater(parts: seq<string>, depth: nat)
    requires parts != []
    ensures parts[0] == ".." && depth > 0 ==> (Surfaces(parts, depth) <==> Surfaces(parts[1..], depth - 1))
    ensures parts[0] in {"", "."} ==> (Surfaces(parts, depth) <==> Surfaces(parts[1..], depth))
    ensures parts[0] !in {"", ".", ".."} ==> (Surfaces(parts, depth) <==> Surfaces(parts[1..], depth + 1))
  {
    var rest := parts[1..];
    var up, down := if parts[0] == ".." then 1 else 0, if parts[0] in {"", ".", ".."} then 0 else 1;
    forall j | 0 <= j <= |rest|
      ensures Ups(parts[..j + 1]) == up + Ups(rest[..j]) && Downs(parts[..j + 1]) == down + Downs(rest[..j])
    {
      CountFirst(parts, j + 1);
    }
    assert Ups(parts[..0]) == 0;
    if Surfaces(parts, depth) {
      var k :| 0 <= k <= |parts| && Ups(parts[..k]) > Downs(parts[..k]) + depth;
      assert Ups(parts[..k - 1 + 1]) == up + Ups(rest[..k - 1]);
    }
    if depth + down - up >= 0 && Surfaces(rest, depth + down - up) {
      var j :| 0 <= j <= |rest| && Ups(rest[..j]) > Downs(rest[..j]) + (depth + down - up);
      assert Ups(parts[..j + 1]) > Downs(parts[..j + 1]) + depth;
    }
  }

  /** The walk leaves exactly when some prefix goes up more often than down. */
  lemma {:induction false} LeavesIff(root: seq<string>, stack: seq<string>, parts: seq<string>)
    requires root <= stack && root != []
    ensures StaysWithin(root, stack, parts) <==> !Surfaces(parts, |stack| - |root|)
    decreases |parts|
  {
    if parts == [] {
      assert parts[..0] == [];
    } else {
      SurfacesStep(parts, |stack| - |root|);
      if parts[0] == ".." && |stack| == |root| {
        assert !(root <= Step(stack, parts[0]));
      } else {
        LeavesIff(root, Step(stack, parts[0]), parts[1..]);
      }
    }
  }

  /** Without `..` the walk stays. */
  lemma {:induction false} NoUpsStay(root: seq<string>, stack: seq<string>, parts: seq<string>)
    requires root <= stack && forall k | 0 <= k < |parts| :: parts[k] != ".."
    ensures StaysWithin(root, stack, parts)
    decreases |parts|
  {
    if parts != [] {
      NoUpsStay(root, Step(stack, parts[0]), parts[1..]);
    }
  }

  /** Plain names lead where they say. */
  lemma {:induction false} WalksDown(stack: seq<string>, parts: seq<string>)
    requires forall k | 0 <= k < |parts| :: parts[k] !in {"", ".", ".."}
    ensures Walk(stack, parts) == stack + parts
    decreases |parts|
  {
    if parts != [] {
      WalksDown(stack + [parts[0]], parts[1..]);
      assert stack + [parts[0]] + parts[1..] == stack + parts;
    }
  }

  // Where segments stand in the text

  /** A segment `..` stands at place `i`. */
  predicate UpAt(s: string, i: nat) {
    && i + 2 <= |s| && s[i] == '.' && s[i + 1] == '.'
    && (i == 0 || s[i - 1] == '/') && (i + 2 == |s| || s[i + 2] == '/')
  }

  /** Where segment `k` starts. */
  function Start(parts: seq<string>, k: nat): nat
    requires k < |parts|
    decreases k
  {
    if k == 0 then 0 else |parts[0]| + 1 + Start(parts[1..], k - 1)
  }

  lemma SplitCases(s: string)
    requires s != ""
    ensures var parts, rest := Split(s, '/'), Split(s[1..], '/');
            && (s[0] == '/' ==> parts == [""] + rest)
            && (s[0] != '/' ==> parts == [[s[0]] + rest[0]] + rest[1..])
  {
  }

  lemma StartCases(s: string, k: nat)
    requires s != "" && 0 < k < |Split(s, '/')|
    ensures var parts, rest := Split(s, '/'), Split(s[1..], '/');
            if s[0] == '/' then k - 1 < |rest| && Start(parts, k) == 1 + Start(rest, k - 1) && parts[k] == rest[k - 1]
            else k < |rest| && Start(parts, k) == 1 + Start(rest, k) && parts[k] == rest[k]
  {
    var parts, rest := Split(s, '/'), Split(s[1..], '/');
    SplitCases(s);
    if s[0] == '/' {
      assert parts[1..] == rest;
    } else {
      assert parts[1..] == rest[1..];
    }
  }

  /** `part` stands at `at`, between slashes or ends. */
  predicate StandsAt(s: string, at: nat, part: string) {
    && at + |part| <= |s| && s[at..at + |part|] == part
    && (at == 0 || s[at - 1] == '/') && (at + |part| == |s| || s[at + |part|] == '/')
  }

  lemma {:induction false} FirstStands(s: string)
    ensures StandsAt(s, 0, Split(s, '/')[0])
  {
    if s != "" && s[0] != '/' {
      SplitCases(s);
      FirstStands(s[1..]);
      var part := Split(s[1..], '/')[0];
      assert s[..1 + |part|] == [s[0]] + s[1..][..|part|];
    }
  }

  lemma StandsLater(s: string, at: nat, part: string)
    requires s != "" && StandsAt(s[1..], at, part) && (at == 0 ==> s[0] == '/')
    ensures StandsAt(s, at + 1, part)
  {
    assert s[at + 1..at + 1 + |part|] == s[1..][at..at + |part|];
    assert at > 0 ==> s[at] == s[1..][at - 1];
  }

  /** Every segment stands at its start. */
  lemma {:induction false} PartStands(s: string, k: nat)
    requires k < |Split(s, '/')|
    ensures StandsAt(s, Start(Split(s, '/'), k), Split(s, '/')[k])
    ensures k > 0 ==> Start(Split(s, '/'), k) > 0
    decreases |s|
  {
    if k == 0 {
      FirstStands(s);
    } else {
      assert s != "";
      StartCases(s, k);
      var before := if s[0] == '/' then k - 1 else k;
      PartStands(s[1..], before);
      StandsLater(s, Start(Split(s[1..], '/'), before), Split(s[1..], '/')[before]);
    }
  }

  ghost predicate InEarlier(parts: seq<string>, k: nat, c: char) {
    exists j | 0 <= j < k && j < |parts| :: c in parts[j]
  }

  lemma EarlierFirst(parts: seq<string>, k: nat, c: char)
    requires 0 < k <= |parts|
    ensures InEarlier(parts, k, c) <==> c in parts[0] || InEarlier(parts[1..], k - 1, c)
  {
    if InEarlier(parts, k, c) && c !in parts[0] {
      var j :| 0 <= j < k && j < |parts| && c in parts[j];
      assert parts[1..][j - 1] == parts[j];
    }
    if InEarlier(parts[1..], k - 1, c) {
      var j :| 0 <= j < k - 1 && j < |parts| - 1 && c in parts[1..][j];
      assert parts[j + 1] == parts[1..][j];
    }
  }

  /** The characters before a segment are those of the segments before it, and slashes. */
  lemma {:induction false} BeforePart(s: string, k: nat, c: char)
    requires k < |Split(s, '/')| && c != '/' && Start(Split(s, '/'), k) <= |s|
    ensures c in s[..Start(Split(s, '/'), k)] <==> InEarlier(Split(s, '/'), k, c)
    decreases |s|
  {
    if s != "" && k > 0 {
      var parts, rest := Split(s, '/'), Split(s[1..], '/');
      SplitCases(s);
      StartCases(s, k);
      var n := Start(parts, k);
      assert s[..n] == [s[0]] + s[1..][..n - 1];
      EarlierFirst(parts, k, c);
      if s[0] == '/' {
        BeforePart(s[1..], k - 1, c);
        assert parts[1..] == rest;
      } else {
        BeforePart(s[1..], k, c);
        EarlierFirst(rest, k, c);
        assert parts[1..] == rest[1..];
      }
    }
  }

  lemma UpFirst(s: string)
    requires UpAt(s, 0)
    ensures Split(s, '/')[0] == ".."
  {
    if |s| == 2 {
      assert s == "..";
      SplitLast("..", '/');
    } else {
      assert s == ".." + ['/'] + s[3..];
      SplitFirst("..", s[3..], '/');
    }
  }

  /** Where a `..` stands, a segment starts. */
  lemma {:induction false} UpIsPart(s: string, i: nat) returns (k: nat)
    requires UpAt(s, i)
    ensures k < |Split(s, '/')| && Split(s, '/')[k] == ".." && Start(Split(s, '/'), k) == i
    decreases |s|
  {
    if i == 0 {
      UpFirst(s);
      k := 0;
    } else {
      k := UpIsPart(s[1..], i - 1);
      SplitCases(s);
      if s[0] == '/' {
        k := k + 1;
      } else {
        assert i - 1 > 0;
      }
      StartCases(s, k);
    }
  }
}
