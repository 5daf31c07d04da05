/** Slugs and ownership records of `product-skill-ownership.ts`. */
module SkillOwnership {

  import opened TextSearch
  import opened SkillRegistry

  datatype Option<+T> = Some(value: T) | None

  // Slugs

  predicate IsHex(c: char) {
    'a' <= c <= 'f' || '0' <= c <= '9'
  }

  predicate AllHex(s: string) {
    forall k | 0 <= k < |s| :: IsHex(s[k])
  }

  /** `/^[a-f0-9]{64}$/`. */
  predicate IsDigest(s: string) {
    |s| == 64 && AllHex(s)
  }

  const SOME_DIGEST: string := seq(64, _ => '0')

  /** A SHA-256 digest in hexadecimal. */
  type DigestText = s: string | IsDigest(s) witness SOME_DIGEST

  type Digest = string -> DigestText

  /** `/^[a-z0-9_]+$/`. */
  predicate IsAppName(s: string) {
    s != "" && forall k | 0 <= k < |s| :: IsLowerOrDigit(s[k]) || s[k] == '_'
  }

  /** `name.replaceAll('_', '-')`. */
  function Dashed(name: string): (s: string)
    ensures |s| == |name| && forall k | 0 <= k < |s| :: s[k] == if name[k] == '_' then '-' else name[k]
  {
    seq(|name|, k requires 0 <= k < |name| => if name[k] == '_' then '-' else name[k])
  }

  /** `/^n-h[a-f0-9]{59}-n$/`. */
  predicate IsReserved(s: string) {
    |s| == 64 && s[..3] == "n-h" && AllHex(s[3..62]) && s[62..] == "-n"
  }

  predicate KeepsName(name: string) {
    IsSkillName(Dashed(name)) && |name| <= 64 && !IsReserved(Dashed(name))
  }

  function Fallback(digest: Digest, name: string): string {
    "n-h" + digest(name)[..59] + "-n"
  }

  /** `bundleV1SkillSlug`. */
  function Slug(digest: Digest, name: string): string {
    if KeepsName(name) then Dashed(name) else Fallback(digest, name)
  }

  lemma FallbackIsReserved(digest: Digest, name: string)
    ensures IsReserved(Fallback(digest, name)) && Fallback(digest, name)[3..62] == digest(name)[..59]
  {
    var s := Fallback(digest, name);
    assert s[..3] == "n-h" && s[3..62] == digest(name)[..59] && s[62..] == "-n";
  }

  lemma DashedIsInjective(a: string, b: string)
    requires IsAppName(a) && IsAppName(b) && Dashed(a) == Dashed(b)
    ensures a == b
  {
    forall k | 0 <= k < |a|
      ensures a[k] == b[k]
    {
      assert Dashed(a)[k] == Dashed(b)[k];
    }
  }

  /**
   * Kept names and fallbacks never meet, so two app names share a slug only when neither is kept and
   * the first 59 digits of their digests agree.
   */
  lemma SlugsEqualIff(digest: Digest, a: string, b: string)
    requires IsAppName(a) && IsAppName(b)
    ensures Slug(digest, a) == Slug(digest, b) <==>
            a == b || (!KeepsName(a) && !KeepsName(b) && digest(a)[..59] == digest(b)[..59])
  {
    FallbackIsReserved(digest, a);
    FallbackIsReserved(digest, b);
    if Slug(digest, a) == Slug(digest, b) && KeepsName(a) && KeepsName(b) {
      DashedIsInjective(a, b);
    }
  }

  lemma {:induction false} JoinsToSkillName(first: string, second: string, third: string)
    requires '-' !in first && '-' !in second && '-' !in third
    requires first != "" && second != "" && third != ""
    requires forall c | c in first + second + third :: IsLowerOrDigit(c)
    ensures IsSkillName(first + "-" + (second + "-" + third))
  {
    SplitLast(third, '-');
    SplitFirst(second, third, '-');
    SplitFirst(first, second + "-" + third, '-');
    forall part | part in [first, second, third]
      ensures forall k | 0 <= k < |part| :: IsLowerOrDigit(part[k])
    {
      forall k | 0 <= k < |part|
        ensures IsLowerOrDigit(part[k])
      {
        assert part[k] in first + second + third;
      }
    }
  }

  /** Every slug is a skill name of at most 64 characters. */
  lemma SlugIsSkillName(digest: Digest, name: string)
    ensures IsSkillName(Slug(digest, name)) && |Slug(digest, name)| <= 64
  {
    if !KeepsName(name) {
      var middle := "h" + digest(name)[..59];
      forall c | c in "n" + middle + "n"
        ensures IsLowerOrDigit(c)
      {
        assert c == 'n' || c == 'h' || c in digest(name)[..59];
      }
      JoinsToSkillName("n", middle, "n");
      assert Fallback(digest, name) == "n" + "-" + (middle + "-" + "n");
    }
  }
}
