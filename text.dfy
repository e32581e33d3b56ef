/** Case-insensitive substring search, as used by the `contains` filter with
    `mode: 'insensitive'` of the `items` query. Case folding is ASCII-only. */
module Text {

  /** ASCII lower-casing of one character; every other character is kept. */
  function Lower(c: char): char
  {
    if 'A' <= c <= 'Z' then (c as int + 32) as char else c
  }

  function LowerAll(s: string): string
  {
    seq(|s|, i requires 0 <= i < |s| => Lower(s[i]))
  }

  /** `sub` occurs in `s` starting at position `k`. */
  predicate OccursAt(s: string, sub: string, k: int)
  {
    0 <= k && k + |sub| <= |s| && s[k..k + |sub|] == sub
  }

  /** Case-sensitive substring test, scanning the start positions left to right. */
  function Contains(s: string, sub: string): bool
    decreases |s|
  {
    if OccursAt(s, sub, 0) then true
    else if |s| == 0 then false
    else Contains(s[1..], sub)
  }

  /** `Contains` holds exactly when `sub` occurs somewhere in `s`. */
  lemma {:induction false} ContainsIffOccurs(s: string, sub: string)
    ensures Contains(s, sub) <==> exists k :: OccursAt(s, sub, k)
    decreases |s|
  {
    if OccursAt(s, sub, 0) {
    } else if |s| == 0 {
    } else {
      ContainsIffOccurs(s[1..], sub);
      if Contains(s[1..], sub) {
        var k :| OccursAt(s[1..], sub, k);
        assert s[k + 1..k + 1 + |sub|] == s[1..][k..k + |sub|];
        assert OccursAt(s, sub, k + 1);
      }
      if exists k :: OccursAt(s, sub, k) {
        var k :| OccursAt(s, sub, k);
        assert k != 0;
        assert s[1..][k - 1..k - 1 + |sub|] == s[k..k + |sub|];
        assert OccursAt(s[1..], sub, k - 1);
      }
    }
  }

  /** Substring test after lower-casing both sides. */
  function ContainsInsensitive(s: string, sub: string): bool
  {
    Contains(LowerAll(s), LowerAll(sub))
  }

  /** The case-insensitive test holds exactly when `sub` occurs in `s` once both
      are lower-cased, and so does not depend on the case of either side. */
  lemma ContainsInsensitiveIff(s: string, sub: string)
    ensures ContainsInsensitive(s, sub) <==> exists k :: OccursAt(LowerAll(s), LowerAll(sub), k)
    ensures ContainsInsensitive(s, sub) == ContainsInsensitive(LowerAll(s), LowerAll(sub))
  {
    ContainsIffOccurs(LowerAll(s), LowerAll(sub));
    LowerAllIdempotent(s);
    LowerAllIdempotent(sub);
  }

  lemma LowerAllIdempotent(s: string)
    ensures LowerAll(LowerAll(s)) == LowerAll(s)
  {
  }

  /** The empty search string occurs in every string. */
  lemma EmptyOccursEverywhere(s: string)
    ensures ContainsInsensitive(s, "")
  {
    assert LowerAll("") == "";
    assert LowerAll(s)[0..0] == "";
  }

  /** A search for "ACME" matches the manufacturer "Acme Corp". */
  lemma UpperCaseSearchMatches()
    ensures ContainsInsensitive("Acme Corp", "ACME")
  {
    assert LowerAll("ACME") == "acme";
    assert LowerAll("Acme Corp") == "acme corp";
    assert "acme corp"[0..4] == "acme";
  }
}
