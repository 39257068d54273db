/**
 * The safeword gate: `safeword.lower() in prompt.lower()`, and the canned
 * reply given when it fires.
 */
module Safeword {

  const CannedReply: string := "Ah, you got me! How can I help you?"

  /** `str.lower` on one character, restricted to ASCII: each upper-case letter becomes its own lower-case letter. */
  function LowerChar(c: char): (r: char)
    ensures 'A' <= c <= 'Z' ==> r == "abcdefghijklmnopqrstuvwxyz"[c as int - 'A' as int]
    ensures !('A' <= r <= 'Z')
    ensures ('a' <= r <= 'z') <==> ('a' <= c <= 'z' || 'A' <= c <= 'Z')
    ensures !('A' <= c <= 'Z') ==> r == c
  {
    if 'A' <= c <= 'Z' then (c as int - 'A' as int + 'a' as int) as char else c
  }

  /**
   * `str.lower`: every character lower-cased where it stands, so the length is
   * kept, no upper-case letter is left, and lower-casing again changes nothing.
   */
  function ToLower(s: string): (r: string)
    ensures |r| == |s|
    ensures forall k :: 0 <= k < |s| ==> r[k] == LowerChar(s[k])
    ensures forall k :: 0 <= k < |r| ==> !('A' <= r[k] <= 'Z')
    ensures forall k :: 0 <= k < |r| ==> (IsLetter(r[k]) <==> IsLetter(s[k]))
    ensures ToLowerChars(r) == r
  {
    ToLowerChars(s)
  }

  predicate IsLetter(c: char) {
    ('a' <= c <= 'z') || ('A' <= c <= 'Z')
  }

  function ToLowerChars(s: string): string {
    seq(|s|, k requires 0 <= k < |s| => LowerChar(s[k]))
  }

  /** pattern occurs in text starting at position i. */
  predicate OccursAt(text: string, pattern: string, i: nat) {
    i + |pattern| <= |text| && text[i..i + |pattern|] == pattern
  }

  /** Python's substring test `pattern in text`. */
  function Contains(text: string, pattern: string): (b: bool)
    ensures b <==> exists i: nat :: OccursAt(text, pattern, i)
    decreases |text|
  {
    if pattern <= text then
      assert OccursAt(text, pattern, 0);
      true
    else if text == [] then
      false
    else
      var b := Contains(text[1..], pattern);
      if b then
        var i: nat :| OccursAt(text[1..], pattern, i);
        assert text[1..][i..i + |pattern|] == text[i + 1..i + 1 + |pattern|];
        assert OccursAt(text, pattern, i + 1);
        true
      else
        assert forall i: nat :: OccursAt(text, pattern, i) ==> i > 0 && OccursAt(text[1..], pattern, i - 1) by {
          forall i: nat | OccursAt(text, pattern, i) ensures i > 0 && OccursAt(text[1..], pattern, i - 1) {
            assert text[1..][i - 1..i - 1 + |pattern|] == text[i..i + |pattern|];
          }
        }
        false
  }

  /**
   * The gate: the lower-cased safeword is a substring of the lower-cased
   * prompt, i.e. the safeword occurs in the prompt up to ASCII case.
   */
  function SafewordMatches(safeword: string, prompt: string): (b: bool)
    ensures b <==> exists i: nat :: MatchesIgnoringCaseAt(safeword, prompt, i)
  {
    LowerContainsIff(safeword, prompt);
    Contains(ToLower(prompt), ToLower(safeword))
  }

  /** An empty safeword matches every prompt. */
  lemma EmptySafewordMatchesAll(prompt: string)
    ensures SafewordMatches("", prompt)
  {
    assert OccursAt(ToLower(prompt), "", 0);
  }

  /** The piece of the prompt at position i equals the safeword up to ASCII case. */
  predicate MatchesIgnoringCaseAt(safeword: string, prompt: string, i: nat) {
    i + |safeword| <= |prompt| && ToLower(prompt[i..i + |safeword|]) == ToLower(safeword)
  }

  /** A substring of the lower-cased prompt is the lower-cased slice of the prompt. */
  lemma LowerContainsIff(safeword: string, prompt: string)
    ensures Contains(ToLower(prompt), ToLower(safeword)) <==> exists i: nat :: MatchesIgnoringCaseAt(safeword, prompt, i)
  {
    var lp, ls := ToLower(prompt), ToLower(safeword);
    if Contains(lp, ls) {
      var i: nat :| OccursAt(lp, ls, i);
      assert ToLower(prompt[i..i + |safeword|]) == lp[i..i + |safeword|];
      assert MatchesIgnoringCaseAt(safeword, prompt, i);
    }
    if i: nat :| MatchesIgnoringCaseAt(safeword, prompt, i) {
      assert ToLower(prompt[i..i + |safeword|]) == lp[i..i + |safeword|];
      assert OccursAt(lp, ls, i);
    }
  }

  /** Changing the case of letters in the safeword or the prompt does not change the verdict. */
  lemma SafewordIgnoresCase(safeword: string, prompt: string)
    ensures SafewordMatches(ToLower(safeword), ToLower(prompt)) == SafewordMatches(safeword, prompt)
  {
    assert ToLower(ToLower(safeword)) == ToLower(safeword);
    assert ToLower(ToLower(prompt)) == ToLower(prompt);
  }
}
