/**
 * Replies to the "[Y/n]" prompts of the dust cleaner (src/script.ts:115, :121, :187).
 * A reply declines only when it is non-empty and its lower-case form is not "y";
 * the empty reply is the default "yes".
 */
module Answers {

  /** Case folding of one character: ASCII capitals become small letters, everything else is kept. */
  function LowerChar(c: char): (d: char)
    ensures !('A' <= d <= 'Z')
    ensures d != c ==> 'A' <= c <= 'Z' && d as int == c as int + 32
  {
    if 'A' <= c <= 'Z' then (c as int + 32) as char else c
  }

  /** `String.prototype.toLowerCase`, restricted to ASCII case folding. */
  function Lower(s: string): (r: string)
    ensures |r| == |s|
    ensures forall i :: 0 <= i < |s| ==> r[i] == LowerChar(s[i])
  {
    if s == [] then [] else [LowerChar(s[0])] + Lower(s[1..])
  }

  /**
   * The reply test as the script writes it:
   * `answer && answer.toLowerCase() !== 'y' && answer.toLowerCase() !== 'Y'`.
   */
  predicate Declines(answer: string)
    ensures answer == "" || answer == "y" || answer == "Y" ==> !Declines(answer)
  {
    answer != "" && Lower(answer) != "y" && Lower(answer) != "Y"
  }

  predicate Accepts(answer: string)
  {
    !Declines(answer)
  }

  /** The second comparison of the test can never be true: a lower-cased reply is never "Y". */
  lemma UpperCaseComparisonIsDead(answer: string)
    ensures Lower(answer) != "Y"
  {
  }

  /** Exactly three replies accept: the empty reply, "y" and "Y"; every other reply declines. */
  lemma AcceptsExactly(answer: string)
    ensures Accepts(answer) <==> answer == "" || answer == "y" || answer == "Y"
  {
    UpperCaseComparisonIsDead(answer);
    if answer != "" && Lower(answer) == "y" {
      assert |answer| == 1;
      assert LowerChar(answer[0]) == 'y';
      assert answer == [answer[0]];
    }
  }
}
