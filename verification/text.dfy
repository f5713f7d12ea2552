/**
 * The two string operations the search filter relies on: ASCII `toLowerCase`
 * and `String.prototype.includes`.
 */
module Text {

  /** `toLowerCase` on one character, restricted to ASCII: 'A'..'Z' become 'a'..'z'. */
  function LowerChar(c: char): char {
    if 'A' <= c <= 'Z' then (c as int + ('a' as int - 'A' as int)) as char else c
  }

  /** `toLowerCase` on a whole string, character by character. */
  function Lower(s: string): (r: string)
    ensures |r| == |s|
    ensures forall i :: 0 <= i < |s| ==> r[i] == LowerChar(s[i])
  {
    seq(|s|, i requires 0 <= i < |s| => LowerChar(s[i]))
  }

  /** A string with no upper-case ASCII letter left in it. */
  predicate IsLower(s: string) {
    forall i :: 0 <= i < |s| ==> !('A' <= s[i] <= 'Z')
  }

  /** Lower-casing leaves no upper-case letter and changes nothing a second time. */
  lemma LowerIsIdempotent(s: string)
    ensures IsLower(Lower(s))
    ensures Lower(Lower(s)) == Lower(s)
  {
  }

  /** `needle` occurs in `hay` starting at index `i`. */
  ghost predicate OccursAt(hay: string, needle: string, i: int) {
    0 <= i && i + |needle| <= |hay| && hay[i..i + |needle|] == needle
  }

  /** `hay.includes(needle)`: scans the start positions from left to right. */
  function Includes(hay: string, needle: string): (r: bool)
    ensures r <==> exists i :: OccursAt(hay, needle, i)
    ensures r ==> |needle| <= |hay|
    ensures needle == [] ==> r
    decreases |hay|
  {
    if |hay| < |needle| then
      assert forall i :: !OccursAt(hay, needle, i);
      false
    else if hay[..|needle|] == needle then
      assert OccursAt(hay, needle, 0);
      true
    else
      assert (exists i :: OccursAt(hay, needle, i)) ==> exists i :: OccursAt(hay[1..], needle, i) by {
        forall i | OccursAt(hay, needle, i) ensures OccursAt(hay[1..], needle, i - 1) {
          assert hay[1..][i - 1..i - 1 + |needle|] == hay[i..i + |needle|];
        }
      }
      assert (exists i :: OccursAt(hay[1..], needle, i)) ==> exists i :: OccursAt(hay, needle, i) by {
        forall i | OccursAt(hay[1..], needle, i) ensures OccursAt(hay, needle, i + 1) {
          assert hay[1..][i..i + |needle|] == hay[i + 1..i + 1 + |needle|];
        }
      }
      Includes(hay[1..], needle)
  }

  /** `term` occurs in `hay` starting at index `i`, ignoring ASCII case on both sides. */
  ghost predicate OccursIgnoringCaseAt(hay: string, term: string, i: int) {
    0 <= i && i + |term| <= |hay| && Lower(hay[i..i + |term|]) == Lower(term)
  }

  /**
   * Matching the lower-cased term against the lower-cased text ignores ASCII
   * case: it succeeds exactly when some run of the text has the term's
   * lower-case form, whatever the case of either.
   */
  lemma IncludesIgnoringCase(hay: string, term: string)
    ensures Includes(Lower(hay), Lower(term)) <==> exists i :: OccursIgnoringCaseAt(hay, term, i)
  {
    var h, t := Lower(hay), Lower(term);
    if Includes(h, t) {
      var i :| OccursAt(h, t, i);
      assert h[i..i + |t|] == Lower(hay[i..i + |term|]);
      assert OccursIgnoringCaseAt(hay, term, i);
    }
    if exists i :: OccursIgnoringCaseAt(hay, term, i) {
      var i :| OccursIgnoringCaseAt(hay, term, i);
      assert h[i..i + |t|] == Lower(hay[i..i + |term|]);
      assert OccursAt(h, t, i);
    }
  }
}
