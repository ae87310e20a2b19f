/** The search predicate of `POST /questions`: SQL `ilike '%term%'`, read as "the question
    text contains the term, ignoring the case of ASCII letters". */
module Text {

  /** ASCII lower-casing of one character; every other character is kept. */
  function LowerChar(c: char): (d: char)
    ensures 'A' <= c <= 'Z' ==> d as int == c as int + 32
    ensures !('A' <= c <= 'Z') ==> d == c
    ensures !('A' <= d <= 'Z')
  {
    if 'A' <= c <= 'Z' then (c as int + 32) as char else c
  }

  /** ASCII lower-casing of a string, character by character. */
  function Lower(s: string): (r: string)
    ensures |r| == |s|
    ensures forall i :: 0 <= i < |s| ==> r[i] == LowerChar(s[i])
  {
    if s == [] then [] else [LowerChar(s[0])] + Lower(s[1..])
  }

  /** `needle` occurs in `hay` starting at index `i`. */
  ghost predicate OccursAt(needle: string, hay: string, i: int)
  {
    0 <= i && i + |needle| <= |hay| && hay[i..i + |needle|] == needle
  }

  /** Whether `needle` occurs somewhere in `hay`, by trying each starting offset in turn. */
  function Contains(needle: string, hay: string): (b: bool)
    ensures b <==> exists i :: OccursAt(needle, hay, i)
  {
    if |needle| > |hay| then
      assert forall i :: !OccursAt(needle, hay, i);
      false
    else if hay[..|needle|] == needle then
      assert OccursAt(needle, hay, 0);
      true
    else
      var b := Contains(needle, hay[1..]);
      assert forall i :: OccursAt(needle, hay[1..], i) <==> OccursAt(needle, hay, i + 1);
      assert !OccursAt(needle, hay, 0);
      assert (exists i :: OccursAt(needle, hay, i)) ==> exists i :: OccursAt(needle, hay[1..], i) by {
        if exists i :: OccursAt(needle, hay, i) {
          var i :| OccursAt(needle, hay, i);
          assert OccursAt(needle, hay[1..], i - 1);
        }
      }
      b
  }

  /** The `ilike '%term%'` filter: `term` occurs in `text` when both are lower-cased. */
  predicate ContainsIgnoringCase(text: string, term: string)
  {
    Contains(Lower(term), Lower(text))
  }

  /** The case of the term does not matter: a term and its lower-cased form match the same
      texts, and a match of the lower-cased term is found by the upper-cased one too. */
  lemma SearchIgnoresCase(text: string, term: string)
    ensures ContainsIgnoringCase(text, term) <==> ContainsIgnoringCase(text, Lower(term))
  {
    assert Lower(Lower(term)) == Lower(term);
  }

  /** The upper-case term "WHAT" matches a question containing "what is". */
  lemma UpperCaseTermMatches()
    ensures ContainsIgnoringCase("what is", "WHAT")
  {
    var t, u := Lower("what is"), Lower("WHAT");
    assert u[0] == 'w' && u[1] == 'h' && u[2] == 'a' && u[3] == 't';
    assert t[0] == 'w' && t[1] == 'h' && t[2] == 'a' && t[3] == 't';
    assert t[0..4] == u;
    assert OccursAt(u, t, 0);
  }
}
