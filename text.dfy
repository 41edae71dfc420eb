/** The text test behind a return: does the damage report mention "damage",
    ignoring case? */
module Text {
  import opened Tables

  predicate IsUpper(c: char) {
    'A' <= c <= 'Z'
  }

  /** Lower-casing of one character, for the ASCII letters. */
  function LowerChar(c: char): (d: char)
    ensures IsUpper(c) ==> d as int == c as int + 32
    ensures !IsUpper(c) ==> d == c
  {
    if IsUpper(c) then (c as int + 32) as char else c
  }

  /** str.lower() on the ASCII letters: same length, each upper-case letter
      replaced by its lower-case form, and no upper-case letter left. */
  function Lower(s: string): (r: string)
    ensures |r| == |s|
    ensures forall i :: 0 <= i < |s| ==> r[i] == LowerChar(s[i])
    ensures forall i :: 0 <= i < |r| ==> !IsUpper(r[i])
  {
    seq(|s|, i requires 0 <= i < |s| => LowerChar(s[i]))
  }

  /** p occurs in s starting at index i. */
  predicate OccursAt(s: string, p: string, i: int) {
    0 <= i && i + |p| <= |s| && s[i..i + |p|] == p
  }

  /** Python's `p in s` on strings: true exactly when p occurs somewhere in s. */
  function Contains(s: string, p: string): (r: bool)
    ensures r <==> exists i :: OccursAt(s, p, i)
    decreases |s|
  {
    if |s| < |p| then
      assert forall i :: !OccursAt(s, p, i);
      false
    else if s[..|p|] == p then
      assert OccursAt(s, p, 0);
      true
    else
      var rest := Contains(s[1..], p);
      assert !OccursAt(s, p, 0);
      forall i | OccursAt(s, p, i) ensures OccursAt(s[1..], p, i - 1) {
        OccursInTail(s, p, i - 1);
      }
      assert rest ==> exists i :: OccursAt(s, p, i) by {
        if rest {
          var j :| OccursAt(s[1..], p, j);
          OccursInTail(s, p, j);
        }
      }
      rest
  }

  /** Occurrences in s[1..] are those in s shifted one place left. */
  lemma OccursInTail(s: string, p: string, i: int)
    requires |s| >= 1 && i >= 0
    ensures OccursAt(s[1..], p, i) <==> OccursAt(s, p, i + 1)
  {
    if 0 <= i && i + 1 + |p| <= |s| {
      assert s[1..][i..i + |p|] == s[i + 1..i + 1 + |p|];
    }
  }

  const DAMAGE: string := "damage"

  /** `note and 'damage' in note.lower()`: a missing or empty report never
      mentions damage; otherwise "damage" must occur, in any mix of cases. */
  function MentionsDamage(note: Option<string>): (r: bool)
    ensures r <==> note.Some? && exists i :: OccursAt(Lower(note.value), DAMAGE, i)
    ensures r ==> |note.value| >= |DAMAGE|
  {
    note.Some? && Contains(Lower(note.value), DAMAGE)
  }

  /** A report reading "Damage detected" sends the equipment to maintenance. */
  lemma DamageDetectedMentionsDamage()
    ensures MentionsDamage(Some("Damage detected"))
  {
    assert OccursAt(Lower("Damage detected"), DAMAGE, 0);
  }

  /** A report without the letters of "damage" in a row, such as "scratched",
      does not. */
  lemma ScratchedDoesNotMentionDamage()
    ensures !MentionsDamage(Some("Scratched"))
  {
    var s := Lower("Scratched");
    assert s == "scratched";
    forall i | 0 <= i <= |s| - |DAMAGE| ensures !OccursAt(s, DAMAGE, i) {
      assert s[i..i + |DAMAGE|][0] == s[i] != 'd';
    }
  }
}
