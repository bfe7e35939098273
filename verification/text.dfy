/** The two string operations the student search uses: lower-casing
    (`str.lower()`, restricted to ASCII letters) and substring membership
    (`q in s` on strings). */
module Text {

  /** ASCII lower-casing of one character; every other character is kept. */
  function LowerChar(c: char): (r: char)
    ensures 'A' <= c <= 'Z' ==> r as int == c as int - 'A' as int + 'a' as int
    ensures !('A' <= c <= 'Z') ==> r == c
  {
    if 'A' <= c <= 'Z' then (c as int - 'A' as int + 'a' as int) as char else c
  }

  function Lower(s: string): (r: string)
    ensures |r| == |s|
    ensures forall i :: 0 <= i < |s| ==> r[i] == LowerChar(s[i])
  {
    seq(|s|, i requires 0 <= i < |s| => LowerChar(s[i]))
  }

  /** `q` occurs in `s` starting at position `i`. */
  predicate OccursAt(q: string, s: string, i: int) {
    0 <= i && i + |q| <= |s| && s[i..i + |q|] == q
  }

  /** Python's `q in s` for strings, by scanning start positions left to right. */
  function Contains(s: string, q: string): (b: bool)
    ensures b <==> exists i :: OccursAt(q, s, i)
  {
    if q <= s then
      assert OccursAt(q, s, 0);
      true
    else if s == [] then
      assert forall i :: !OccursAt(q, s, i);
      false
    else
      var rest := Contains(s[1..], q);
      assert forall i :: OccursAt(q, s[1..], i) <==> OccursAt(q, s, i + 1) by {
        forall i ensures OccursAt(q, s[1..], i) <==> OccursAt(q, s, i + 1) {
          if 0 <= i && i + |q| <= |s[1..]| {
            assert s[1..][i..i + |q|] == s[i + 1..i + 1 + |q|];
          }
        }
      }
      assert !OccursAt(q, s, 0);
      assert rest ==> exists i :: OccursAt(q, s, i) by {
        if rest {
          var i :| OccursAt(q, s[1..], i);
          assert OccursAt(q, s, i + 1);
        }
      }
      assert (exists i :: OccursAt(q, s, i)) ==> rest by {
        if exists i :: OccursAt(q, s, i) {
          var i :| OccursAt(q, s, i);
          assert i != 0;
          assert OccursAt(q, s[1..], i - 1);
        }
      }
      rest
  }
}
