/** Case-insensitive substring search, the meaning given here to a
    `{ $regex: query, $options: "i" }` filter whose query has no
    metacharacters. Case folding is ASCII only. */
module Text {

  function Lower(c: char): (d: char)
    ensures 'A' <= c <= 'Z' ==> d as int == c as int + 32
    ensures !('A' <= c <= 'Z') ==> d == c
  {
    if 'A' <= c <= 'Z' then (c as int + 32) as char else c
  }

  function LowerStr(s: string): (r: string)
    ensures |r| == |s| && forall i :: 0 <= i < |s| ==> r[i] == Lower(s[i])
  {
    seq(|s|, i requires 0 <= i < |s| => Lower(s[i]))
  }

  /** `s` contains `q` starting at its first position. */
  predicate StartsWith(s: string, q: string) {
    |q| <= |s| && s[..|q|] == q
  }

  /** `s` contains `q` somewhere, scanning from the left. */
  predicate Contains(s: string, q: string)
    decreases |s|
  {
    StartsWith(s, q) || (s != [] && Contains(s[1..], q))
  }

  /** `q` occurs in `s` at position `i`. */
  predicate OccursAt(s: string, q: string, i: int) {
    0 <= i && i + |q| <= |s| && s[i..i + |q|] == q
  }

  /** The scan finds `q` exactly when some slice of `s` equals it. */
  lemma {:induction false} ContainsMeans(s: string, q: string)
    ensures Contains(s, q) <==> exists i :: OccursAt(s, q, i)
    decreases |s|
  {
    if s != [] {
      ContainsMeans(s[1..], q);
      if exists i :: OccursAt(s, q, i) {
        var i :| OccursAt(s, q, i);
        if i > 0 {
          assert s[1..][i - 1..i - 1 + |q|] == q;
          assert OccursAt(s[1..], q, i - 1);
        }
      }
      if Contains(s[1..], q) && !StartsWith(s, q) {
        var i :| OccursAt(s[1..], q, i);
        assert s[i + 1..i + 1 + |q|] == q;
        assert OccursAt(s, q, i + 1);
      }
      if StartsWith(s, q) {
        assert OccursAt(s, q, 0);
      }
    } else {
      if exists i :: OccursAt(s, q, i) {
        var i :| OccursAt(s, q, i);
        assert q == [] && StartsWith(s, q);
      }
      if Contains(s, q) {
        assert OccursAt(s, q, 0);
      }
    }
  }

  predicate ContainsIgnoringCase(s: string, q: string) {
    Contains(LowerStr(s), LowerStr(q))
  }

  /** Folding is idempotent, so folding the title or the query beforehand
      changes no answer of the case-insensitive search. */
  lemma ContainsIgnoringCaseOfFolded(s: string, q: string)
    ensures ContainsIgnoringCase(s, q) == ContainsIgnoringCase(LowerStr(s), LowerStr(q))
  {
    assert LowerStr(LowerStr(s)) == LowerStr(s);
    assert LowerStr(LowerStr(q)) == LowerStr(q);
  }
}
