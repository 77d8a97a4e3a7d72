/** The few string operations the modelled code takes from Go's standard library. */
module Text {
  /** The ASCII part of unicode.IsSpace. */
  predicate IsSpace(c: char) { c == ' ' || c == '\t' || c == '\n' || c == '\r' || c == 11 as char || c == 12 as char }

  function TrimLeft(s: string): string {
    if s != [] && IsSpace(s[0]) then TrimLeft(s[1..]) else s
  }

  function TrimRight(s: string): string {
    if s != [] && IsSpace(s[|s| - 1]) then TrimRight(s[..|s| - 1]) else s
  }

  function TrimSpace(s: string): string { TrimRight(TrimLeft(s)) }

  lemma TrimRightKeepsHead(s: string)
    ensures TrimRight(s) <= s
    ensures TrimRight(s) != [] ==> !IsSpace(TrimRight(s)[|TrimRight(s)| - 1])
  {
  }

  lemma TrimLeftHead(s: string)
    ensures TrimLeft(s) != [] ==> !IsSpace(TrimLeft(s)[0])
  {
  }

  lemma TrimSpaceIdempotent(s: string)
    ensures TrimSpace(TrimSpace(s)) == TrimSpace(s)
  {
    TrimLeftHead(s);
    TrimRightKeepsHead(TrimLeft(s));
  }

  /** Blanks around a text are cut off, up to the first and the last character that is none. */
  lemma {:induction false} TrimSpaceOf(before: string, core: string, after: string)
    requires forall k :: 0 <= k < |before| ==> before[k] == ' ' || 9 <= before[k] as int <= 13
    requires forall k :: 0 <= k < |after| ==> after[k] == ' ' || 9 <= after[k] as int <= 13
    requires core != "" && core[0] != ' ' && !(9 <= core[0] as int <= 13)
    requires core[|core| - 1] != ' ' && !(9 <= core[|core| - 1] as int <= 13)
    ensures TrimSpace(before + core + after) == core
  {
    TrimLeftOf(before, core + after);
    assert before + core + after == before + (core + after);
    TrimRightOf(core, after);
  }

  lemma {:induction false} TrimLeftOf(before: string, s: string)
    requires forall k :: 0 <= k < |before| ==> before[k] == ' ' || 9 <= before[k] as int <= 13
    requires s != "" && s[0] != ' ' && !(9 <= s[0] as int <= 13)
    ensures TrimLeft(before + s) == s
  {
    if before == "" {
      assert before + s == s;
    } else {
      TrimLeftOf(before[1..], s);
      assert (before + s)[1..] == before[1..] + s;
    }
  }

  lemma {:induction false} TrimRightOf(s: string, after: string)
    requires forall k :: 0 <= k < |after| ==> after[k] == ' ' || 9 <= after[k] as int <= 13
    requires s != "" && s[|s| - 1] != ' ' && !(9 <= s[|s| - 1] as int <= 13)
    ensures TrimRight(s + after) == s
  {
    if after == "" {
      assert s + after == s;
    } else {
      TrimRightOf(s, after[..|after| - 1]);
      assert (s + after)[..|s + after| - 1] == s + after[..|after| - 1];
    }
  }

  /** Nothing is left of a blank text. */
  lemma {:induction false} TrimSpaceOfBlanks(blanks: string)
    requires forall k :: 0 <= k < |blanks| ==> blanks[k] == ' ' || 9 <= blanks[k] as int <= 13
    ensures TrimSpace(blanks) == ""
  {
    if blanks != "" { TrimSpaceOfBlanks(blanks[1..]); }
  }
}
