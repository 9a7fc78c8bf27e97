/** Trimming and ASCII case, as the standard library defines them. */
module Text {

  /** The characters `trim` removes: those with the Unicode property White_Space. */
  predicate IsWhitespace(c: char) {
    || '\t' <= c <= '\r' || c == ' ' || c as int == 0x85 || c as int == 0xA0 || c as int == 0x1680
    || 0x2000 <= c as int <= 0x200A || c as int == 0x2028 || c as int == 0x2029 || c as int == 0x202F
    || c as int == 0x205F || c as int == 0x3000
  }

  function TrimStart(s: string): string {
    if s != [] && IsWhitespace(s[0]) then TrimStart(s[1..]) else s
  }

  function TrimEnd(s: string): string {
    if s != [] && IsWhitespace(s[|s| - 1]) then TrimEnd(s[..|s| - 1]) else s
  }

  function Trim(s: string): string { TrimEnd(TrimStart(s)) }

  function LowerChar(c: char): char {
    if 'A' <= c <= 'Z' then (c as int + 32) as char else c
  }

  function LowerAll(s: string): string {
    if s == [] then [] else [LowerChar(s[0])] + LowerAll(s[1..])
  }

  predicate AllWhitespace(s: string) { forall i :: 0 <= i < |s| ==> IsWhitespace(s[i]) }

  /** Neither end is a space. */
  predicate Trimmed(s: string) { s == [] || (!IsWhitespace(s[0]) && !IsWhitespace(s[|s| - 1])) }

  lemma {:induction false} StartTrims(before: string, rest: string)
    requires AllWhitespace(before) && (rest == [] || !IsWhitespace(rest[0]))
    ensures TrimStart(before + rest) == rest
  {
    if before == [] {
      assert before + rest == rest;
    } else {
      assert (before + rest)[1..] == before[1..] + rest;
      StartTrims(before[1..], rest);
    }
  }

  lemma {:induction false} EndTrims(rest: string, after: string)
    requires AllWhitespace(after) && (rest == [] || !IsWhitespace(rest[|rest| - 1]))
    ensures TrimEnd(rest + after) == rest
  {
    if after == [] {
      assert rest + after == rest;
    } else {
      assert (rest + after)[..|rest + after| - 1] == rest + after[..|after| - 1];
      EndTrims(rest, after[..|after| - 1]);
    }
  }

  /** Trimming takes the spaces around a text and nothing of the text. */
  lemma TrimTakesTheSpaces(before: string, core: string, after: string)
    requires AllWhitespace(before) && AllWhitespace(after) && Trimmed(core)
    ensures Trim(before + core + after) == core
  {
    hide IsWhitespace;
    if core == [] {
      assert before + core + after == (before + after) + [];
      StartTrims(before + after, []);
      assert "" + "" == "";
      EndTrims([], []);
    } else {
      assert before + core + after == before + (core + after);
      StartTrims(before, core + after);
      EndTrims(core, after);
    }
  }

  /** Two characters are the same up to case when they are equal or the two cases of one ASCII letter. */
  lemma SameUpToCase(c: char, d: char)
    ensures LowerChar(c) == LowerChar(d)
       <==> c == d || ('A' <= c <= 'Z' && d as int == c as int + 32) || ('A' <= d <= 'Z' && c as int == d as int + 32)
    ensures 'a' as int == 'A' as int + 32
  {
  }

  lemma {:induction false} LowerAllIs(s: string)
    ensures |LowerAll(s)| == |s| && forall i :: 0 <= i < |s| ==> LowerAll(s)[i] == LowerChar(s[i])
  {
    if s != [] {
      LowerAllIs(s[1..]);
    }
  }
}
