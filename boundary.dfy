/**
 * The pieces the labelled rules of `parse` (project.py:126-151) share: the
 * label itself, the optional noise word `(?:\s+Medical)?` and the lookahead
 * that ends a value, either `(?=\s*[A-Z][a-z]*(?::|-)|\s*$)` (name, address,
 * diagnosis, procedure, medications) or `(?=\s*(?:[A-Z][a-z]*[:|-]|\n|$))`
 * (history, complaint, insurance).
 */
module Boundary {
  import opened Wrappers
  import opened Chars

  function Capital(c: char): (u: char)
    requires IsLower(c)
    ensures IsUpper(u)
  {
    (c as int - 32) as char
  }

  /**
   * `[Ww]ord` followed by one character of `seps`, starting at `i`: the
   * position just after the separator.
   */
  function LabelEnd(t: string, i: nat, word: string, seps: set<char>): (r: Option<nat>)
    requires |word| > 0 && IsLower(word[0])
    ensures r.Some? <==>
      && i + |word| < |t|
      && (t[i..i + |word|] == word || t[i..i + |word|] == [Capital(word[0])] + word[1..])
      && t[i + |word|] in seps
    ensures r.Some? ==> r.value == i + |word| + 1
  {
    assert word == [word[0]] + word[1..];
    assert i + |word| < |t| ==> t[i..i + |word|] == [t[i]] + t[i + 1..i + |word|];
    if && i + |word| < |t|
       && (t[i] == word[0] || t[i] == Capital(word[0]))
       && t[i + 1..i + |word|] == word[1..]
       && t[i + |word|] in seps
    then Some(i + |word| + 1)
    else None
  }

  /** `(?::|-)` */
  const LabelSeps: set<char> := {':', '-'}

  /** `[:|-]` */
  const FreeLabelSeps: set<char> := {':', '|', '-'}

  /** `[A-Z][a-z]*` followed by a character of `seps`, starting exactly at `q`. */
  predicate CapitalWordAt(t: string, q: nat, seps: set<char>) {
    && q < |t|
    && IsUpper(t[q])
    && var m := RunEnd(t, q + 1, Lower);
       m < |t| && t[m] in seps
  }

  /** Which of the two lookaheads a rule uses. */
  datatype Lookahead = Strict | Free

  /**
   * The lookahead holds at `p`: after the whitespace run from `p` comes the end
   * of the text or something shaped like a label; the free-text form also
   * accepts a newline inside that run. `\s*` can only be followed by a capital
   * letter or the end once it has taken the whole run, so only the whole run
   * needs trying.
   */
  predicate LookaheadAt(t: string, p: nat, look: Lookahead)
    requires p <= |t|
  {
    var q := RunEnd(t, p, Space);
    match look
    case Strict => q == |t| || CapitalWordAt(t, q, LabelSeps)
    case Free => q == |t| || CapitalWordAt(t, q, FreeLabelSeps) || '\n' in t[p..q]
  }

  /** `\s+Medical` at `p`: the position after the noise word. */
  function NoiseEnd(t: string, p: nat): (r: Option<nat>)
    requires p <= |t|
    ensures r.Some? ==> p < r.value - 7 && r.value <= |t| && t[r.value - 7..r.value] == "Medical"
    ensures r.Some? ==> AllSpace(t[p..r.value - 7])
  {
    var q := RunEnd(t, p, Space);
    if p < q && q + 7 <= |t| && t[q..q + 7] == "Medical" then Some(q + 7) else None
  }

  /**
   * `(?:\s+Medical)?(?=…)` holds at `e`: a value may end at `e`. The optional
   * group is tried first, so the noise word is skipped whenever the lookahead
   * holds after it; either way the captured value ends at `e`.
   */
  predicate EndsValue(t: string, e: nat, look: Lookahead)
    requires e <= |t|
  {
    || (NoiseEnd(t, e).Some? && LookaheadAt(t, NoiseEnd(t, e).value, look))
    || LookaheadAt(t, e, look)
  }

  /**
   * Whitespace and `Medical` followed by a position where the lookahead holds
   * let a value end before the whitespace.
   */
  lemma MedicalIsNoise(t: string, d: nat, e: nat, look: Lookahead)
    requires d + 7 < e <= |t|
    requires AllSpace(t[d..e - 7]) && t[e - 7..e] == "Medical" && LookaheadAt(t, e, look)
    ensures NoiseEnd(t, d) == Some(e) && EndsValue(t, d, look)
  {
    assert t[e - 7] == 'M';
    assert forall k :: d <= k < e - 7 ==> IsSpace(t[k]) by {
      forall k | d <= k < e - 7 ensures IsSpace(t[k]) {
        assert t[d..e - 7][k - d] == t[k];
      }
    }
    RunEndIs(t, d, Space, e - 7);
  }

  /** A space, then `Word:`, makes the lookahead hold, so a value may end there. */
  lemma LabelAhead(t: string, p: nat, m: nat, look: Lookahead)
    requires p + 1 < m < |t|
    requires t[p] == ' ' && IsUpper(t[p + 1]) && t[m] == ':'
    requires forall k :: p + 1 < k < m ==> IsLower(t[k])
    ensures LookaheadAt(t, p, look) && EndsValue(t, p, look)
  {
    RunEndIs(t, p, Space, p + 1);
    RunEndIs(t, p + 2, Lower, m);
  }

  /** A character that can neither be a label separator nor the newline alternative. */
  predicate Plain(c: char) {
    c != ':' && c != '-' && c != '|' && c != '\n'
  }

  /** No `Me` starts in `t[v..e]`, so neither does the noise word. */
  predicate NoMe(t: string, v: nat, e: nat)
    requires v <= e <= |t|
  {
    forall k :: v <= k && k + 1 < e ==> !(t[k] == 'M' && t[k + 1] == 'e')
  }

  /**
   * Inside a stretch of plain characters without the noise word, ending in a
   * non-space right before a space, no value can end: a label-shaped word or
   * `Medical` would have to start inside it.
   */
  lemma NoEndInside(t: string, v: nat, e: nat, look: Lookahead)
    requires v < e < |t|
    requires forall k :: v <= k < e ==> Plain(t[k])
    requires NoMe(t, v, e)
    requires !IsSpace(t[e - 1]) && t[e] == ' '
    ensures forall d :: v <= d < e ==> !EndsValue(t, d, look)
  {
    forall d | v <= d < e ensures !EndsValue(t, d, look) {
      var q := RunEnd(t, d, Space);
      assert q < e;
      if q < |t| && IsUpper(t[q]) {
        var m := RunEnd(t, q + 1, Lower);
        assert m <= e;
        assert t[m] !in FreeLabelSeps;
      }
      assert '\n' !in t[d..q];
    }
  }

  /** After normalisation the newline alternative of the free-text lookahead never fires. */
  lemma NoNewlineAlternative(t: string, p: nat)
    requires p <= |t|
    requires forall k :: 0 <= k < |t| ==> t[k] != '\n'
    ensures LookaheadAt(t, p, Free) <==>
      var q := RunEnd(t, p, Space); q == |t| || CapitalWordAt(t, q, FreeLabelSeps)
  {
    var q := RunEnd(t, p, Space);
    assert '\n' !in t[p..q];
  }

  /**
   * Where a value may end, the text continues with whitespace, the end of the
   * text, or a capital letter: never with a lower-case letter or a digit.
   */
  lemma {:induction false} EndsValueBeforeWordStart(t: string, e: nat, look: Lookahead)
    requires e < |t| && EndsValue(t, e, look)
    ensures IsSpace(t[e]) || IsUpper(t[e])
  {
    var q := RunEnd(t, e, Space);
    if !IsSpace(t[e]) {
      RunEndIs(t, e, Space, e);
      assert NoiseEnd(t, e).None?;
      assert '\n' !in t[e..q];
    }
  }
}
