/**
 * The value shapes of the greedy rules: the name pattern
 * `[A-Za-z]+(?:\s+[A-Za-z]+){0,3}` (project.py:126) and the multi-part
 * pattern `[A-Za-z]+(?:\s+[A-Za-z]+)*(?:(?:,|\s*-|\s*\(and\))\s*[A-Za-z]+(?:\s+[A-Za-z]+)*){0,3}`
 * of diagnosis, procedure and medications (project.py:144-150), each written
 * as a recogniser of a whole string.
 */
module Shapes {
  import opened Wrappers
  import opened Chars

  /** `[A-Za-z]+(?:\s+[A-Za-z]+)*`: letters and whitespace, first and last a letter. */
  predicate IsPhrase(s: string) {
    && |s| > 0
    && IsLetter(s[0])
    && IsLetter(s[|s| - 1])
    && forall k :: 0 <= k < |s| ==> In(s[k], LetterOrSpace)
  }

  /** The number of words of `s`: letters not preceded by a letter. */
  function WordCount(s: string): nat
    decreases |s|
  {
    if s == [] then 0
    else
      var n := |s|;
      WordCount(s[..n - 1]) + if IsLetter(s[n - 1]) && (n == 1 || !IsLetter(s[n - 2])) then 1 else 0
  }

  /** A single run of letters is one word. */
  lemma {:induction false} OneWord(w: string)
    requires |w| > 0 && forall k :: 0 <= k < |w| ==> IsLetter(w[k])
    ensures WordCount(w) == 1
    decreases |w|
  {
    if |w| > 1 {
      OneWord(w[..|w| - 1]);
    }
  }

  /** Words on either side of a space are counted separately. */
  lemma {:induction false} WordsJoin(a: string, b: string)
    requires |b| > 0 && IsLetter(b[0])
    ensures WordCount(a + " " + b) == WordCount(a) + WordCount(b)
    decreases |b|
  {
    var s := a + " " + b;
    if |b| == 1 {
      assert s[..|s| - 1] == a + " ";
      assert (a + " ")[..|a|] == a;
    } else {
      var b' := b[..|b| - 1];
      assert s[..|s| - 1] == a + " " + b';
      assert b[..|b| - 1] == b';
      WordsJoin(a, b');
    }
  }

  /** `[A-Za-z]+(?:\s+[A-Za-z]+){0,3}`: one to four words. */
  predicate IsName(s: string) {
    IsPhrase(s) && WordCount(s) <= 4
  }

  /**
   * `,|\s*-|\s*\(and\)` after a phrase that ends at `a`, where `s[a..j]` is the
   * whitespace after the phrase and `s[j]` the first character that is neither
   * a letter nor whitespace: the position after the separator. The comma must
   * follow the phrase directly; the other two may be preceded by whitespace.
   */
  function SeparatorEnd(s: string, a: nat, j: nat): (r: Option<nat>)
    requires a <= j < |s|
    ensures r.Some? ==> j < r.value <= |s|
  {
    if a == j && s[j] == ',' then Some(j + 1)
    else if s[j] == '-' then Some(j + 1)
    else if j + 5 <= |s| && s[j..j + 5] == "(and)" then Some(j + 5)
    else None
  }

  /**
   * `s` is a phrase followed by at most `n` more phrases, each after a
   * separator and optional whitespace. A phrase cannot contain a separator, so
   * the first phrase is the longest prefix of letters and whitespace with its
   * trailing whitespace removed, and the split is unique.
   */
  predicate IsParts(s: string, n: nat)
    decreases |s|
  {
    var j := RunEnd(s, 0, LetterOrSpace);
    if j == |s| then IsPhrase(s)
    else
      var a := |TrimEnd(s[..j])|;
      && n > 0
      && IsPhrase(s[..a])
      && match SeparatorEnd(s, a, j)
         case None => false
         case Some(b) => IsParts(s[RunEnd(s, b, Space)..], n - 1)
  }

  /** The characters a multi-part value is made of. */
  predicate IsPartChar(c: char) {
    IsLetter(c) || IsSpace(c) || c == ',' || c == '-' || c == '(' || c == ')'
  }

  /**
   * A multi-part value is letters, whitespace, commas, hyphens and the
   * parentheses of `(and)`, and it begins and ends with a letter.
   */
  lemma {:induction false} PartsChars(s: string, n: nat)
    requires IsParts(s, n)
    ensures |s| > 0 && IsLetter(s[0]) && IsLetter(s[|s| - 1])
    ensures forall k :: 0 <= k < |s| ==> IsPartChar(s[k])
    decreases |s|
  {
    var j := RunEnd(s, 0, LetterOrSpace);
    if j < |s| {
      var a := |TrimEnd(s[..j])|;
      var b := SeparatorEnd(s, a, j).value;
      var c := RunEnd(s, b, Space);
      var rest := s[c..];
      PartsChars(rest, n - 1);
      assert s[0] == s[..a][0];
      assert s[|s| - 1] == rest[|rest| - 1];
      forall k | 0 <= k < |s| ensures IsPartChar(s[k]) {
        if k < j {
        } else if k < b {
          if b == j + 5 {
            assert s[j..j + 5] == "(and)";
            assert s[k] == "(and)"[k - j];
          }
        } else if k >= c {
          assert s[k] == rest[k - c];
        }
      }
    }
  }

  /** A colon never occurs in a multi-part value. */
  lemma PartsHaveNoColon(s: string, n: nat)
    requires IsParts(s, n)
    ensures forall k :: 0 <= k < |s| ==> s[k] != ':'
  {
    PartsChars(s, n);
  }

  /** A name has no character other than letters and whitespace. */
  lemma NameHasNoColon(s: string)
    requires IsName(s)
    ensures forall k :: 0 <= k < |s| ==> s[k] != ':'
  {
  }
}
