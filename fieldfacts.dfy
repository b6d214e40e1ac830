/**
 * What the labelled rules of `parse` (project.py:126-151) promise about the
 * value they extract, for every input text.
 */
module FieldFacts {
  import opened Wrappers
  import opened Chars
  import opened Normalizer
  import opened Boundary
  import opened Shapes
  import opened Fields

  /** Somewhere in `t` an attempt of `rule` finds its label. */
  predicate LabelPresent(t: string, rule: Rule)
    requires WellFormed(rule)
  {
    exists i: nat :: i <= |t| && LabelAt(t, i, rule).Some?
  }

  /** A field is set only when its label occurs: no rule invents a value. */
  lemma ValueNeedsLabel(t: string, rule: Rule)
    requires WellFormed(rule)
    ensures Extract(t, rule).Some? ==> LabelPresent(t, rule)
  {
    if Extract(t, rule).Some? {
      var i := MatchStart(t, rule).value;
      assert LabelAt(t, i, rule).Some?;
    }
  }

  /**
   * A free-text attempt never fails once its label is there: `.*?` may be
   * empty and the run of non-newline characters always ends at a newline or
   * at the end of the text, where the lookahead holds.
   */
  lemma FreeTextAttempt(t: string, i: nat, rule: Rule)
    requires IsFreeText(rule) && LabelAt(t, i, rule).Some?
    ensures RuleAt(t, i, rule).Some?
    ensures RuleAt(t, i, rule).value.start == RunEnd(t, LabelAt(t, i, rule).value, Space)
  {
    var l := LabelAt(t, i, rule).value;
    var v := RunEnd(t, l, Space);
    var hi := RunEnd(t, v, NotNewline);
    assert LazyEnd(t, hi, Free) by {
      if hi < |t| {
        var q := RunEnd(t, hi, Space);
        assert t[hi..q][0] == '\n';
      }
    }
  }

  /** History, complaint and insurance are set exactly when their label occurs. */
  lemma FreeTextSetIffLabel(t: string, rule: Rule)
    requires IsFreeText(rule)
    ensures Extract(t, rule).Some? <==> LabelPresent(t, rule)
  {
    ValueNeedsLabel(t, rule);
    if LabelPresent(t, rule) {
      var i: nat :| i <= |t| && LabelAt(t, i, rule).Some?;
      FreeTextAttempt(t, i, rule);
    }
  }

  /**
   * A lazy value is the shortest one: it stops at the first position (after
   * its minimum length) where the lookahead holds, either there or after a
   * skipped `\s+Medical`, so it never runs into the next label.
   */
  lemma LazyValueIsShortest(t: string, rule: Rule)
    requires WellFormed(rule) && rule.capture.Lazy? && MatchSpan(t, rule).Some?
    ensures var s := MatchSpan(t, rule).value;
      && EndsValue(t, s.end, rule.capture.look)
      && (forall d :: s.start + rule.capture.min <= d < s.end ==> !EndsValue(t, d, rule.capture.look))
      && (forall k :: s.start <= k < s.end ==> In(t[k], rule.capture.cls))
  {
    var i := MatchStart(t, rule).value;
    var l := LabelAt(t, i, rule).value;
    var v := RunEnd(t, l, Space);
    var c := rule.capture;
    var s := LazyCapture(t, l, v, c.cls, c.min, c.look).value;
    assert MatchSpan(t, rule) == Some(s);
    forall d | s.start + c.min <= d < s.end ensures !EndsValue(t, d, c.look) {
      assert !LazyEnd(t, d, c.look);
    }
  }

  /**
   * A lazy value never ends in whitespace and `Medical` when the lookahead
   * holds after that word: the noise word is skipped instead.
   */
  lemma LazyValueDropsMedical(t: string, rule: Rule, v: nat, e: nat, d: nat)
    requires WellFormed(rule) && rule.capture.Lazy? && MatchSpan(t, rule) == Some(Span(v, e))
    requires v + rule.capture.min <= d && d + 7 < e
    ensures !(AllSpace(t[d..e - 7]) && t[e - 7..e] == "Medical" && LookaheadAt(t, e, rule.capture.look))
  {
    LazyValueIsShortest(t, rule);
    if AllSpace(t[d..e - 7]) && t[e - 7..e] == "Medical" && LookaheadAt(t, e, rule.capture.look) {
      MedicalIsNoise(t, d, e, rule.capture.look);
    }
  }

  /** A value of a greedy shape starts and ends with a letter and holds no colon. */
  lemma FitsFrame(s: string, shape: Shape)
    requires Fits(s, shape)
    ensures |s| > 0 && IsLetter(s[0]) && IsLetter(s[|s| - 1])
    ensures forall k :: 0 <= k < |s| ==> s[k] != ':'
  {
    if shape == Parts {
      PartsChars(s, 3);
    }
  }

  /** A slice of a greedy shape neither starts nor ends with whitespace. */
  lemma FitsBounds(t: string, v: nat, e: nat, shape: Shape)
    requires v < e <= |t| && Fits(t[v..e], shape)
    ensures !IsSpace(t[v]) && !IsSpace(t[e - 1])
  {
    FitsFrame(t[v..e], shape);
    assert t[v] == t[v..e][0] && t[e - 1] == t[v..e][e - 1 - v];
  }

  /** No greedy shape ends in whitespace or takes in a colon. */
  lemma NoFitAcross(t: string, v: nat, e: nat, p: nat, shape: Shape)
    requires v <= p < e <= |t| && (t[p] == ':' || (p == e - 1 && t[p] == ' '))
    ensures !Fits(t[v..e], shape)
  {
    if Fits(t[v..e], shape) {
      FitsFrame(t[v..e], shape);
    }
  }

  /**
   * A greedy value stops before a following `Word:` label: a longer candidate
   * ends in the space, inside the label word, or takes in its colon.
   */
  lemma GreedyStop(t: string, v: nat, e: nat, m: nat, shape: Shape)
    requires v < e && e + 1 < m < |t|
    requires Fits(t[v..e], shape)
    requires t[e] == ' ' && IsUpper(t[e + 1]) && t[m] == ':'
    requires forall k :: e + 1 < k < m ==> IsLower(t[k])
    ensures GreedyCapture(t, v, |t|, shape) == Some(e)
  {
    LabelAheadEnds(t, e, m);
    NoLongerGreedyEnd(t, v, e, m, shape);
    GreedyCaptureIs(t, v, |t|, shape, e);
  }

  /** A space that starts a `Word:` label ends a strict value. */
  lemma LabelAheadEnds(t: string, e: nat, m: nat)
    requires e + 1 < m < |t|
    requires t[e] == ' ' && IsUpper(t[e + 1]) && t[m] == ':'
    requires forall k :: e + 1 < k < m ==> IsLower(t[k])
    ensures EndsValue(t, e, Strict)
  {
    RunEndIs(t, e, Space, e + 1);
    RunEndIs(t, e + 2, Lower, m);
    assert LookaheadAt(t, e, Strict);
  }

  /** Past a space that starts a `Word:` label, no position ends a greedy value. */
  lemma NoLongerGreedyEnd(t: string, v: nat, e: nat, m: nat, shape: Shape)
    requires v < e && e + 1 < m < |t|
    requires t[e] == ' ' && IsUpper(t[e + 1]) && t[m] == ':'
    requires forall k :: e + 1 < k < m ==> IsLower(t[k])
    ensures forall e' :: e < e' <= |t| ==> !GreedyEnd(t, v, e', shape)
  {
    forall e' | e < e' <= |t| ensures !GreedyEnd(t, v, e', shape) {
      if e' == e + 1 || m < e' {
        NoFitAcross(t, v, e', if e' == e + 1 then e else m, shape);
      } else if EndsValue(t, e', Strict) {
        EndsValueBeforeWordStart(t, e', Strict);
      }
    }
  }

  /** A greedy value that reaches the end of the text is taken whole. */
  lemma GreedyToEnd(t: string, v: nat, shape: Shape)
    requires v < |t| && Fits(t[v..], shape)
    ensures GreedyCapture(t, v, |t|, shape) == Some(|t|)
  {
    RunEndIs(t, |t|, Space, |t|);
    assert t[v..|t|] == t[v..];
    GreedyCaptureIs(t, v, |t|, shape, |t|);
  }

  /** Every attempt of `rule` before position `i` fails. */
  predicate NoEarlierAttempt(t: string, rule: Rule, i: nat)
    requires WellFormed(rule)
  {
    forall k: nat :: k < i ==> RuleAt(t, k, rule).None?
  }

  /** An attempt that succeeds after every earlier attempt failed is the match. */
  lemma MatchAt(t: string, rule: Rule, i: nat)
    requires WellFormed(rule) && i <= |t| && RuleAt(t, i, rule).Some?
    requires NoEarlierAttempt(t, rule, i)
    ensures MatchStart(t, rule) == Some(i)
    ensures MatchSpan(t, rule) == RuleAt(t, i, rule)
  {
  }

  /**
   * The label of a greedy rule found by the attempt at `i`, followed by a
   * fitting value ending right before `Word:`, yields that value when no
   * earlier attempt succeeds.
   */
  lemma GreedyValueBeforeLabel(t: string, rule: Rule, i: nat, v: nat, e: nat, m: nat)
    requires WellFormed(rule) && rule.capture.Greedy? && LabelAt(t, i, rule).Some?
    requires NoEarlierAttempt(t, rule, i)
    requires v == RunEnd(t, LabelAt(t, i, rule).value, Space)
    requires v < e && e + 1 < m < |t|
    requires Fits(t[v..e], rule.capture.shape)
    requires t[e] == ' ' && IsUpper(t[e + 1]) && t[m] == ':'
    requires forall k :: e + 1 < k < m ==> IsLower(t[k])
    ensures Extract(t, rule) == Some(t[v..e])
  {
    GreedyStop(t, v, e, m, rule.capture.shape);
    GreedyAttempt(t, rule, i, v, e);
    FitsBounds(t, v, e, rule.capture.shape);
    ValueAt(t, rule, i, v, e);
  }

  /** The attempt at `i` of a greedy rule whose label is there captures the greedy value after it. */
  lemma GreedyAttempt(t: string, rule: Rule, i: nat, v: nat, e: nat)
    requires WellFormed(rule) && rule.capture.Greedy? && LabelAt(t, i, rule).Some?
    requires v == RunEnd(t, LabelAt(t, i, rule).value, Space)
    requires GreedyCapture(t, v, |t|, rule.capture.shape) == Some(e)
    ensures RuleAt(t, i, rule) == Some(Span(v, e))
  {
  }

  /** The attempt at `i` of a lazy rule whose label is there captures the lazy value after it. */
  lemma LazyAttempt(t: string, rule: Rule, i: nat, v: nat, e: nat)
    requires WellFormed(rule) && rule.capture.Lazy? && LabelAt(t, i, rule).Some?
    requires v == RunEnd(t, LabelAt(t, i, rule).value, Space)
    requires var c := rule.capture; LazyCapture(t, LabelAt(t, i, rule).value, v, c.cls, c.min, c.look) == Some(Span(v, e))
    ensures RuleAt(t, i, rule) == Some(Span(v, e))
  {
  }

  /**
   * The label of a lazy rule found by the attempt at `i`, followed by a value
   * of plain characters of the rule's class, not containing `Me`, then a space
   * and a position where a value may end, yields that value when no earlier
   * attempt succeeds.
   */
  lemma LazyValueBeforeLabel(t: string, rule: Rule, i: nat, v: nat, e: nat)
    requires WellFormed(rule) && rule.capture.Lazy? && LabelAt(t, i, rule).Some?
    requires NoEarlierAttempt(t, rule, i)
    requires v == RunEnd(t, LabelAt(t, i, rule).value, Space)
    requires v < e < |t| && v + rule.capture.min <= e
    requires forall k :: v <= k < e ==> In(t[k], rule.capture.cls) && Plain(t[k])
    requires NoMe(t, v, e)
    requires !IsSpace(t[e - 1]) && t[e] == ' ' && EndsValue(t, e, rule.capture.look)
    ensures Extract(t, rule) == Some(t[v..e])
  {
    var c := rule.capture;
    var l := LabelAt(t, i, rule).value;
    RunEndPast(t, v, c.cls, e);
    NoEndInside(t, v, e, c.look);
    LazyCaptureIs(t, l, v, c.cls, c.min, c.look, e);
    LazyAttempt(t, rule, i, v, e);
    ValueAt(t, rule, i, v, e);
  }

  /** The match found at `i` whose group has no whitespace at either end is the value unchanged. */
  lemma ValueAt(t: string, rule: Rule, i: nat, v: nat, e: nat)
    requires WellFormed(rule) && i <= |t| && RuleAt(t, i, rule) == Some(Span(v, e))
    requires NoEarlierAttempt(t, rule, i)
    requires v < e <= |t| && !IsSpace(t[v]) && !IsSpace(t[e - 1])
    ensures Extract(t, rule) == Some(t[v..e])
  {
    MatchAt(t, rule, i);
    var g := t[v..e];
    assert Group(t, rule) == Some(g);
    assert g[0] == t[v] && g[|g| - 1] == t[e - 1];
    StripNoop(g);
  }

  /** A greedy value has its shape and needs no stripping. */
  lemma GreedyValueShape(t: string, rule: Rule)
    requires WellFormed(rule) && rule.capture.Greedy? && Extract(t, rule).Some?
    ensures Extract(t, rule) == Group(t, rule)
    ensures Fits(Extract(t, rule).value, rule.capture.shape)
  {
    var g := Group(t, rule).value;
    var i := MatchStart(t, rule).value;
    assert Fits(g, rule.capture.shape);
    FitsFrame(g, rule.capture.shape);
    StripNoop(g);
  }

  lemma {:induction false} PhraseHasAWord(s: string)
    requires |s| > 0 && IsLetter(s[0])
    ensures WordCount(s) >= 1
    decreases |s|
  {
    if |s| > 1 {
      PhraseHasAWord(s[..|s| - 1]);
    }
  }

  /** A name is one to four words of letters, separated by whitespace. */
  lemma NameShape(t: string)
    requires Extract(t, NameRule).Some?
    ensures var n := Extract(t, NameRule).value;
      IsPhrase(n) && 1 <= WordCount(n) <= 4
  {
    GreedyValueShape(t, NameRule);
    PhraseHasAWord(Extract(t, NameRule).value);
  }

  /**
   * Diagnosis, procedure and medications are at most four phrases joined by a
   * comma, a hyphen or `(and)`, made of letters, whitespace, `,`, `-`, `(`, `)`,
   * starting and ending with a letter.
   */
  lemma PartsShape(t: string, rule: Rule)
    requires rule == DiagnosisRule || rule == ProcedureRule || rule == MedicationsRule
    requires Extract(t, rule).Some?
    ensures var x := Extract(t, rule).value;
      && IsParts(x, 3)
      && IsLetter(x[0]) && IsLetter(x[|x| - 1])
      && forall k :: 0 <= k < |x| ==> IsPartChar(x[k])
  {
    GreedyValueShape(t, rule);
    PartsChars(Extract(t, rule).value, 3);
  }

  /**
   * On normalised text every value is normal too: single spaces only, none at
   * either end.
   */
  lemma ValueOfNormalText(t: string, rule: Rule)
    requires WellFormed(rule) && IsNormal(t) && Extract(t, rule).Some?
    ensures var x := Extract(t, rule).value;
      IsNormal(x) && (x == [] || (x[0] != ' ' && x[|x| - 1] != ' '))
  {
    var s := MatchSpan(t, rule).value;
    assert Group(t, rule) == Some(t[s.start..s.end]);
    NormalSlice(t, s.start, s.end);
    StripKeepsNormal(t[s.start..s.end]);
  }

  /** The age attempt at `i` finds its label followed, after whitespace, by a digit. */
  predicate AgeAt(t: string, i: nat) {
    && LabelAt(t, i, AgeRule).Some?
    && var v := RunEnd(t, LabelAt(t, i, AgeRule).value, Space);
       v < |t| && IsDigit(t[v])
  }

  lemma AgeAttempt(t: string, i: nat)
    ensures RuleAt(t, i, AgeRule).Some? <==> AgeAt(t, i)
  {
  }

  /** The age is set exactly when some `Age:` label is followed by a digit. */
  lemma AgeSetIff(t: string)
    ensures Age(t).Some? <==> exists i: nat :: i <= |t| && AgeAt(t, i)
  {
    if Age(t).Some? {
      var i := MatchStart(t, AgeRule).value;
      AgeAttempt(t, i);
    }
    if exists i: nat :: i <= |t| && AgeAt(t, i) {
      var i: nat :| i <= |t| && AgeAt(t, i);
      AgeAttempt(t, i);
    }
  }

  /**
   * The age is read from the first one to three digits after the label: the
   * span holds digits only, stops early only at a non-digit or the end, and
   * its value lies between 0 and 999.
   */
  lemma AgeValue(t: string)
    requires Age(t).Some?
    ensures var s := MatchSpan(t, AgeRule).value;
      && 1 <= s.end - s.start <= 3
      && (forall k :: s.start <= k < s.end ==> IsDigit(t[k]))
      && (s.end - s.start < 3 ==> s.end == |t| || !IsDigit(t[s.end]))
      && Age(t) == Some(DecimalValue(t[s.start..s.end]))
      && 0 <= Age(t).value <= 999
  {
    var s := MatchSpan(t, AgeRule).value;
    var g := t[s.start..s.end];
    assert Pow10(3) == 1000;
    assert Pow10(|g|) <= 1000;
  }

  /**
   * A rule whose label word is all lower-case letters, whose separators are
   * label separators, and which takes no `Medical` prefix.
   */
  predicate PlainLabel(rule: Rule) {
    && WellFormed(rule) && !rule.medicalPrefix && rule.seps <= FreeLabelSeps
    && forall j :: 0 <= j < |rule.word| ==> IsLower(rule.word[j])
  }

  /** No attempt of `rule` anywhere in `s` finds its label. */
  predicate NoLabelIn(s: string, rule: Rule)
    requires WellFormed(rule)
  {
    forall k: nat :: k <= |s| ==> LabelAt(s, k, rule).None?
  }

  /** A label found by a plain rule: its first, second and last letters, then a separator. */
  lemma LabelLetters(t: string, k: nat, rule: Rule)
    requires PlainLabel(rule) && LabelAt(t, k, rule).Some?
    ensures var w := rule.word; var n := |w|;
      && k + n < |t| && t[k + n] in rule.seps
      && (t[k] == w[0] || t[k] == Capital(w[0]))
      && (n > 1 ==> t[k + 1] == w[1] && t[k + n - 1] == w[n - 1])
  {
    var w := rule.word;
    var n := |w|;
    assert t[k..k + n][0] == t[k] && t[k..k + n][n - 1] == t[k + n - 1];
    if n > 1 {
      assert t[k..k + n][1] == t[k + 1];
      assert ([Capital(w[0])] + w[1..])[1] == w[1];
      assert ([Capital(w[0])] + w[1..])[n - 1] == w[n - 1];
    }
  }

  /** A label found by a plain rule, separator included, holds no whitespace. */
  lemma LabelHasNoSpace(t: string, k: nat, rule: Rule)
    requires PlainLabel(rule) && LabelAt(t, k, rule).Some?
    ensures forall j :: k <= j <= k + |rule.word| ==> !IsSpace(t[j])
  {
    var w := rule.word;
    var n := |w|;
    LabelLetters(t, k, rule);
    forall j | k <= j <= k + n ensures !IsSpace(t[j]) {
      if j < k + n {
        LabelCharAt(t, k, rule, j);
      }
    }
  }

  /** Each character of a label found by a plain rule is its word's letter, or the capital first letter. */
  lemma LabelCharAt(t: string, k: nat, rule: Rule, j: nat)
    requires PlainLabel(rule) && LabelAt(t, k, rule).Some? && k <= j < k + |rule.word|
    ensures t[j] == rule.word[j - k] || (j == k && t[j] == Capital(rule.word[0]))
  {
    var w := rule.word;
    var n := |w|;
    LabelLetters(t, k, rule);
    assert t[k..k + n][j - k] == t[j];
    if j > k {
      var c := [Capital(w[0])] + w[1..];
      assert c[j - k] == w[1..][j - k - 1] == w[j - k];
    }
  }

  /** A label found in `a + b` before the end of `a`, when `a` ends in a space, is a label of `a`. */
  lemma LabelInPrefix(a: string, b: string, k: nat, rule: Rule)
    requires PlainLabel(rule) && |a| > 0 && a[|a| - 1] == ' ' && k < |a|
    requires LabelAt(a + b, k, rule).Some?
    ensures LabelAt(a, k, rule) == LabelAt(a + b, k, rule)
  {
    var t := a + b;
    var n := |rule.word|;
    LabelHasNoSpace(t, k, rule);
    assert t[|a| - 1] == ' ';
    assert a[k..k + n] == t[k..k + n];
  }

  /** A label found in `a + b` from the end of `a` on is a label of `b`. */
  lemma LabelInSuffix(a: string, b: string, k: nat, rule: Rule)
    requires PlainLabel(rule) && |a| <= k && LabelAt(a + b, k, rule).Some?
    ensures LabelAt(b, k - |a|, rule) == Some(LabelAt(a + b, k, rule).value - |a|)
  {
    var t := a + b;
    var n := |rule.word|;
    var kb := k - |a|;
    assert WordStart(t, k, rule) == k && WordStart(b, kb, rule) == kb;
    LabelLetters(t, k, rule);
    SliceInSuffix(a, b, k, n);
    assert t[k + n] == b[kb + n];
  }

  /** A slice of `a + b` from the end of `a` on is the same slice of `b`. */
  lemma SliceInSuffix(a: string, b: string, k: nat, n: nat)
    requires |a| <= k && k + n <= |a| + |b|
    ensures b[k - |a|..k - |a| + n] == (a + b)[k..k + n]
  {
    var x := b[k - |a|..k - |a| + n];
    var y := (a + b)[k..k + n];
    forall j | 0 <= j < n ensures x[j] == y[j] {
      assert x[j] == b[k - |a| + j];
    }
  }

  /** Cut after a space, a text has a label only where one of its pieces has it. */
  lemma NoLabelInJoin(a: string, b: string, rule: Rule)
    requires PlainLabel(rule) && |a| > 0 && a[|a| - 1] == ' '
    requires NoLabelIn(a, rule) && NoLabelIn(b, rule)
    ensures NoLabelIn(a + b, rule)
  {
    forall k: nat | k <= |a + b| ensures LabelAt(a + b, k, rule).None? {
      if LabelAt(a + b, k, rule).Some? {
        if k < |a| {
          LabelInPrefix(a, b, k, rule);
        } else {
          LabelInSuffix(a, b, k, rule);
        }
      }
    }
  }

  /** No attempt succeeds inside a prefix that ends in a space and holds no label. */
  lemma NoAttemptInPrefix(a: string, b: string, rule: Rule)
    requires PlainLabel(rule) && |a| > 0 && a[|a| - 1] == ' ' && NoLabelIn(a, rule)
    ensures NoEarlierAttempt(a + b, rule, |a|)
  {
    forall k: nat | k < |a| ensures RuleAt(a + b, k, rule).None? {
      if LabelAt(a + b, k, rule).Some? {
        LabelInPrefix(a, b, k, rule);
      }
    }
  }

  /** A label word is recognised from its characters one by one. */
  lemma LabelEndIs(t: string, i: nat, word: string, seps: set<char>)
    requires |word| > 0 && IsLower(word[0]) && i + |word| < |t|
    requires t[i] == word[0] || t[i] == Capital(word[0])
    requires forall k :: 1 <= k < |word| ==> t[i + k] == word[k]
    requires t[i + |word|] in seps
    ensures LabelEnd(t, i, word, seps) == Some(i + |word| + 1)
  {
    assert t[i + 1..i + |word|] == word[1..];
  }
}
