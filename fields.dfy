/**
 * The nine labelled rules of `parse` (project.py:126-151) as one table of
 * rules and one matcher. Each rule is `[Ww]ord` (procedure also accepts a
 * `[Mm]edical\s*` prefix), a separator, `\s*`, a capture, the optional noise
 * word and a lookahead. Python's `re.search` returns the match attempted at the
 * leftmost position that succeeds; within one attempt the backtracking order
 * is written out per capture kind.
 */
module Fields {
  import opened Wrappers
  import opened Chars
  import opened Boundary
  import opened Shapes

  /** The span of the captured group of a match. */
  datatype Span = Span(start: nat, end: nat)

  datatype Shape = NameWords | Parts

  predicate Fits(s: string, shape: Shape) {
    match shape
    case NameWords => IsName(s)
    case Parts => IsParts(s, 3)
  }

  /** How a rule captures its value after the label and `\s*`. */
  datatype Capture =
    | Greedy(shape: Shape)                         // name, diagnosis, procedure, medications
    | Lazy(cls: Class, min: nat, look: Lookahead)  // address `+?`, history, complaint, insurance `.*?`
    | UpToThreeDigits                              // age `\d{1,3}`

  /** A labelled rule: its label word, written in lower case, the prefix flag, separators and capture. */
  datatype Rule = Rule(word: string, medicalPrefix: bool, seps: set<char>, capture: Capture)

  /**
   * A rule the matcher can run: a non-empty label word starting with a
   * lower-case letter, at least one separator, and a lazy capture of `*?` or
   * `+?`.
   */
  predicate WellFormed(rule: Rule) {
    && |rule.word| > 0
    && IsLower(rule.word[0])
    && rule.seps != {}
    && (rule.capture.Lazy? ==> rule.capture.min <= 1)
  }

  /** project.py:126 */
  const NameRule: Rule := Rule("name", false, {':'}, Greedy(NameWords))
  /** project.py:129; its lookahead has the alternative `\s*`, which always holds. */
  const AgeRule: Rule := Rule("age", false, {':'}, UpToThreeDigits)
  /** project.py:132 */
  const AddressRule: Rule := Rule("address", false, {':'}, Lazy(AddressChar, 1, Strict))
  /** project.py:135 */
  const HistoryRule: Rule := Rule("history", false, FreeLabelSeps, Lazy(NotNewline, 0, Free))
  /** project.py:138 */
  const ComplaintRule: Rule := Rule("complaint", false, FreeLabelSeps, Lazy(NotNewline, 0, Free))
  /** project.py:141 */
  const InsuranceRule: Rule := Rule("insurance", false, FreeLabelSeps, Lazy(NotNewline, 0, Free))
  /** project.py:144 */
  const DiagnosisRule: Rule := Rule("diagnosis", false, FreeLabelSeps, Greedy(Parts))
  /** project.py:147 */
  const ProcedureRule: Rule := Rule("procedure", true, FreeLabelSeps, Greedy(Parts))
  /** project.py:150 */
  const MedicationsRule: Rule := Rule("medications", false, FreeLabelSeps, Greedy(Parts))

  /** Every rule of `parse` is well formed. */
  lemma RulesWellFormed()
    ensures WellFormed(NameRule) && WellFormed(AgeRule) && WellFormed(AddressRule)
    ensures WellFormed(HistoryRule) && WellFormed(ComplaintRule) && WellFormed(InsuranceRule)
    ensures WellFormed(DiagnosisRule) && WellFormed(ProcedureRule) && WellFormed(MedicationsRule)
  {
  }

  /** The free-text rules: `.*?` up to the free-text lookahead. */
  predicate IsFreeText(rule: Rule) {
    WellFormed(rule) && rule.seps == FreeLabelSeps && rule.capture == Lazy(NotNewline, 0, Free)
  }

  /**
   * A greedy capture from `v`: the backtracking order tries end positions from
   * the longest down, so the value ends at the last position up to `hi` where
   * it has the shape and `(?:\s+Medical)?` plus the strict lookahead hold.
   */
  function GreedyCapture(t: string, v: nat, hi: nat, shape: Shape): (r: Option<nat>)
    requires v <= hi <= |t|
    ensures r.Some? ==> v < r.value <= hi && r.value in GreedyEnds(t, v, shape)
    ensures r.Some? ==> forall e :: r.value < e <= hi ==> e !in GreedyEnds(t, v, shape)
    ensures r.None? ==> forall e :: v < e <= hi ==> e !in GreedyEnds(t, v, shape)
  {
    LastIn(GreedyEnds(t, v, shape), v, hi)
  }

  /** The positions where a greedy value from `v` may end. */
  function GreedyEnds(t: string, v: nat, shape: Shape): set<nat> {
    set e: nat | v < e <= |t| && GreedyEnd(t, v, e, shape)
  }

  /** The largest element of `s` in `(lo, hi]`. */
  function LastIn(s: set<nat>, lo: nat, hi: nat): (r: Option<nat>)
    requires lo <= hi
    ensures r.Some? ==> lo < r.value <= hi && r.value in s
    ensures r.Some? ==> forall e :: r.value < e <= hi ==> e !in s
    ensures r.None? ==> forall e :: lo < e <= hi ==> e !in s
    decreases hi
  {
    if hi == lo then None
    else if hi in s then Some(hi)
    else LastIn(s, lo, hi - 1)
  }

  /** The smallest element of `s` in `[lo, hi]`. */
  function FirstIn(s: set<nat>, lo: nat, hi: nat): (r: Option<nat>)
    requires lo <= hi
    ensures r.Some? ==> lo <= r.value <= hi && r.value in s
    ensures r.Some? ==> forall k :: lo <= k < r.value ==> k !in s
    ensures r.None? ==> forall k :: lo <= k <= hi ==> k !in s
    decreases hi - lo
  {
    if lo in s then Some(lo)
    else if lo == hi then None
    else FirstIn(s, lo + 1, hi)
  }

  lemma {:induction false} LastInIs(s: set<nat>, lo: nat, hi: nat, e: nat)
    requires lo < e <= hi && e in s
    requires forall e' :: e < e' <= hi ==> e' !in s
    ensures LastIn(s, lo, hi) == Some(e)
    decreases hi
  {
    if hi != e {
      LastInIs(s, lo, hi - 1, e);
    }
  }

  /** The greedy value from `v` may end at `e`: it has the shape and the strict lookahead holds. */
  predicate GreedyEnd(t: string, v: nat, e: nat, shape: Shape) {
    v <= e <= |t| && Fits(t[v..e], shape) && EndsValue(t, e, Strict)
  }

  /**
   * A lazy capture `\s*(C*?)` (`min` 0) or `\s*(C+?)` (`min` 1) after a label
   * ending at `l`. For each start `v`, from the end of the whitespace run back
   * to `l` (the backtracking of `\s*`), the value ends at the first position
   * inside the run of class `cls` where it may end.
   */
  function LazyCapture(t: string, l: nat, v: nat, cls: Class, min: nat, look: Lookahead): (r: Option<Span>)
    requires l <= v <= |t| && min <= 1
    ensures r.Some? ==> l <= r.value.start <= v && r.value.start + min <= r.value.end <= |t|
    ensures r.Some? ==> forall k :: r.value.start <= k < r.value.end ==> In(t[k], cls)
    ensures r.Some? ==> EndsValue(t, r.value.end, look)
    ensures r.Some? ==> forall e :: r.value.start + min <= e < r.value.end ==> !LazyEnd(t, e, look)
    decreases v
  {
    match LazyFrom(t, v, cls, min, look)
    case Some(e) => Some(Span(v, e))
    case None => if v == l then None else LazyCapture(t, l, v - 1, cls, min, look)
  }

  /** One start `v` of a lazy capture: the first end inside the run of `cls`, at least `min` on. */
  function LazyFrom(t: string, v: nat, cls: Class, min: nat, look: Lookahead): (r: Option<nat>)
    requires v <= |t|
    ensures r.Some? ==> v + min <= r.value <= RunEnd(t, v, cls) && LazyEnd(t, r.value, look)
    ensures r.Some? ==> forall k :: v + min <= k < r.value ==> !LazyEnd(t, k, look)
  {
    var hi := RunEnd(t, v, cls);
    if v + min <= hi then FirstLazyEnd(t, v + min, hi, look) else None
  }

  /** The first position in `[e, hi]` where a lazy value may end. */
  function FirstLazyEnd(t: string, e: nat, hi: nat, look: Lookahead): (r: Option<nat>)
    requires e <= hi <= |t|
    ensures r.Some? ==> e <= r.value <= hi && LazyEnd(t, r.value, look)
    ensures r.Some? ==> forall k :: e <= k < r.value ==> !LazyEnd(t, k, look)
    ensures r.None? ==> forall k :: e <= k <= hi ==> !LazyEnd(t, k, look)
    decreases hi - e
  {
    if LazyEnd(t, e, look) then Some(e)
    else if e == hi then None
    else FirstLazyEnd(t, e + 1, hi, look)
  }

  /** The greedy end is the one after which no position works. */
  lemma GreedyCaptureIs(t: string, v: nat, hi: nat, shape: Shape, e: nat)
    requires v < e <= hi <= |t|
    requires GreedyEnd(t, v, e, shape)
    requires forall e' :: e < e' <= hi ==> !GreedyEnd(t, v, e', shape)
    ensures GreedyCapture(t, v, hi, shape) == Some(e)
  {
    var ends := GreedyEnds(t, v, shape);
    assert e in ends;
    LastInIs(ends, v, hi, e);
  }

  /** The first lazy end is the one before which no position works. */
  lemma {:induction false} FirstLazyEndIs(t: string, e: nat, hi: nat, look: Lookahead, x: nat)
    requires e <= x <= hi <= |t|
    requires LazyEnd(t, x, look)
    requires forall k :: e <= k < x ==> !LazyEnd(t, k, look)
    ensures FirstLazyEnd(t, e, hi, look) == Some(x)
    decreases hi - e
  {
    if e != x {
      FirstLazyEndIs(t, e + 1, hi, look, x);
    }
  }

  /** A lazy capture from `v` ends at the first position where a value may end. */
  lemma LazyCaptureIs(t: string, l: nat, v: nat, cls: Class, min: nat, look: Lookahead, e: nat)
    requires l <= v <= |t| && min <= 1
    requires v + min <= e <= RunEnd(t, v, cls)
    requires LazyEnd(t, e, look)
    requires forall k :: v + min <= k < e ==> !LazyEnd(t, k, look)
    ensures LazyCapture(t, l, v, cls, min, look) == Some(Span(v, e))
  {
    FirstLazyEndIs(t, v + min, RunEnd(t, v, cls), look, e);
    assert LazyFrom(t, v, cls, min, look) == Some(e);
  }

  /** A lazy value may end at `e`. */
  predicate LazyEnd(t: string, e: nat, look: Lookahead) {
    e <= |t| && EndsValue(t, e, look)
  }

  /**
   * Where the label word starts for an attempt at `i`: after `[Mm]edical\s*`
   * when the rule allows that prefix and it is there (without the prefix the
   * attempt would need `[Pp]` where `[Mm]` is).
   */
  function WordStart(t: string, i: nat, rule: Rule): nat {
    if rule.medicalPrefix && i + 7 <= |t| && (t[i] == 'M' || t[i] == 'm') && t[i + 1..i + 7] == "edical"
    then RunEnd(t, i + 7, Space)
    else i
  }

  /** The label of `rule` in an attempt at `i`: the position after its separator. */
  function LabelAt(t: string, i: nat, rule: Rule): Option<nat>
    requires WellFormed(rule)
  {
    LabelEnd(t, WordStart(t, i, rule), rule.word, rule.seps)
  }

  /** One attempt of the rule's pattern at position `i`: the span of the group. */
  function RuleAt(t: string, i: nat, rule: Rule): (r: Option<Span>)
    requires WellFormed(rule)
    ensures r.Some? ==> LabelAt(t, i, rule).Some?
    ensures r.Some? ==> LabelAt(t, i, rule).value <= r.value.start <= r.value.end <= |t|
  {
    match LabelAt(t, i, rule)
    case None => None
    case Some(l) => CaptureAt(t, l, rule.capture)
  }

  /** The group captured after a label that ends at `l`. */
  function CaptureAt(t: string, l: nat, capture: Capture): (r: Option<Span>)
    requires l <= |t|
    requires capture.Lazy? ==> capture.min <= 1
    ensures r.Some? ==> l <= r.value.start <= r.value.end <= |t|
  {
    var v := RunEnd(t, l, Space);
    match capture
    case Greedy(shape) =>
      (match GreedyCapture(t, v, |t|, shape)
       case None => None
       case Some(e) => Some(Span(v, e)))
    case Lazy(cls, min, look) => LazyCapture(t, l, v, cls, min, look)
    case UpToThreeDigits =>
      var d := RunEnd(t, v, Digit);
      if d == v then None else Some(Span(v, if d - v > 3 then v + 3 else d))
  }

  /** The positions of `t` at which an attempt of `rule` succeeds. */
  function Attempts(t: string, rule: Rule): set<nat>
    requires WellFormed(rule)
  {
    set i: nat | i <= |t| && RuleAt(t, i, rule).Some?
  }

  /** `re.search`: the leftmost position from `i` on at which an attempt succeeds. */
  function MatchFrom(t: string, i: nat, rule: Rule): (r: Option<nat>)
    requires WellFormed(rule) && i <= |t|
    ensures r.Some? ==> i <= r.value <= |t| && RuleAt(t, r.value, rule).Some?
    ensures r.Some? ==> forall k: nat :: i <= k < r.value ==> RuleAt(t, k, rule).None?
    ensures r.None? ==> forall k: nat :: i <= k <= |t| ==> RuleAt(t, k, rule).None?
  {
    var r := FirstIn(Attempts(t, rule), i, |t|);
    assert forall k: nat :: k <= |t| && k !in Attempts(t, rule) ==> RuleAt(t, k, rule).None?;
    r
  }

  function MatchStart(t: string, rule: Rule): (r: Option<nat>)
    requires WellFormed(rule)
  {
    MatchFrom(t, 0, rule)
  }

  /** The span of the group of the match of `rule` in `t`, if any. */
  function MatchSpan(t: string, rule: Rule): (r: Option<Span>)
    requires WellFormed(rule)
    ensures r.Some? ==> r.value.start <= r.value.end <= |t|
  {
    match MatchStart(t, rule)
    case None => None
    case Some(i) => RuleAt(t, i, rule)
  }

  /** `<rule>_matches.group(1)`, or `None` when the rule does not match. */
  function Group(t: string, rule: Rule): (r: Option<string>)
    requires WellFormed(rule)
  {
    match MatchSpan(t, rule)
    case None => None
    case Some(s) => Some(t[s.start..s.end])
  }

  /** `<rule>_matches.group(1).strip()`, or `None` when the rule does not match. */
  function Extract(t: string, rule: Rule): (r: Option<string>)
    requires WellFormed(rule)
  {
    match Group(t, rule)
    case None => None
    case Some(g) => Some(Strip(g))
  }

  /** The decimal value of a string of digits, as `int(...)` reads it. */
  function DecimalValue(s: string): (n: nat)
    requires forall k :: 0 <= k < |s| ==> IsDigit(s[k])
    ensures n < Pow10(|s|)
    decreases |s|
  {
    if s == [] then 0
    else
      var n := |s|;
      var d := s[n - 1] as int - '0' as int;
      assert IsDigit(s[n - 1]);
      var m := DecimalValue(s[..n - 1]);
      assert m * 10 + d < Pow10(n) by {
        assert m <= Pow10(n - 1) - 1;
        assert m * 10 <= Pow10(n - 1) * 10 - 10;
      }
      m * 10 + d
  }

  function Pow10(n: nat): (p: nat)
    ensures p >= 1
  {
    if n == 0 then 1 else 10 * Pow10(n - 1)
  }

  /** `patient.age = int(age_matches.group(1))` */
  function Age(t: string): (r: Option<int>)
  {
    match Group(t, AgeRule)
    case None => None
    case Some(g) => Some(DecimalValue(g))
  }
}
