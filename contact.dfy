/**
 * The two contact rules of `parse` that need no label: the e-mail pattern
 * `(((?!\.)[\w\-_.]*[^.])(@\w+)(\.\w+(\.\w+)?[^.\W]))` (project.py:153) and
 * the phone pattern `(\+?\d{1,3}[-.\s]?\d{3,4}[-.\s]?\d{3,4}[-.\s]?\d{3,4})`
 * (project.py:156). Both are searched leftmost; the matched text is stripped.
 */
module Contact {
  import opened Wrappers
  import opened Chars
  import opened Fields

  predicate AllWord(s: string) {
    forall k :: 0 <= k < |s| ==> IsWord(s[k])
  }

  /**
   * `\w+\.\w+(?:\.\w+)?` followed by one more word character, as a whole
   * string: a word run, a dot, and a tail.
   */
  predicate IsDomain(d: string) {
    exists j :: 0 < j < |d| && d[j] == '.' && AllWord(d[..j]) && IsDomainTail(d[j + 1..])
  }

  /** One word run of at least two, or a word run, a dot and a word run of at least two. */
  predicate IsDomainTail(d: string) {
    || (|d| >= 2 && AllWord(d))
    || exists k :: 0 < k && k + 2 < |d| && d[k] == '.' && AllWord(d[..k]) && AllWord(d[k + 1..])
  }

  /**
   * The end of the domain after an `@` at `a`. Each `\w+` can give characters
   * back only to what follows it, and what follows the first run is a dot, so
   * the first run is taken whole. The optional `\.\w+` is taken when its run
   * is at least two long (one for itself, one for the final `[^.\W]`);
   * otherwise the final character is the last one of the second run, which
   * must then be at least two long.
   */
  function DomainEnd(t: string, a: nat): (r: Option<nat>)
    requires a < |t|
    ensures r.Some? ==> a + 4 < r.value <= |t|
  {
    var w1 := RunEnd(t, a + 1, Word);
    if w1 == a + 1 || w1 == |t| || t[w1] != '.' then None
    else
      var w2 := RunEnd(t, w1 + 1, Word);
      if w2 == w1 + 1 then None
      else if w2 < |t| && t[w2] == '.' && RunEnd(t, w2 + 1, Word) >= w2 + 3 then Some(RunEnd(t, w2 + 1, Word))
      else if w2 >= w1 + 3 then Some(w2)
      else None
  }

  /** Characters that are all word characters make a word string. */
  lemma WordSlice(t: string, p: nat, q: nat)
    requires p <= q <= |t| && forall k :: p <= k < q ==> IsWord(t[k])
    ensures AllWord(t[p..q])
  {
    forall k | 0 <= k < q - p ensures IsWord(t[p..q][k]) {
      assert t[p..q][k] == t[p + k];
    }
  }

  /** The two shapes of a domain `DomainEnd` accepts, in terms of its word runs. */
  lemma DomainEndCases(t: string, a: nat)
    requires a < |t| && DomainEnd(t, a).Some?
    ensures var w1 := RunEnd(t, a + 1, Word);
      var w2 := RunEnd(t, w1 + 1, Word);
      var e := DomainEnd(t, a).value;
      && a + 1 < w1 < |t| && t[w1] == '.' && w1 + 1 < w2
      && ((e == w2 && w2 >= w1 + 3) || (w2 < |t| && t[w2] == '.' && e == RunEnd(t, w2 + 1, Word) && e >= w2 + 3))
  {
  }

  /** What follows an `@` found by `DomainEnd` is a domain. */
  lemma DomainShape(t: string, a: nat)
    requires a < |t| && DomainEnd(t, a).Some?
    ensures IsDomain(t[a + 1..DomainEnd(t, a).value])
  {
    DomainEndCases(t, a);
    var w1 := RunEnd(t, a + 1, Word);
    var w2 := RunEnd(t, w1 + 1, Word);
    var e := DomainEnd(t, a).value;
    if e == w2 {
      DomainSpan(t, a, w1, w2, e);
    } else {
      var w3 := RunEnd(t, w2 + 1, Word);
      assert e == w3;
      DomainSpan(t, a, w1, w2, e);
    }
  }

  /**
   * A word run from `a + 1` to `w1`, a dot, a word run to `w2`, and either
   * the end there (two or more characters after the dot) or another dot and
   * a word run of two or more to `e`, is a domain.
   */
  lemma DomainSpan(t: string, a: nat, w1: nat, w2: nat, e: nat)
    requires a + 1 < w1 && w1 + 1 < w2 <= e <= |t| && t[w1] == '.'
    requires forall k :: a + 1 <= k < w1 ==> IsWord(t[k])
    requires forall k :: w1 + 1 <= k < w2 ==> IsWord(t[k])
    requires || (e == w2 && w2 >= w1 + 3)
             || (w2 < e && t[w2] == '.' && e >= w2 + 3 && forall k :: w2 + 1 <= k < e ==> IsWord(t[k]))
    ensures IsDomain(t[a + 1..e])
  {
    var d := t[a + 1..e];
    var j := w1 - (a + 1);
    assert d[j] == '.';
    WordSlice(t, a + 1, w1);
    assert d[..j] == t[a + 1..w1];
    var tail := d[j + 1..];
    assert tail == t[w1 + 1..e];
    if e == w2 {
      WordSlice(t, w1 + 1, w2);
    } else {
      var m := w2 - (w1 + 1);
      assert tail[m] == '.';
      WordSlice(t, w1 + 1, w2);
      assert tail[..m] == t[w1 + 1..w2];
      WordSlice(t, w2 + 1, e);
      assert tail[m + 1..] == t[w2 + 1..e];
      TailOfParts(tail, m);
    }
    DomainOfParts(d, j);
  }

  /** A word run, a dot and a domain tail make a domain. */
  lemma DomainOfParts(d: string, j: nat)
    requires 0 < j < |d| && d[j] == '.' && AllWord(d[..j]) && IsDomainTail(d[j + 1..])
    ensures IsDomain(d)
  {
  }

  /** A word run, a dot and a word run of at least two make a domain tail. */
  lemma TailOfParts(d: string, m: nat)
    requires 0 < m && m + 2 < |d| && d[m] == '.' && AllWord(d[..m]) && AllWord(d[m + 1..])
    ensures IsDomainTail(d)
  {
  }

  /**
   * One way to read an e-mail address from `i` with its `@` at `a`: no dot at
   * `i` (`(?!\.)`), local-part characters up to `a - 1`, a non-dot at `a - 1`
   * (`[^.]`), and a domain after the `@`.
   */
  function EmailTry(t: string, i: nat, a: nat): (r: Option<nat>)
    requires i < a
    ensures r.Some? ==> a + 4 < r.value <= |t|
  {
    if && a < |t|
       && t[a] == '@'
       && t[i] != '.'
       && t[a - 1] != '.'
       && (forall k :: i <= k < a - 1 ==> In(t[k], LocalChar))
    then DomainEnd(t, a)
    else None
  }

  /**
   * The attempt of the e-mail pattern at `i`. `[\w\-_.]*` takes the whole run
   * of local-part characters first; as `@` is not one of them, the `@` can
   * only come right after the character following the run (which `[^.]`
   * takes) or, giving one character back, right at the end of the run.
   */
  function EmailAt(t: string, i: nat): (r: Option<nat>)
    requires i <= |t|
    ensures r.Some? ==> i < r.value <= |t|
  {
    if i == |t| then None
    else
      var r := RunEnd(t, i, LocalChar);
      if r + 1 < |t| && EmailTry(t, i, r + 1).Some? then EmailTry(t, i, r + 1)
      else if i < r then EmailTry(t, i, r)
      else None
  }

  /** The attempt succeeds whenever some `@` position gives a reading. */
  lemma EmailAtComplete(t: string, i: nat, a: nat)
    requires i < a && EmailTry(t, i, a).Some?
    ensures EmailAt(t, i).Some?
  {
    var r := RunEnd(t, i, LocalChar);
    RunEndPast(t, i, LocalChar, a - 1);
  }

  /** What the attempt finds is the reading for one `@` position. */
  lemma EmailAtSound(t: string, i: nat)
    requires i <= |t| && EmailAt(t, i).Some?
    ensures exists a :: i < a && EmailTry(t, i, a) == EmailAt(t, i)
  {
    var r := RunEnd(t, i, LocalChar);
    if r + 1 < |t| && EmailTry(t, i, r + 1).Some? {
      assert EmailTry(t, i, r + 1) == EmailAt(t, i);
    } else {
      assert EmailTry(t, i, r) == EmailAt(t, i);
    }
  }

  /** The positions at which the e-mail attempt succeeds. */
  function EmailStarts(t: string): set<nat> {
    set i: nat | i <= |t| && EmailAt(t, i).Some?
  }

  /** `re.search` for the e-mail pattern: the leftmost start from `i` on. */
  function EmailFrom(t: string, i: nat): (r: Option<nat>)
    requires i <= |t|
    ensures r.Some? ==> i <= r.value <= |t| && EmailAt(t, r.value).Some?
    ensures r.Some? ==> forall k :: i <= k < r.value ==> EmailAt(t, k).None?
    ensures r.None? ==> forall k :: i <= k <= |t| ==> EmailAt(t, k).None?
  {
    var r := FirstIn(EmailStarts(t), i, |t|);
    assert forall k: nat :: k <= |t| && k !in EmailStarts(t) ==> EmailAt(t, k).None?;
    r
  }

  /** `email_matches.group(1).strip()`, or `None` when nothing matches. */
  function Email(t: string): (r: Option<string>)
  {
    match EmailFrom(t, 0)
    case None => None
    case Some(i) => Some(Strip(t[i..EmailAt(t, i).value]))
  }

  /**
   * The e-mail value is read at the leftmost position where an address can
   * be read: an `@` after local-part characters, then a domain.
   */
  lemma EmailShape(t: string)
    requires Email(t).Some?
    ensures var i := EmailFrom(t, 0).value;
      && (forall k :: 0 <= k < i ==> EmailAt(t, k).None?)
      && exists a :: i < a && EmailTry(t, i, a) == EmailAt(t, i)
                  && t[a] == '@' && IsDomain(t[a + 1..EmailAt(t, i).value])
  {
    var i := EmailFrom(t, 0).value;
    EmailAtSound(t, i);
    var a :| i < a && EmailTry(t, i, a) == EmailAt(t, i);
    DomainShape(t, a);
  }

  /** A domain ends with a word character. */
  lemma DomainLast(d: string)
    requires IsDomain(d)
    ensures |d| > 0 && IsWord(d[|d| - 1])
  {
    var j :| 0 < j < |d| && d[j] == '.' && AllWord(d[..j]) && IsDomainTail(d[j + 1..]);
    var tail := d[j + 1..];
    assert d[|d| - 1] == tail[|tail| - 1];
    if !(|tail| >= 2 && AllWord(tail)) {
      var k :| 0 < k && k + 2 < |tail| && tail[k] == '.' && AllWord(tail[..k]) && AllWord(tail[k + 1..]);
      assert tail[|tail| - 1] == tail[k + 1..][|tail| - k - 2];
    }
  }

  /**
   * What precedes the `@` of an e-mail value: nothing, or local-part
   * characters not starting with a dot, then one non-dot character.
   */
  predicate IsLocalPart(l: string) {
    l == [] || (l[0] != '.' && l[|l| - 1] != '.' && forall k :: 0 <= k < |l| - 1 ==> In(l[k], LocalChar))
  }

  /** An e-mail address as a whole string: a local part, an `@` and a domain. */
  predicate IsAddress(x: string) {
    exists a :: 0 <= a < |x| && x[a] == '@' && IsLocalPart(x[..a]) && IsDomain(x[a + 1..])
  }

  /**
   * The e-mail value itself is an address ending with a word character. The
   * local part is empty only when the one character before the `@` was
   * whitespace, which stripping removes.
   */
  lemma EmailValue(t: string)
    requires Email(t).Some?
    ensures |Email(t).value| > 0 && IsWord(Email(t).value[|Email(t).value| - 1])
    ensures IsAddress(Email(t).value)
  {
    var i := EmailFrom(t, 0).value;
    var e := EmailAt(t, i).value;
    EmailAtSound(t, i);
    var a :| i < a && EmailTry(t, i, a) == EmailAt(t, i);
    DomainShape(t, a);
    SpanAddress(t, i, a, e);
  }

  /** A span read by an attempt strips to an address ending with a word character. */
  lemma SpanAddress(t: string, i: nat, a: nat, e: nat)
    requires i < a < e <= |t| && t[a] == '@' && t[i] != '.' && t[a - 1] != '.'
    requires forall k :: i <= k < a - 1 ==> In(t[k], LocalChar)
    requires IsDomain(t[a + 1..e])
    ensures var x := Strip(t[i..e]); |x| > 0 && IsWord(x[|x| - 1]) && IsAddress(x)
  {
    DomainEndsWord(t, a, e);
    if IsSpace(t[i]) {
      SpacedAddress(t, i, a, e);
      SliceLast(t, a, e);
    } else {
      PlainAddress(t, i, a, e);
      StripSlice(t, i, e);
      SliceLast(t, i, e);
    }
  }

  /** The last character of a non-empty slice is the one before its end. */
  lemma SliceLast(t: string, i: nat, e: nat)
    requires i < e <= |t|
    ensures |t[i..e]| > 0 && t[i..e][|t[i..e]| - 1] == t[e - 1]
  {
  }

  /** A domain after the `@` at `a` leaves a word character at the end of the span. */
  lemma DomainEndsWord(t: string, a: nat, e: nat)
    requires a < e <= |t| && IsDomain(t[a + 1..e])
    ensures a + 1 < e && IsWord(t[e - 1]) && !IsSpace(t[e - 1])
  {
    DomainLast(t[a + 1..e]);
    assert t[e - 1] == t[a + 1..e][e - a - 2];
  }

  /** A whitespace character before the `@` is stripped, leaving the `@` first. */
  lemma SpacedAddress(t: string, i: nat, a: nat, e: nat)
    requires i < a < e <= |t| && t[a] == '@' && IsSpace(t[i]) && !IsSpace(t[e - 1])
    requires forall k :: i <= k < a - 1 ==> In(t[k], LocalChar)
    requires IsDomain(t[a + 1..e])
    ensures Strip(t[i..e]) == t[a..e] && IsAddress(t[a..e])
  {
    assert a == i + 1;
    assert t[i..e] == [t[i]] + t[a..e] + [];
    StripFrame([t[i]], t[a..e], []);
    var x := t[a..e];
    assert x[0] == '@' && x[..0] == [] && x[1..] == t[a + 1..e];
  }

  /** A span without whitespace at either end is an address, local part included. */
  lemma PlainAddress(t: string, i: nat, a: nat, e: nat)
    requires i < a < e <= |t| && t[a] == '@' && t[i] != '.' && t[a - 1] != '.'
    requires !IsSpace(t[i]) && !IsSpace(t[e - 1])
    requires forall k :: i <= k < a - 1 ==> In(t[k], LocalChar)
    requires IsDomain(t[a + 1..e])
    ensures IsAddress(t[i..e])
  {
    var x := t[i..e];
    assert x[a - i + 1..] == t[a + 1..e];
    forall k | 0 <= k < a - i - 1 ensures In(x[k], LocalChar) {
      assert x[k] == t[i + k];
    }
    AddressAt(x, a - i);
  }

  lemma StripSlice(t: string, i: nat, e: nat)
    requires i < e <= |t| && !IsSpace(t[i]) && !IsSpace(t[e - 1])
    ensures Strip(t[i..e]) == t[i..e]
  {
    StripNoop(t[i..e]);
  }

  lemma AddressAt(x: string, a: nat)
    requires 0 < a < |x| && x[a] == '@' && x[0] != '.' && x[a - 1] != '.'
    requires forall k :: 0 <= k < a - 1 ==> In(x[k], LocalChar)
    requires IsDomain(x[a + 1..])
    ensures IsAddress(x)
  {
    var l := x[..a];
    assert forall k :: 0 <= k < a - 1 ==> l[k] == x[k];
    assert IsLocalPart(l);
  }

  /** The atoms of the phone pattern. */
  datatype Atom = PlusSign | Numeral | Separator

  /** `+`, `\d`, `[-.\s]` */
  predicate Accepts(atom: Atom, c: char) {
    match atom
    case PlusSign => c == '+'
    case Numeral => IsDigit(c)
    case Separator => c == '-' || c == '.' || IsSpace(c)
  }

  /** One character of a class, or an optional (greedy `?`) one. */
  datatype Piece = One(atom: Atom) | Opt(atom: Atom)

  /** A pattern: pieces read one after the other. */
  datatype Pattern = Done | Then(piece: Piece, rest: Pattern)

  /** `\d\d\d\d?`, the form of `\d{3,4}`, then `rest`. */
  function ThreeOrFourDigits(rest: Pattern): Pattern {
    Then(One(Numeral), Then(One(Numeral), Then(One(Numeral), Then(Opt(Numeral), rest))))
  }

  /**
   * The phone pattern as single characters: `\d{1,3}` is `\d\d?\d?` and
   * `\d{3,4}` is `\d\d\d\d?`. Greedy `?`s tried in order reach the same end
   * positions in the same order as the counted forms, so the first match is
   * the same.
   */
  const PhonePattern: Pattern :=
    Then(Opt(PlusSign), Then(One(Numeral), Then(Opt(Numeral), Then(Opt(Numeral),
    Then(Opt(Separator), ThreeOrFourDigits(
    Then(Opt(Separator), ThreeOrFourDigits(
    Then(Opt(Separator), ThreeOrFourDigits(Done))))))))))

  /**
   * The backtracking matcher: the end of the first way, in the order the
   * regular expression engine tries them, to read `ps` from `p`.
   */
  function MatchPieces(t: string, p: nat, ps: Pattern): (r: Option<nat>)
    requires p <= |t|
    ensures r.Some? ==> p <= r.value <= |t|
    decreases ps
  {
    match ps
    case Done => Some(p)
    case Then(piece, rest) =>
      var taken := if p < |t| && Accepts(piece.atom, t[p]) then MatchPieces(t, p + 1, rest) else None;
      if piece.One? || taken.Some? then taken else MatchPieces(t, p, rest)
  }

  /** The language of a pattern: `s` reads as `ps` as a whole. */
  predicate Reads(s: string, ps: Pattern) {
    match ps
    case Done => s == []
    case Then(piece, rest) =>
      || (|s| > 0 && Accepts(piece.atom, s[0]) && Reads(s[1..], rest))
      || (piece.Opt? && Reads(s, rest))
  }

  /** What the matcher finds reads as the pattern. */
  lemma {:induction false} MatchPiecesSound(t: string, p: nat, ps: Pattern)
    requires p <= |t| && MatchPieces(t, p, ps).Some?
    ensures Reads(t[p..MatchPieces(t, p, ps).value], ps)
    decreases ps
  {
    if ps.Then? {
      var e := MatchPieces(t, p, ps).value;
      var taken := if p < |t| && Accepts(ps.piece.atom, t[p]) then MatchPieces(t, p + 1, ps.rest) else None;
      if taken.Some? && taken.value == e {
        MatchPiecesSound(t, p + 1, ps.rest);
        assert t[p..e][1..] == t[p + 1..e];
      } else {
        MatchPiecesSound(t, p, ps.rest);
      }
    }
  }

  /** Whenever some stretch from `p` reads as the pattern, the matcher finds a match there. */
  lemma {:induction false} MatchPiecesComplete(t: string, p: nat, e: nat, ps: Pattern)
    requires p <= e <= |t| && Reads(t[p..e], ps)
    ensures MatchPieces(t, p, ps).Some?
    decreases ps
  {
    if ps.Then? {
      var s := t[p..e];
      if |s| > 0 && Accepts(ps.piece.atom, s[0]) && Reads(s[1..], ps.rest) {
        assert s[1..] == t[p + 1..e];
        MatchPiecesComplete(t, p + 1, e, ps.rest);
      } else {
        MatchPiecesComplete(t, p, e, ps.rest);
      }
    }
  }

  /** The fewest characters a reading of `ps` has. */
  function MinLength(ps: Pattern): nat {
    match ps
    case Done => 0
    case Then(piece, rest) => (if piece.One? then 1 else 0) + MinLength(rest)
  }

  /** The most characters a reading of `ps` has. */
  function MaxLength(ps: Pattern): nat {
    match ps
    case Done => 0
    case Then(_, rest) => 1 + MaxLength(rest)
  }

  /** A reading has between `MinLength(ps)` and `MaxLength(ps)` characters. */
  lemma {:induction false} ReadsLength(s: string, ps: Pattern)
    requires Reads(s, ps)
    ensures MinLength(ps) <= |s| <= MaxLength(ps)
  {
    if ps.Then? {
      if |s| > 0 && Accepts(ps.piece.atom, s[0]) && Reads(s[1..], ps.rest) {
        ReadsLength(s[1..], ps.rest);
      } else {
        ReadsLength(s, ps.rest);
      }
    }
  }

  /** A reading holds only characters some atom accepts. */
  lemma {:induction false} ReadsChars(s: string, ps: Pattern)
    requires Reads(s, ps)
    ensures forall k :: 0 <= k < |s| ==> Accepts(PlusSign, s[k]) || Accepts(Numeral, s[k]) || Accepts(Separator, s[k])
  {
    if ps.Then? {
      if |s| > 0 && Accepts(ps.piece.atom, s[0]) && Reads(s[1..], ps.rest) {
        ReadsChars(s[1..], ps.rest);
        assert forall k :: 1 <= k < |s| ==> s[k] == s[1..][k - 1];
      } else {
        ReadsChars(s, ps.rest);
      }
    }
  }

  /** `re.search` for a pattern: the leftmost start from `i` on. */
  function SearchFrom(t: string, i: nat, ps: Pattern): (r: Option<nat>)
    requires i <= |t|
    ensures r.Some? ==> i <= r.value <= |t| && MatchPieces(t, r.value, ps).Some?
    ensures r.Some? ==> forall k :: i <= k < r.value ==> MatchPieces(t, k, ps).None?
    ensures r.None? ==> forall k :: i <= k <= |t| ==> MatchPieces(t, k, ps).None?
    decreases |t| - i
  {
    if MatchPieces(t, i, ps).Some? then Some(i)
    else if i == |t| then None
    else SearchFrom(t, i + 1, ps)
  }

  /** The stripped text of the leftmost match of a pattern, or `None`. */
  function SearchValue(t: string, ps: Pattern): (r: Option<string>)
  {
    match SearchFrom(t, 0, ps)
    case None => None
    case Some(i) => Some(Strip(t[i..MatchPieces(t, i, ps).value]))
  }

  /** `phone_matches.group(0).strip()`, or `None` when nothing matches. */
  function Phone(t: string): (r: Option<string>)
  {
    SearchValue(t, PhonePattern)
  }

  /** Every piece is an optional digit. */
  predicate OptionalDigits(ps: Pattern) {
    ps.Done? || (ps.piece == Opt(Numeral) && OptionalDigits(ps.rest))
  }

  /** Some required digit is followed only by optional digits. */
  predicate DigitTail(ps: Pattern) {
    ps.Then? && (DigitTail(ps.rest) || (ps.piece == One(Numeral) && OptionalDigits(ps.rest)))
  }

  /** A reading of optional digits is all digits. */
  lemma {:induction false} ReadsDigits(s: string, ps: Pattern)
    requires Reads(s, ps) && OptionalDigits(ps)
    ensures forall k :: 0 <= k < |s| ==> IsDigit(s[k])
  {
    if ps.Then? {
      if |s| > 0 && Accepts(ps.piece.atom, s[0]) && Reads(s[1..], ps.rest) {
        ReadsDigits(s[1..], ps.rest);
        assert forall k :: 1 <= k < |s| ==> s[k] == s[1..][k - 1];
      } else {
        ReadsDigits(s, ps.rest);
      }
    }
  }

  /** A reading of a pattern with a digit tail ends with a digit. */
  lemma {:induction false} ReadsEndsWithDigit(s: string, ps: Pattern)
    requires Reads(s, ps) && DigitTail(ps)
    ensures |s| > 0 && IsDigit(s[|s| - 1])
  {
    var take := |s| > 0 && Accepts(ps.piece.atom, s[0]) && Reads(s[1..], ps.rest);
    if DigitTail(ps.rest) {
      if take {
        ReadsEndsWithDigit(s[1..], ps.rest);
        assert s[|s| - 1] == s[1..][|s| - 2];
      } else {
        ReadsEndsWithDigit(s, ps.rest);
      }
    } else {
      ReadsDigits(s[1..], ps.rest);
      if |s| > 1 {
        assert s[|s| - 1] == s[1..][|s| - 2];
      }
    }
  }

  /** `\d{3,4}` adds three to four characters and keeps a digit tail. */
  lemma ThreeOrFourDigitsFacts(rest: Pattern)
    ensures MinLength(ThreeOrFourDigits(rest)) == 3 + MinLength(rest)
    ensures MaxLength(ThreeOrFourDigits(rest)) == 4 + MaxLength(rest)
    ensures rest == Done ==> DigitTail(ThreeOrFourDigits(rest))
    ensures DigitTail(rest) ==> DigitTail(ThreeOrFourDigits(rest))
  {
    var p3 := Then(Opt(Numeral), rest);
    var p2 := Then(One(Numeral), p3);
    var p1 := Then(One(Numeral), p2);
    assert MinLength(p3) == MinLength(rest) && MaxLength(p3) == 1 + MaxLength(rest);
    assert MinLength(p2) == 1 + MinLength(rest) && MaxLength(p2) == 2 + MaxLength(rest);
    assert MinLength(p1) == 2 + MinLength(rest) && MaxLength(p1) == 3 + MaxLength(rest);
    if rest == Done {
      assert OptionalDigits(p3);
      assert DigitTail(p2);
    }
    if DigitTail(rest) {
      assert DigitTail(p3);
    }
  }

  /** Readings of the phone pattern have ten to nineteen characters and end with a digit. */
  lemma PhonePatternFacts()
    ensures MinLength(PhonePattern) == 10 && MaxLength(PhonePattern) == 19
    ensures DigitTail(PhonePattern)
  {
    var b3 := ThreeOrFourDigits(Done);
    ThreeOrFourDigitsFacts(Done);
    var b2 := ThreeOrFourDigits(Then(Opt(Separator), b3));
    ThreeOrFourDigitsFacts(Then(Opt(Separator), b3));
    var b1 := ThreeOrFourDigits(Then(Opt(Separator), b2));
    ThreeOrFourDigitsFacts(Then(Opt(Separator), b2));
    assert PhonePattern == Then(Opt(PlusSign), Then(One(Numeral), Then(Opt(Numeral), Then(Opt(Numeral), Then(Opt(Separator), b1)))));
  }

  /** The pattern begins with `\+?\d`. */
  predicate PlusOrDigitFirst(ps: Pattern) {
    ps.Then? && ps.piece == Opt(PlusSign) && ps.rest.Then? && ps.rest.piece == One(Numeral)
  }

  /** A pattern beginning with `\+?\d` reads a `+` or a digit first. */
  lemma ReadsStart(s: string, ps: Pattern)
    requires Reads(s, ps) && PlusOrDigitFirst(ps)
    ensures |s| > 0 && (s[0] == '+' || IsDigit(s[0]))
  {
  }

  /** The leftmost match of a pattern, and what its text reads as. */
  lemma SearchShape(t: string, ps: Pattern)
    requires SearchFrom(t, 0, ps).Some?
    ensures var i := SearchFrom(t, 0, ps).value;
      && (forall k :: 0 <= k < i ==> MatchPieces(t, k, ps).None?)
      && Reads(t[i..MatchPieces(t, i, ps).value], ps)
  {
    MatchPiecesSound(t, SearchFrom(t, 0, ps).value, ps);
  }

  /** When the leftmost match has no space at its ends, the value is its text. */
  lemma SearchValueText(t: string, ps: Pattern, i: nat, e: nat)
    requires SearchFrom(t, 0, ps) == Some(i) && i <= |t| && MatchPieces(t, i, ps) == Some(e)
    requires i < e && !IsSpace(t[i]) && !IsSpace(t[e - 1])
    ensures SearchValue(t, ps) == Some(t[i..e])
  {
    StripNoop(t[i..e]);
  }

  /** The leftmost match of a pattern beginning with `\+?\d` and ending with a digit has no space at its ends. */
  lemma SearchTextEnds(t: string, ps: Pattern, i: nat, e: nat)
    requires SearchFrom(t, 0, ps) == Some(i) && i <= |t| && MatchPieces(t, i, ps) == Some(e)
    requires PlusOrDigitFirst(ps) && DigitTail(ps)
    ensures i < e && (t[i] == '+' || IsDigit(t[i])) && IsDigit(t[e - 1])
  {
    var x := t[i..e];
    MatchPiecesSound(t, i, ps);
    ReadsStart(x, ps);
    ReadsEndsWithDigit(x, ps);
  }

  /**
   * For a pattern beginning with `\+?\d` and ending with a digit the value
   * is the text of the leftmost match, unchanged by stripping, and reads as
   * the pattern.
   */
  lemma SearchValueIsText(t: string, ps: Pattern, i: nat, e: nat)
    requires SearchFrom(t, 0, ps) == Some(i) && i <= |t| && MatchPieces(t, i, ps) == Some(e)
    requires PlusOrDigitFirst(ps) && DigitTail(ps)
    ensures SearchValue(t, ps) == Some(t[i..e]) && Reads(t[i..e], ps)
  {
    SearchTextEnds(t, ps, i, e);
    SearchValueText(t, ps, i, e);
    MatchPiecesSound(t, i, ps);
  }

  /** The phone value is the text of the leftmost match, which needs no stripping. */
  lemma PhoneValue(t: string)
    requires Phone(t).Some?
    ensures var i := SearchFrom(t, 0, PhonePattern).value;
      && (forall k :: 0 <= k < i ==> MatchPieces(t, k, PhonePattern).None?)
      && Phone(t).value == t[i..MatchPieces(t, i, PhonePattern).value]
      && Reads(Phone(t).value, PhonePattern)
  {
    var i := SearchFrom(t, 0, PhonePattern).value;
    PhonePatternFacts();
    SearchValueIsText(t, PhonePattern, i, MatchPieces(t, i, PhonePattern).value);
  }

  /**
   * The phone value has ten to nineteen characters from `+`, digits and
   * separators, starting with `+` or a digit and ending with a digit.
   */
  lemma PhoneShape(t: string)
    requires Phone(t).Some?
    ensures var x := Phone(t).value;
      && 10 <= |x| <= 19
      && (x[0] == '+' || IsDigit(x[0])) && IsDigit(x[|x| - 1])
      && forall k :: 0 <= k < |x| ==> Accepts(PlusSign, x[k]) || Accepts(Numeral, x[k]) || Accepts(Separator, x[k])
  {
    PhoneValue(t);
    var x := Phone(t).value;
    PhonePatternFacts();
    ReadsStart(x, PhonePattern);
    ReadsEndsWithDigit(x, PhonePattern);
    ReadsLength(x, PhonePattern);
    ReadsChars(x, PhonePattern);
  }

  /** A character some atom of the phone pattern accepts. */
  predicate PhoneChar(c: char) {
    Accepts(PlusSign, c) || Accepts(Numeral, c) || Accepts(Separator, c)
  }

  /** What the matcher reads from `k` is made of characters some atom accepts. */
  lemma MatchChars(t: string, k: nat, ps: Pattern)
    requires k <= |t| && MatchPieces(t, k, ps).Some?
    ensures forall j :: k <= j < MatchPieces(t, k, ps).value ==> PhoneChar(t[j])
  {
    var e := MatchPieces(t, k, ps).value;
    MatchPiecesSound(t, k, ps);
    ReadsChars(t[k..e], ps);
    assert forall j :: k <= j < e ==> t[j] == t[k..e][j - k];
  }

  /** No reading of the phone pattern starts anywhere in `s`. */
  predicate NoPhoneIn(s: string) {
    forall k :: 0 <= k <= |s| ==> MatchPieces(s, k, PhonePattern).None?
  }

  /**
   * A reading in `a + b` from inside `a`, when `b` starts with a character
   * no atom accepts, is a reading in `a`.
   */
  lemma ReadingInPrefix(a: string, b: string, k: nat, ps: Pattern)
    requires k <= |a| && |b| > 0 && !PhoneChar(b[0]) && MatchPieces(a + b, k, ps).Some?
    ensures MatchPieces(a, k, ps).Some?
  {
    var t := a + b;
    var e := MatchPieces(t, k, ps).value;
    MatchChars(t, k, ps);
    assert t[|a|] == b[0];
    assert e <= |a|;
    MatchPiecesSound(t, k, ps);
    assert t[k..e] == a[k..e];
    MatchPiecesComplete(a, k, e, ps);
  }

  /** A reading in `a + b` from the end of `a` on is a reading in `b`. */
  lemma ReadingInSuffix(a: string, b: string, k: nat, ps: Pattern)
    requires |a| <= k <= |a| + |b| && MatchPieces(a + b, k, ps).Some?
    ensures MatchPieces(b, k - |a|, ps).Some?
  {
    var t := a + b;
    var e := MatchPieces(t, k, ps).value;
    MatchPiecesSound(t, k, ps);
    assert t[k..e] == b[k - |a|..e - |a|];
    MatchPiecesComplete(b, k - |a|, e - |a|, ps);
  }

  /** Cut before a character no atom accepts, a text has a phone reading only where a piece has one. */
  lemma NoPhoneInJoin(a: string, b: string)
    requires |b| > 0 && !PhoneChar(b[0]) && NoPhoneIn(a) && NoPhoneIn(b)
    ensures NoPhoneIn(a + b)
  {
    forall k | 0 <= k <= |a + b| ensures MatchPieces(a + b, k, PhonePattern).None? {
      if MatchPieces(a + b, k, PhonePattern).Some? {
        if k <= |a| {
          ReadingInPrefix(a, b, k, PhonePattern);
        } else {
          ReadingInSuffix(a, b, k, PhonePattern);
        }
      }
    }
  }

  /** No phone reading starts inside a prefix that holds none, when what follows starts with a character no atom accepts. */
  lemma NoPhoneInPrefix(a: string, b: string)
    requires |b| > 0 && !PhoneChar(b[0]) && NoPhoneIn(a)
    ensures forall k :: 0 <= k <= |a| ==> MatchPieces(a + b, k, PhonePattern).None?
  {
    forall k | 0 <= k <= |a| ensures MatchPieces(a + b, k, PhonePattern).None? {
      if MatchPieces(a + b, k, PhonePattern).Some? {
        ReadingInPrefix(a, b, k, PhonePattern);
      }
    }
  }

  /**
   * No phone reading fits in `s` when, `d` characters after every `+` or
   * digit, there is a character no atom accepts or the end is less than ten
   * characters away: a reading starts with `+` or a digit and has at least ten
   * characters.
   */
  lemma NoPhoneByStops(s: string, d: nat)
    requires d < 10
    requires forall k :: 0 <= k < |s| && (s[k] == '+' || IsDigit(s[k])) ==> |s| < k + 10 || !PhoneChar(s[k + d])
    ensures NoPhoneIn(s)
  {
    PhonePatternFacts();
    forall k | 0 <= k <= |s| ensures MatchPieces(s, k, PhonePattern).None? {
      if MatchPieces(s, k, PhonePattern).Some? {
        var e := MatchPieces(s, k, PhonePattern).value;
        MatchPiecesSound(s, k, PhonePattern);
        ReadsStart(s[k..e], PhonePattern);
        ReadsLength(s[k..e], PhonePattern);
        MatchChars(s, k, PhonePattern);
      }
    }
  }
}
