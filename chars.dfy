/**
 * ASCII character classes used by the patterns of the extractor, the
 * maximal-run helper every pattern is built from, and Python's `str.strip`.
 */
module Chars {

  /** `\s` as under `re.ASCII`: space, tab, newline, carriage return, vertical tab, form feed. */
  predicate IsSpace(c: char) {
    c == ' ' || c == '\t' || c == '\n' || c == '\r' || c == 11 as char || c == 12 as char
  }

  predicate IsUpper(c: char) { 'A' <= c <= 'Z' }

  predicate IsLower(c: char) { 'a' <= c <= 'z' }

  /** `[A-Za-z]` */
  predicate IsLetter(c: char) { IsUpper(c) || IsLower(c) }

  /** `\d` restricted to ASCII. */
  predicate IsDigit(c: char) { '0' <= c <= '9' }

  /** `\w` restricted to ASCII. */
  predicate IsWord(c: char) { IsLetter(c) || IsDigit(c) || c == '_' }

  /** The character classes whose maximal runs the patterns consume. */
  datatype Class =
    | Space          // \s
    | Lower          // [a-z]
    | Digit          // \d
    | Word           // \w
    | LetterOrSpace  // the characters of `[A-Za-z]+(?:\s+[A-Za-z]+)*`
    | AddressChar    // [A-Za-z0-9 ,]
    | LocalChar      // [\w\-_.], the local part of an e-mail address
    | NotNewline     // `.`

  predicate In(c: char, cls: Class) {
    match cls
    case Space => IsSpace(c)
    case Lower => IsLower(c)
    case Digit => IsDigit(c)
    case Word => IsWord(c)
    case LetterOrSpace => IsLetter(c) || IsSpace(c)
    case AddressChar => IsLetter(c) || IsDigit(c) || c == ' ' || c == ','
    case LocalChar => IsWord(c) || c == '-' || c == '.'
    case NotNewline => c != '\n'
  }

  /** End of the maximal run of `cls` characters of `t` that starts at `p`. */
  function RunEnd(t: string, p: nat, cls: Class): (q: nat)
    requires p <= |t|
    ensures p <= q <= |t|
    ensures forall k :: p <= k < q ==> In(t[k], cls)
    ensures q == |t| || !In(t[q], cls)
    decreases |t| - p
  {
    if p == |t| || !In(t[p], cls) then p else RunEnd(t, p + 1, cls)
  }

  /** A run end is determined by the characters it covers and the one that stops it. */
  lemma RunEndIs(t: string, p: nat, cls: Class, q: nat)
    requires p <= q <= |t|
    requires forall k :: p <= k < q ==> In(t[k], cls)
    requires q == |t| || !In(t[q], cls)
    ensures RunEnd(t, p, cls) == q
  {
  }

  /** A run reaches at least as far as a stretch of `cls` characters from its start. */
  lemma RunEndPast(t: string, p: nat, cls: Class, e: nat)
    requires p <= e <= |t|
    requires forall k :: p <= k < e ==> In(t[k], cls)
    ensures e <= RunEnd(t, p, cls)
  {
  }

  predicate AllSpace(s: string) {
    forall k :: 0 <= k < |s| ==> IsSpace(s[k])
  }

  /** Python's `str.lstrip()`. */
  function TrimStart(s: string): (r: string)
    ensures |r| <= |s| && r == s[|s| - |r|..]
    ensures AllSpace(s[..|s| - |r|])
    ensures r == [] || !IsSpace(r[0])
  {
    s[RunEnd(s, 0, Space)..]
  }

  /** Python's `str.rstrip()`. */
  function TrimEnd(s: string): (r: string)
    ensures |r| <= |s| && r == s[..|r|]
    ensures AllSpace(s[|r|..])
    ensures r == [] || !IsSpace(r[|r| - 1])
    decreases |s|
  {
    if s == [] || !IsSpace(s[|s| - 1]) then s
    else
      var u := s[..|s| - 1];
      var r := TrimEnd(u);
      assert r == s[..|r|] by {
        assert forall k :: 0 <= k < |r| ==> r[k] == u[k] == s[k];
      }
      assert AllSpace(s[|r|..]) by {
        forall k | 0 <= k < |s| - |r| ensures IsSpace(s[|r|..][k]) {
          if |r| + k < |u| {
            assert s[|r|..][k] == u[|r|..][k];
          }
        }
      }
      r
  }

  /** Python's `str.strip()`. */
  function Strip(s: string): (r: string)
    ensures r == [] || (!IsSpace(r[0]) && !IsSpace(r[|r| - 1]))
    ensures r == [] <==> AllSpace(s)
    ensures |r| <= |s|
  {
    var a := TrimStart(s);
    var r := TrimEnd(a);
    assert forall k :: |s| - |a| <= k < |s| ==> s[k] == a[k - (|s| - |a|)];
    r
  }

  /**
   * `Strip` is characterised by its frame: whatever surrounds a string with no
   * space at either end, as long as the surrounding is all whitespace, is removed.
   */
  lemma {:induction false} StripFrame(a: string, r: string, b: string)
    requires AllSpace(a) && AllSpace(b)
    requires r == [] || (!IsSpace(r[0]) && !IsSpace(r[|r| - 1]))
    ensures Strip(a + r + b) == r
  {
    var s := a + r + b;
    if r == [] {
      assert AllSpace(s) by {
        forall k | 0 <= k < |s| ensures IsSpace(s[k]) {
          if k < |a| { assert s[k] == a[k]; } else { assert s[k] == b[k - |a|]; }
        }
      }
    } else {
      RunEndIs(s, 0, Space, |a|);
      assert TrimStart(s) == r + b;
      TrimEndFrame(r, b);
    }
  }

  lemma {:induction false} TrimEndFrame(r: string, b: string)
    requires AllSpace(b)
    requires r != [] && !IsSpace(r[|r| - 1])
    ensures TrimEnd(r + b) == r
    decreases |b|
  {
    if b == [] {
      assert r + b == r;
    } else {
      var s := r + b;
      assert s[|s| - 1] == b[|b| - 1];
      assert s[..|s| - 1] == r + b[..|b| - 1];
      TrimEndFrame(r, b[..|b| - 1]);
    }
  }

  /** `Strip` cuts a slice out of its argument: the one after the leading whitespace. */
  lemma StripIsSlice(s: string)
    ensures RunEnd(s, 0, Space) + |Strip(s)| <= |s|
    ensures Strip(s) == s[RunEnd(s, 0, Space)..RunEnd(s, 0, Space) + |Strip(s)|]
  {
  }

  /** A string with no whitespace at either end is its own strip. */
  lemma StripNoop(r: string)
    requires r == [] || (!IsSpace(r[0]) && !IsSpace(r[|r| - 1]))
    ensures Strip(r) == r
  {
    if r != [] {
      RunEndIs(r, 0, Space, 0);
      assert TrimStart(r) == r;
      assert TrimEnd(r) == r;
    }
  }
}
