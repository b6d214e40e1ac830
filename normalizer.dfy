/**
 * The normaliser of `parse` (project.py:124): `re.sub(r'\s+', ' ', text)`
 * replaces every maximal run of whitespace by one space. Leading and trailing
 * runs become a single space too; nothing is trimmed.
 */
module Normalizer {
  import opened Chars

  /** The only whitespace is `' '` and no two spaces are adjacent. */
  predicate IsNormal(r: string) {
    && (forall k :: 0 <= k < |r| && IsSpace(r[k]) ==> r[k] == ' ')
    && (forall i, j :: 0 <= i < |r| && 0 <= j < |r| && j == i + 1 ==> !(r[i] == ' ' && r[j] == ' '))
  }

  function Normalize(s: string): (r: string)
    ensures IsNormal(r)
    ensures |r| <= |s|
    ensures r == [] <==> s == []
    ensures s != [] ==> (r[0] == ' ' <==> IsSpace(s[0]))
    ensures s != [] ==> (r[|r| - 1] == ' ' <==> IsSpace(s[|s| - 1]))
    decreases |s|
  {
    if s == [] then []
    else if IsSpace(s[0]) then
      var rest := s[RunEnd(s, 0, Space)..];
      assert rest != [] ==> rest[|rest| - 1] == s[|s| - 1];
      " " + Normalize(rest)
    else
      [s[0]] + Normalize(s[1..])
  }

  /** The non-whitespace characters of `s`, in order. */
  function Ink(s: string): string
    decreases |s|
  {
    if s == [] then []
    else if IsSpace(s[0]) then Ink(s[1..])
    else [s[0]] + Ink(s[1..])
  }

  lemma {:induction false} InkOfSpaces(s: string)
    requires AllSpace(s)
    ensures Ink(s) == []
    decreases |s|
  {
    if s != [] {
      InkOfSpaces(s[1..]);
    }
  }

  lemma {:induction false} InkAppend(a: string, b: string)
    ensures Ink(a + b) == Ink(a) + Ink(b)
    decreases |a|
  {
    if a == [] {
      assert a + b == b;
    } else {
      assert (a + b)[1..] == a[1..] + b;
      InkAppend(a[1..], b);
    }
  }

  /** Normalisation keeps every non-whitespace character, in order, and adds none. */
  lemma {:induction false} NormalizeKeepsInk(s: string)
    ensures Ink(Normalize(s)) == Ink(s)
    decreases |s|
  {
    if s == [] {
    } else if IsSpace(s[0]) {
      var n := RunEnd(s, 0, Space);
      var rest := s[n..];
      assert s == s[..n] + rest;
      InkOfSpaces(s[..n]);
      InkAppend(s[..n], rest);
      NormalizeKeepsInk(rest);
      InkAppend(" ", Normalize(rest));
    } else {
      NormalizeKeepsInk(s[1..]);
      InkAppend([s[0]], Normalize(s[1..]));
    }
  }

  /** Text that is already normal is left as it is. */
  lemma {:induction false} NormalizeFixesNormal(s: string)
    requires IsNormal(s)
    ensures Normalize(s) == s
    decreases |s|
  {
    if s != [] {
      var tail := s[1..];
      assert IsNormal(tail) by {
        forall k | 0 <= k < |tail| ensures IsSpace(tail[k]) ==> tail[k] == ' ' {
          assert tail[k] == s[k + 1];
        }
        forall k | 0 < k < |tail| ensures tail[k] == ' ' ==> tail[k - 1] != ' ' {
          assert tail[k] == s[k + 1] && tail[k - 1] == s[k];
        }
      }
      NormalizeFixesNormal(tail);
      if IsSpace(s[0]) {
        var c0 := s[0];
        assert c0 == ' ';
        if |s| > 1 {
          var c1 := s[1];
          assert IsSpace(c1) ==> c1 == ' ';
          assert c1 == ' ' ==> c0 != ' ';
        }
        RunEndIs(s, 0, Space, 1);
        assert s == " " + tail;
      } else {
        assert s == [s[0]] + tail;
      }
    }
  }

  /** Normalising twice is normalising once. */
  lemma NormalizeIdempotent(s: string)
    ensures Normalize(Normalize(s)) == Normalize(s)
  {
    NormalizeFixesNormal(Normalize(s));
  }

  /**
   * A text cut after a non-whitespace character normalises piece by piece:
   * no whitespace run spans the cut, so each piece keeps its own runs.
   */
  lemma {:induction false} NormalizeSplit(a: string, x: string)
    requires a == [] || !IsSpace(a[|a| - 1])
    ensures Normalize(a + x) == Normalize(a) + Normalize(x)
    decreases |a|, 1
  {
    if a == [] {
      assert a + x == x;
    } else if IsSpace(a[0]) {
      SplitAfterRun(a, x);
    } else {
      SplitAfterInk(a, x);
    }
  }

  /** `NormalizeSplit` when `a` starts with whitespace: the run becomes one space on both sides. */
  lemma {:induction false} SplitAfterRun(a: string, x: string)
    requires a != [] && IsSpace(a[0]) && !IsSpace(a[|a| - 1])
    ensures Normalize(a + x) == Normalize(a) + Normalize(x)
    decreases |a|, 0
  {
    var e := RunEnd(a, 0, Space);
    JoinTail(a, x, e);
    RunEndIs(a + x, 0, Space, e);
    SpaceStep(a, e);
    SpaceStep(a + x, e);
    NormalizeSplit(a[e..], x);
    Regroup(" ", Normalize(a[e..]), Normalize(x));
  }

  /** `NormalizeSplit` when `a` starts with a non-whitespace character, which is kept on both sides. */
  lemma {:induction false} SplitAfterInk(a: string, x: string)
    requires a != [] && !IsSpace(a[0]) && !IsSpace(a[|a| - 1])
    ensures Normalize(a + x) == Normalize(a) + Normalize(x)
    decreases |a|, 0
  {
    JoinTail(a, x, 1);
    InkStep(a);
    InkStep(a + x);
    NormalizeSplit(a[1..], x);
    Regroup([a[0]], Normalize(a[1..]), Normalize(x));
  }

  /** Cutting `a + x` inside `a`: the tail is the tail of `a` followed by `x`, and keeps `a`'s last character. */
  lemma JoinTail(a: string, x: string, e: nat)
    requires 0 < e <= |a|
    ensures (a + x)[e..] == a[e..] + x
    ensures e < |a| ==> a[e..][|a| - e - 1] == a[|a| - 1]
    ensures (a + x)[0] == a[0] && (e < |a| ==> (a + x)[e] == a[e])
  {
  }

  lemma Regroup(c: string, u: string, w: string)
    ensures c + (u + w) == (c + u) + w
  {
  }

  /** A leading whitespace run becomes one space. */
  lemma SpaceStep(s: string, e: nat)
    requires s != [] && IsSpace(s[0]) && e == RunEnd(s, 0, Space)
    ensures Normalize(s) == " " + Normalize(s[e..])
  {
  }

  /** A leading non-whitespace character is kept. */
  lemma InkStep(s: string)
    requires s != [] && !IsSpace(s[0])
    ensures Normalize(s) == [s[0]] + Normalize(s[1..])
  {
  }

  /** A whitespace run before a non-whitespace character becomes exactly one space. */
  lemma NormalizeRun(w: string, b: string)
    requires w != [] && AllSpace(w) && (b == [] || !IsSpace(b[0]))
    ensures Normalize(w + b) == " " + Normalize(b)
  {
    RunEndIs(w + b, 0, Space, |w|);
    assert (w + b)[|w|..] == b;
  }

  /**
   * `re.sub(r'\s+', ' ', ...)` on a whitespace run between two non-whitespace
   * characters: the run becomes one space, and each side is normalised alone.
   */
  lemma NormalizeInnerRun(a: string, w: string, b: string)
    requires a != [] && !IsSpace(a[|a| - 1])
    requires w != [] && AllSpace(w)
    requires b != [] && !IsSpace(b[0])
    ensures Normalize(a + w + b) == Normalize(a) + " " + Normalize(b)
  {
    Regroup(a, w, b);
    NormalizeSplit(a, w + b);
    NormalizeRun(w, b);
    Regroup(Normalize(a), " ", Normalize(b));
  }

  /** A slice of normal text is normal. */
  lemma NormalSlice(t: string, a: nat, b: nat)
    requires IsNormal(t) && a <= b <= |t|
    ensures IsNormal(t[a..b])
  {
    var s := t[a..b];
    assert forall k :: 0 <= k < |s| ==> s[k] == t[a + k];
  }

  /** Stripping normal text leaves it normal. */
  lemma StripKeepsNormal(g: string)
    requires IsNormal(g)
    ensures IsNormal(Strip(g))
  {
    StripIsSlice(g);
    var k := RunEnd(g, 0, Space);
    NormalSlice(g, k, k + |Strip(g)|);
  }
}
