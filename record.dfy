/**
 * The sample record of test_project.py:15-18 and what `parse` reads from it.
 * After normalisation the record is a run of segments, each a label, its
 * value and a space; the label of one field ends the value of the field
 * before it, and `Medical` sits twice between fields as noise.
 */
module Record {
  import opened Wrappers
  import opened Chars
  import opened Boundary
  import opened Shapes
  import opened Fields
  import opened FieldFacts
  import opened Contact
  import opened Dates
  import opened Samples

  const NameVal := "John Harvard"
  const AgeVal := "45"
  const AddressVal := "123 Main Street, Springfield"
  const HistoryVal := "Hypertension, Type 2 Diabetes"
  const ComplaintVal := "Pain in upper 7 tooth"
  const DiagnosisVal := "Tooth fracture"
  const ProcedureVal := "X-ray scan, splinting"
  const MedicationsVal := "Paracetamol, Metoprolol"
  const EmailVal := "johndoe@example.com"
  const PhoneVal := "+1-555-789-1234"
  const DateVal := "29-01-2025"

  const NameSeg := "Name: " + NameVal + " "
  const AgeSeg := "Age: " + AgeVal + " "
  const AddressSeg := "Address: " + AddressVal + " "
  const MedicalSeg := "Medical "
  const HistorySeg := "History: " + HistoryVal + " "
  const ComplaintSeg := "Complaint: " + ComplaintVal + " "
  const DiagnosisSeg := "Diagnosis: " + DiagnosisVal + " "
  const ProcedureSeg := "Procedure: " + ProcedureVal + " "
  const MedicationsSeg := "Medications: " + MedicationsVal + " "
  const EmailSeg := "Email: " + EmailVal + " "
  const PhoneSeg := "Phone: " + PhoneVal + " "
  const VisitSeg := "Visit Date: " + DateVal

  /** The normalised record, segment by segment. */
  const Segments: seq<string> := [NameSeg, AgeSeg, AddressSeg, MedicalSeg, HistorySeg, MedicalSeg,
    ComplaintSeg, DiagnosisSeg, ProcedureSeg, MedicationsSeg, EmailSeg, PhoneSeg, VisitSeg]

  /** Where each segment holds a character of `[:|-]`. */
  const SegmentSeps: seq<set<nat>> := [{4}, {3}, {7}, {}, {7}, {}, {9}, {9}, {9, 12}, {11}, {5}, {5, 9, 13, 17}, {10, 14, 17}]

  /** Where each segment holds a digit, `+`, `@` or `/`. */
  const SegmentMarks: seq<set<nat>> := [{}, {5, 6}, {9, 10, 11}, {}, {28}, {}, {25}, {}, {}, {}, {14}, {7, 8, 10, 11, 12, 14, 15, 16, 18, 19, 20, 21}, {12, 13, 15, 16, 18, 19, 20, 21}]

  /** The first `m` pieces. */
  function Prefix(segs: seq<string>, m: nat): string
    requires m <= |segs|
  {
    if m == 0 then [] else Prefix(segs, m - 1) + segs[m - 1]
  }

  /** The pieces from the `m`-th on. */
  function Suffix(segs: seq<string>, m: nat): string
    requires m <= |segs|
    decreases |segs| - m
  {
    if m == |segs| then [] else segs[m] + Suffix(segs, m + 1)
  }

  /** The normalised record. */
  const Record: string := Suffix(Segments, 0)

  /** Cut anywhere between segments, the record is what comes before and what comes after. */
  lemma {:induction false} Split(segs: seq<string>, m: nat)
    requires m <= |segs|
    ensures Prefix(segs, m) + Suffix(segs, m) == Suffix(segs, 0)
  {
    if m > 0 {
      Split(segs, m - 1);
      assert Suffix(segs, m - 1) == segs[m - 1] + Suffix(segs, m);
    }
  }

  /**
   * Where the characters that matter sit: label separators `[:|-]` only at
   * `q`; digits, `+`, `@` and `/` only at `ds`.
   */
  predicate Marks(s: string, q: set<nat>, ds: set<nat>) {
    forall k :: 0 <= k < |s| ==>
      && (s[k] in FreeLabelSeps ==> k in q)
      && (IsDigit(s[k]) || s[k] == '+' || s[k] == '@' || s[k] == '/' ==> k in ds)
  }

  /** A segment starts with a capital and has its marks where `q` and `ds` say. */
  predicate SegmentFacts(s: string, q: set<nat>, ds: set<nat>) {
    |s| > 0 && IsUpper(s[0]) && Marks(s, q, ds)
  }

  /** A label, a value and a closing space or nothing: the value's marks move by the label's length. */
  lemma JoinMarks(l: string, v: string, e: string, q: set<nat>, ds: set<nat>, qv: set<nat>, dv: set<nat>)
    requires |l| > 0 && IsUpper(l[0]) && (e == " " || e == "")
    requires Marks(l, q, ds) && Marks(v, qv, dv)
    requires forall p :: p in qv ==> p + |l| in q
    requires forall p :: p in dv ==> p + |l| in ds
    ensures SegmentFacts(l + v + e, q, ds)
  {
    var s := l + v + e;
    forall k | |l| <= k < |l| + |v|
      ensures (s[k] in FreeLabelSeps ==> k in q)
      ensures (IsDigit(s[k]) || s[k] == '+' || s[k] == '@' || s[k] == '/' ==> k in ds)
    {
      assert s[k] == v[k - |l|];
    }
  }

  lemma NameValueMarks() ensures Marks(NameVal, {}, {}) { }
  lemma NameLabelMarks() ensures SegmentFacts("Name: ", {4}, {}) { }
  lemma NameMarks() ensures SegmentFacts(NameSeg, {4}, {}) {
    NameValueMarks();
    NameLabelMarks();
    JoinMarks("Name: ", NameVal, " ", {4}, {}, {}, {});
  }
  lemma AgeValueMarks() ensures Marks(AgeVal, {}, {0, 1}) { }
  lemma AgeLabelMarks() ensures SegmentFacts("Age: ", {3}, {}) { }
  lemma AgeMarks() ensures SegmentFacts(AgeSeg, {3}, {5, 6}) {
    AgeValueMarks();
    AgeLabelMarks();
    JoinMarks("Age: ", AgeVal, " ", {3}, {5, 6}, {}, {0, 1});
  }
  lemma AddressValueMarks() ensures Marks(AddressVal, {}, {0, 1, 2}) { }
  lemma AddressLabelMarks() ensures SegmentFacts("Address: ", {7}, {}) { }
  lemma AddressMarks() ensures SegmentFacts(AddressSeg, {7}, {9, 10, 11}) {
    AddressValueMarks();
    AddressLabelMarks();
    JoinMarks("Address: ", AddressVal, " ", {7}, {9, 10, 11}, {}, {0, 1, 2});
  }
  lemma HistoryValueMarks() ensures Marks(HistoryVal, {}, {19}) { }
  lemma HistoryLabelMarks() ensures SegmentFacts("History: ", {7}, {}) { }
  lemma HistoryMarks() ensures SegmentFacts(HistorySeg, {7}, {28}) {
    HistoryValueMarks();
    HistoryLabelMarks();
    JoinMarks("History: ", HistoryVal, " ", {7}, {28}, {}, {19});
  }
  lemma ComplaintValueMarks() ensures Marks(ComplaintVal, {}, {14}) { }
  lemma ComplaintLabelMarks() ensures SegmentFacts("Complaint: ", {9}, {}) { }
  lemma ComplaintMarks() ensures SegmentFacts(ComplaintSeg, {9}, {25}) {
    ComplaintValueMarks();
    ComplaintLabelMarks();
    JoinMarks("Complaint: ", ComplaintVal, " ", {9}, {25}, {}, {14});
  }
  lemma DiagnosisValueMarks() ensures Marks(DiagnosisVal, {}, {}) { }
  lemma DiagnosisLabelMarks() ensures SegmentFacts("Diagnosis: ", {9}, {}) { }
  lemma DiagnosisMarks() ensures SegmentFacts(DiagnosisSeg, {9}, {}) {
    DiagnosisValueMarks();
    DiagnosisLabelMarks();
    JoinMarks("Diagnosis: ", DiagnosisVal, " ", {9}, {}, {}, {});
  }
  lemma ProcedureValueMarks() ensures Marks(ProcedureVal, {1}, {}) { }
  lemma ProcedureLabelMarks() ensures SegmentFacts("Procedure: ", {9}, {}) { }
  lemma ProcedureMarks() ensures SegmentFacts(ProcedureSeg, {9, 12}, {}) {
    ProcedureValueMarks();
    ProcedureLabelMarks();
    JoinMarks("Procedure: ", ProcedureVal, " ", {9, 12}, {}, {1}, {});
  }
  lemma MedicationsValueMarks() ensures Marks(MedicationsVal, {}, {}) { }
  lemma MedicationsLabelMarks() ensures SegmentFacts("Medications: ", {11}, {}) { }
  lemma MedicationsMarks() ensures SegmentFacts(MedicationsSeg, {11}, {}) {
    MedicationsValueMarks();
    MedicationsLabelMarks();
    JoinMarks("Medications: ", MedicationsVal, " ", {11}, {}, {}, {});
  }
  lemma EmailValueMarks() ensures Marks(EmailVal, {}, {7}) { }
  lemma EmailLabelMarks() ensures SegmentFacts("Email: ", {5}, {}) { }
  lemma EmailMarks() ensures SegmentFacts(EmailSeg, {5}, {14}) {
    EmailValueMarks();
    EmailLabelMarks();
    JoinMarks("Email: ", EmailVal, " ", {5}, {14}, {}, {7});
  }
  lemma PhoneValueMarks() ensures Marks(PhoneVal, {2, 6, 10}, {0, 1, 3, 4, 5, 7, 8, 9, 11, 12, 13, 14}) { }
  lemma PhoneLabelMarks() ensures SegmentFacts("Phone: ", {5}, {}) { }
  lemma PhoneMarks() ensures SegmentFacts(PhoneSeg, {5, 9, 13, 17}, {7, 8, 10, 11, 12, 14, 15, 16, 18, 19, 20, 21}) {
    PhoneValueMarks();
    PhoneLabelMarks();
    JoinMarks("Phone: ", PhoneVal, " ", {5, 9, 13, 17}, {7, 8, 10, 11, 12, 14, 15, 16, 18, 19, 20, 21}, {2, 6, 10}, {0, 1, 3, 4, 5, 7, 8, 9, 11, 12, 13, 14});
  }
  lemma VisitValueMarks() ensures Marks(DateVal, {2, 5}, {0, 1, 3, 4, 6, 7, 8, 9}) { }
  lemma VisitLabelMarks() ensures SegmentFacts("Visit Date: ", {10}, {}) { }
  lemma VisitMarks() ensures SegmentFacts(VisitSeg, {10, 14, 17}, {12, 13, 15, 16, 18, 19, 20, 21}) {
    VisitValueMarks();
    VisitLabelMarks();
    JoinMarks("Visit Date: ", DateVal, "", {10, 14, 17}, {12, 13, 15, 16, 18, 19, 20, 21}, {2, 5}, {0, 1, 3, 4, 6, 7, 8, 9});
  }
  lemma MedicalMarks() ensures SegmentFacts(MedicalSeg, {}, {}) { }

  /** Every segment but the last ends with a space. */
  lemma SegmentEnds(j: nat)
    requires j < |Segments| - 1
    ensures |Segments[j]| > 0 && Segments[j][|Segments[j]| - 1] == ' '
  {
  }

  /** The marks of segment `j`. */
  lemma SegmentHasMarks(j: nat)
    requires j < |Segments|
    ensures SegmentFacts(Segments[j], SegmentSeps[j], SegmentMarks[j])
  {
    if j == 0 { NameMarks(); }
    else if j == 1 { AgeMarks(); }
    else if j == 2 { AddressMarks(); }
    else if j == 3 || j == 5 { MedicalMarks(); }
    else if j == 4 { HistoryMarks(); }
    else if j == 6 { ComplaintMarks(); }
    else if j == 7 { DiagnosisMarks(); }
    else if j == 8 { ProcedureMarks(); }
    else if j == 9 { MedicationsMarks(); }
    else if j == 10 { EmailMarks(); }
    else if j == 11 { PhoneMarks(); }
    else { VisitMarks(); }
  }

  /** One more segment extends the prefix by that segment. */
  lemma PrefixStep(m: nat)
    requires 0 < m <= |Segments|
    ensures Prefix(Segments, m) == Prefix(Segments, m - 1) + Segments[m - 1]
    ensures m == 1 ==> Prefix(Segments, m) == Segments[0]
  {
    assert Prefix(Segments, 0) == [];
  }

  /** The first `m` segments, for `0 < m < 13`, end with a space. */
  lemma PrefixEnds(m: nat)
    requires 0 < m < |Segments|
    ensures |Prefix(Segments, m)| > 0 && Prefix(Segments, m)[|Prefix(Segments, m)| - 1] == ' '
  {
    SegmentEnds(m - 1);
    var a := Prefix(Segments, m - 1);
    var s := Segments[m - 1];
    assert Prefix(Segments, m) == a + s;
    assert (a + s)[|a| + |s| - 1] == s[|s| - 1];
  }

  /** No separator of `q` ends the rule's word, spelt either way. */
  predicate NoWordBefore(s: string, q: set<nat>, rule: Rule)
    requires PlainLabel(rule) && |rule.word| > 1
  {
    var w := rule.word;
    forall p :: p in q && |w| <= p < |s| ==>
      || (s[p - |w|] != w[0] && s[p - |w|] != Capital(w[0]))
      || s[p - |w| + 1] != w[1]
      || s[p - 1] != w[|w| - 1]
  }

  /** A segment whose separators all fail to end the rule's word holds no label of it. */
  lemma NoLabelBySeps(s: string, rule: Rule, q: set<nat>, ds: set<nat>)
    requires PlainLabel(rule) && |rule.word| > 1 && Marks(s, q, ds) && NoWordBefore(s, q, rule)
    ensures NoLabelIn(s, rule)
  {
    forall k: nat | k <= |s| ensures LabelAt(s, k, rule).None? {
      if LabelAt(s, k, rule).Some? {
        LabelLetters(s, k, rule);
      }
    }
  }

  /** Segment `j` holds no label of a plain rule whose word none of its separators ends. */
  lemma SegmentNoLabel(rule: Rule, j: nat)
    requires PlainLabel(rule) && |rule.word| > 1 && j < |Segments|
    requires NoWordBefore(Segments[j], SegmentSeps[j], rule)
    ensures NoLabelIn(Segments[j], rule)
  {
    SegmentHasMarks(j);
    NoLabelBySeps(Segments[j], rule, SegmentSeps[j], SegmentMarks[j]);
  }

  /** The first `m` segments hold no label of a plain rule whose word no separator in them ends. */
  lemma {:induction false} NoLabelBefore(rule: Rule, m: nat)
    requires PlainLabel(rule) && |rule.word| > 1 && m <= |Segments|
    requires forall j :: 0 <= j < m ==> NoWordBefore(Segments[j], SegmentSeps[j], rule)
    ensures NoLabelIn(Prefix(Segments, m), rule)
  {
    if m > 0 {
      NoLabelBefore(rule, m - 1);
      SegmentNoLabel(rule, m - 1);
      PrefixStep(m);
      if m > 1 {
        PrefixEnds(m - 1);
        NoLabelInJoin(Prefix(Segments, m - 1), Segments[m - 1], rule);
      }
    }
  }

  /** Four characters after each digit, `+` or `@` of `ds`, something no phone atom accepts, or the end is near. */
  predicate PhoneQuiet(s: string, ds: set<nat>) {
    forall p :: p in ds ==> |s| < p + 10 || !PhoneChar(s[p + 4])
  }

  /** A quiet segment holds no phone reading: every reading starts with `+` or a digit and is at least ten long. */
  lemma QuietNoPhone(s: string, q: set<nat>, ds: set<nat>)
    requires Marks(s, q, ds) && PhoneQuiet(s, ds)
    ensures NoPhoneIn(s)
  {
    NoPhoneByStops(s, 4);
  }

  /** The first `m` segments, for `0 < m`, hold no phone reading when each is quiet. */
  lemma {:induction false} NoPhoneBefore(m: nat)
    requires 0 < m <= |Segments|
    requires forall j :: 0 <= j < m ==> PhoneQuiet(Segments[j], SegmentMarks[j])
    ensures NoPhoneIn(Prefix(Segments, m))
  {
    SegmentNoPhone(m - 1);
    PrefixStep(m);
    if m > 1 {
      NoPhoneBefore(m - 1);
      NoPhoneInJoin(Prefix(Segments, m - 1), Segments[m - 1]);
    }
  }

  /** A quiet segment holds no phone reading, and starts with a capital, which no reading uses. */
  lemma SegmentNoPhone(j: nat)
    requires j < |Segments| && PhoneQuiet(Segments[j], SegmentMarks[j])
    ensures NoPhoneIn(Segments[j]) && |Segments[j]| > 0 && !PhoneChar(Segments[j][0])
  {
    SegmentHasMarks(j);
    QuietNoPhone(Segments[j], SegmentSeps[j], SegmentMarks[j]);
  }

  /** A date separator at `p` that follows a digit has three digits after it. */
  predicate DateSepOk(s: string, p: nat) {
    0 < p < |s| && IsDateSep(s[p]) && IsDigit(s[p - 1]) ==>
      p + 3 < |s| && IsDigit(s[p + 1]) && IsDigit(s[p + 2]) && IsDigit(s[p + 3])
  }

  /** Each date separator of the segment that follows a digit has three digits after it. */
  predicate DateQuiet(s: string, q: set<nat>, ds: set<nat>) {
    (forall p :: p in q ==> DateSepOk(s, p)) && (forall p :: p in ds ==> DateSepOk(s, p))
  }

  /** A quiet segment holds no date: the middle field of a date has one or two digits. */
  lemma QuietNoDate(s: string, q: set<nat>, ds: set<nat>)
    requires Marks(s, q, ds) && DateQuiet(s, q, ds)
    ensures NoDateIn(s)
  {
    forall j | 0 < j < |s| && IsDateSep(s[j]) && IsDigit(s[j - 1])
      ensures j + 3 < |s| && IsDigit(s[j + 1]) && IsDigit(s[j + 2]) && IsDigit(s[j + 3])
    {
      if s[j] == '/' {
        assert j in ds;
      } else {
        assert j in q;
      }
      assert DateSepOk(s, j);
    }
    NoDateByFields(s);
  }

  /** The first `m` segments, for `0 < m < 13`, hold no date when each is quiet. */
  lemma {:induction false} NoDateBefore(m: nat)
    requires 0 < m < |Segments|
    requires forall j :: 0 <= j < m ==> DateQuiet(Segments[j], SegmentSeps[j], SegmentMarks[j])
    ensures NoDateIn(Prefix(Segments, m))
  {
    SegmentNoDate(m - 1);
    PrefixStep(m);
    if m > 1 {
      NoDateBefore(m - 1);
      PrefixEnds(m - 1);
      NoDateInJoin(Prefix(Segments, m - 1), Segments[m - 1]);
    }
  }

  /** A quiet segment holds no date. */
  lemma SegmentNoDate(j: nat)
    requires j < |Segments| && DateQuiet(Segments[j], SegmentSeps[j], SegmentMarks[j])
    ensures NoDateIn(Segments[j])
  {
    SegmentHasMarks(j);
    QuietNoDate(Segments[j], SegmentSeps[j], SegmentMarks[j]);
  }

  /** No position of `ds` holds an `@`. */
  predicate AtQuiet(s: string, ds: set<nat>) {
    forall p :: p in ds && p < |s| ==> s[p] != '@'
  }

  /** A quiet segment holds no `@`. */
  lemma QuietNoAt(s: string, q: set<nat>, ds: set<nat>)
    requires Marks(s, q, ds) && AtQuiet(s, ds)
    ensures '@' !in s
  {
  }

  /** The first `m` segments hold no `@` when each is quiet. */
  lemma {:induction false} NoAtBefore(m: nat)
    requires m <= |Segments|
    requires forall j :: 0 <= j < m ==> AtQuiet(Segments[j], SegmentMarks[j])
    ensures '@' !in Prefix(Segments, m)
  {
    if m > 0 {
      NoAtBefore(m - 1);
      SegmentHasMarks(m - 1);
      QuietNoAt(Segments[m - 1], SegmentSeps[m - 1], SegmentMarks[m - 1]);
      PrefixStep(m);
    }
  }

  /** The record cut around segments `j` and `j + 1`. */
  lemma Cut(j: nat)
    requires j + 2 <= |Segments|
    ensures Record == Prefix(Segments, j) + Segments[j] + Segments[j + 1] + Suffix(Segments, j + 2)
  {
    Split(Segments, j);
    assert Suffix(Segments, j + 1) == Segments[j + 1] + Suffix(Segments, j + 2);
    assert Suffix(Segments, j) == Segments[j] + Suffix(Segments, j + 1);
  }

  /** ` Word:`: a space, a capitalised word and a colon, as the next label starts. */
  predicate IsAhead(s: string) {
    && |s| >= 3 && s[0] == ' ' && IsUpper(s[1]) && s[|s| - 1] == ':'
    && forall k :: 1 < k < |s| - 1 ==> IsLower(s[k])
  }

  /** `Word: `, the label of `rule` as the record spells it. */
  predicate IsLabelOf(lit: string, rule: Rule)
    requires WellFormed(rule)
  {
    && |lit| == |rule.word| + 2 && lit[0] == Capital(rule.word[0])
    && (lit[0] != 'M' || !rule.medicalPrefix)
    && (forall k :: 1 <= k < |rule.word| ==> lit[k] == rule.word[k])
    && lit[|rule.word|] in rule.seps && lit[|rule.word| + 1] == ' '
  }

  /** A value with no whitespace at either end. */
  predicate Trimmed(x: string) {
    |x| > 0 && !IsSpace(x[0]) && !IsSpace(x[|x| - 1])
  }

  /** `s` occurs in `t` at `p`. */
  predicate At(t: string, p: nat, s: string) {
    p + |s| <= |t| && t[p..p + |s|] == s
  }

  /** The characters of an occurrence, one by one. */
  lemma AtChars(t: string, p: nat, s: string)
    requires At(t, p, s)
    ensures forall k :: 0 <= k < |s| ==> t[p + k] == s[k]
  {
    forall k | 0 <= k < |s| ensures t[p + k] == s[k] {
      assert t[p..p + |s|][k] == t[p + k];
    }
  }

  /** A stretch of `s` made of class characters stays one where `s` occurs. */
  lemma AtRun(t: string, p: nat, s: string, a: nat, b: nat, cls: Class)
    requires At(t, p, s) && a <= b <= |s|
    requires forall k :: a <= k < b ==> In(s[k], cls)
    ensures forall k :: p + a <= k < p + b ==> In(t[k], cls)
  {
    forall k | p + a <= k < p + b ensures In(t[k], cls) {
      assert t[p..p + |s|][k - p] == t[k];
    }
  }

  /** An occurrence of `u + w` is an occurrence of `u` followed by one of `w`. */
  lemma AtSplit(t: string, p: nat, u: string, w: string)
    requires At(t, p, u + w)
    ensures At(t, p, u) && At(t, p + |u|, w)
  {
    assert t[p..p + |u|] == (u + w)[..|u|];
    assert t[p + |u|..p + |u| + |w|] == (u + w)[|u|..];
  }

  /** An occurrence of `u` followed by one of `w` is an occurrence of `u + w`. */
  lemma AtJoin(t: string, p: nat, u: string, w: string)
    requires At(t, p, u) && At(t, p + |u|, w)
    ensures At(t, p, u + w)
  {
    assert t[p..p + |u| + |w|] == t[p..p + |u|] + t[p + |u|..p + |u| + |w|];
  }

  /** The middle piece of a text occurs after the first. */
  lemma AtMiddle(t: string, a: string, s: string, c: string)
    requires t == a + s + c
    ensures At(t, |a|, s)
  {
    assert t[|a|..|a| + |s|] == s;
  }

  /** A label spelt `Word: ` at `i` is found by the attempt at `i`, and its value starts after it. */
  lemma LabelHere(t: string, i: nat, v: nat, lit: string, rule: Rule)
    requires WellFormed(rule) && IsLabelOf(lit, rule) && At(t, i, lit) && v == i + |lit|
    requires v < |t| && !IsSpace(t[v])
    ensures LabelAt(t, i, rule) == Some(v - 1) && RunEnd(t, v - 1, Space) == v
  {
    var n := |rule.word|;
    AtChars(t, i, lit);
    LabelEndIs(t, i, rule.word, rule.seps);
    RunEndIs(t, i + n + 1, Space, i + n + 2);
  }

  /** A space and `Word:` at `p`: a value may end at `p`. */
  lemma AheadHere(t: string, p: nat, m: nat, ahead: string, look: Lookahead)
    requires At(t, p, ahead) && IsAhead(ahead) && m == p + |ahead| - 1
    ensures p + 1 < m < |t| && t[p] == ' ' && IsUpper(t[p + 1]) && t[m] == ':'
    ensures forall k :: p + 1 < k < m ==> IsLower(t[k])
    ensures LookaheadAt(t, p, look) && EndsValue(t, p, look)
  {
    AtChars(t, p, ahead);
    LabelAhead(t, p, m, look);
  }

  /** ` Medical`, a space and `Word:` at `p`: a value may end at `p`, the noise word left out. */
  lemma NoiseHere(t: string, p: nat, ahead: string, look: Lookahead)
    requires At(t, p, " Medical") && At(t, p + 8, ahead) && IsAhead(ahead)
    ensures t[p] == ' ' && EndsValue(t, p, look)
  {
    AheadHere(t, p + 8, p + 7 + |ahead|, ahead, look);
    AtChars(t, p, " Medical");
    assert t[p + 1..p + 8] == "Medical";
    assert t[p..p + 1] == " ";
    MedicalIsNoise(t, p, p + 8, look);
  }

  /** A value of plain characters of one class, without `Me`, keeps those properties where it occurs. */
  lemma ValueHere(t: string, v: nat, e: nat, x: string, cls: Class)
    requires At(t, v, x) && Trimmed(x) && e == v + |x|
    requires forall k :: 0 <= k < |x| ==> In(x[k], cls) && Plain(x[k])
    requires forall k :: 0 <= k && k + 1 < |x| ==> !(x[k] == 'M' && x[k + 1] == 'e')
    ensures !IsSpace(t[v]) && !IsSpace(t[e - 1])
    ensures forall k :: v <= k < e ==> In(t[k], cls) && Plain(t[k])
    ensures NoMe(t, v, e)
  {
    AtChars(t, v, x);
    assert forall k :: v <= k < e ==> t[k] == x[k - v];
  }

  /** What a lazy window shows the matcher: the label, the value's characters and where it may end. */
  lemma LazyWindowFacts(t: string, i: nat, v: nat, e: nat, lit: string, x: string, noise: string, ahead: string, rule: Rule)
    requires WellFormed(rule) && rule.capture.Lazy? && IsLabelOf(lit, rule)
    requires Trimmed(x) && forall k :: 0 <= k < |x| ==> In(x[k], rule.capture.cls) && Plain(x[k])
    requires forall k :: 0 <= k && k + 1 < |x| ==> !(x[k] == 'M' && x[k + 1] == 'e')
    requires (noise == "" || noise == " Medical") && IsAhead(ahead)
    requires v == i + |lit| && e == v + |x|
    requires At(t, i, lit) && At(t, v, x) && At(t, e, noise + ahead)
    ensures LabelAt(t, i, rule) == Some(v - 1) && RunEnd(t, v - 1, Space) == v
    ensures v < e < |t| && t[v..e] == x
    ensures forall k :: v <= k < e ==> In(t[k], rule.capture.cls) && Plain(t[k])
    ensures NoMe(t, v, e)
    ensures !IsSpace(t[e - 1]) && t[e] == ' ' && EndsValue(t, e, rule.capture.look)
  {
    ValueHere(t, v, e, x, rule.capture.cls);
    assert v < e && t[v..e] == x;
    LabelHere(t, i, v, lit, rule);
    AtSplit(t, e, noise, ahead);
    if noise == "" {
      AheadHere(t, e, e + |ahead| - 1, ahead, rule.capture.look);
    } else {
      NoiseHere(t, e, ahead, rule.capture.look);
    }
    assert e < |t| && t[e] == ' ' && EndsValue(t, e, rule.capture.look);
  }

  /**
   * A lazy rule's label at `i`, its value from `v` to `e`, optionally
   * ` Medical`, then the next label: the value is what the rule extracts when
   * no earlier attempt succeeds.
   */
  lemma LazyWindow(t: string, i: nat, v: nat, e: nat, lit: string, x: string, noise: string, ahead: string, rule: Rule)
    requires WellFormed(rule) && rule.capture.Lazy? && IsLabelOf(lit, rule)
    requires Trimmed(x) && forall k :: 0 <= k < |x| ==> In(x[k], rule.capture.cls) && Plain(x[k])
    requires forall k :: 0 <= k && k + 1 < |x| ==> !(x[k] == 'M' && x[k + 1] == 'e')
    requires (noise == "" || noise == " Medical") && IsAhead(ahead)
    requires v == i + |lit| && e == v + |x|
    requires At(t, i, lit) && At(t, v, x) && At(t, e, noise + ahead)
    requires NoEarlierAttempt(t, rule, i)
    ensures Extract(t, rule) == Some(x)
  {
    LazyWindowFacts(t, i, v, e, lit, x, noise, ahead, rule);
    LazyValueBeforeLabel(t, rule, i, v, e);
  }

  /** What a greedy window shows the matcher: the label, the value and the next label. */
  lemma GreedyWindowFacts(t: string, i: nat, v: nat, e: nat, m: nat, lit: string, x: string, ahead: string, rule: Rule)
    requires WellFormed(rule) && IsLabelOf(lit, rule) && Trimmed(x) && IsAhead(ahead)
    requires v == i + |lit| && e == v + |x| && m == e + |ahead| - 1
    requires At(t, i, lit) && At(t, v, x) && At(t, e, ahead)
    ensures LabelAt(t, i, rule) == Some(v - 1) && RunEnd(t, v - 1, Space) == v
    ensures v < e && e + 1 < m < |t| && t[v..e] == x
    ensures t[e] == ' ' && IsUpper(t[e + 1]) && t[m] == ':'
    ensures forall k :: e + 1 < k < m ==> IsLower(t[k])
  {
    AtChars(t, v, x);
    LabelHere(t, i, v, lit, rule);
    AheadHere(t, e, m, ahead, Strict);
  }

  /**
   * A greedy rule's label at `i`, a value of its shape from `v` to `e`, then
   * the next label, whose colon is at `m`: the value is what the rule extracts
   * when no earlier attempt succeeds.
   */
  lemma GreedyWindow(t: string, i: nat, v: nat, e: nat, m: nat, lit: string, x: string, ahead: string, rule: Rule)
    requires WellFormed(rule) && rule.capture.Greedy? && IsLabelOf(lit, rule)
    requires Trimmed(x) && Fits(x, rule.capture.shape) && IsAhead(ahead)
    requires v == i + |lit| && e == v + |x| && m == e + |ahead| - 1
    requires At(t, i, lit) && At(t, v, x) && At(t, e, ahead)
    requires NoEarlierAttempt(t, rule, i)
    ensures Extract(t, rule) == Some(x)
  {
    GreedyWindowFacts(t, i, v, e, m, lit, x, ahead, rule);
    GreedyValueBeforeLabel(t, rule, i, v, e, m);
  }

  /** Segments `j` and `j + 1` together, where they sit in the record. */
  lemma PairAt(j: nat)
    requires j + 2 <= |Segments|
    ensures At(Record, |Prefix(Segments, j)|, Segments[j] + Segments[j + 1])
  {
    Cut(j);
    AtMiddle(Record, Prefix(Segments, j), Segments[j] + Segments[j + 1], Suffix(Segments, j + 2));
  }

  /** Segments `j` to `j + 2` together, where they sit in the record. */
  lemma TripleAt(j: nat)
    requires j + 3 <= |Segments|
    ensures At(Record, |Prefix(Segments, j)|, Segments[j] + (Segments[j + 1] + Segments[j + 2]))
  {
    var i := |Prefix(Segments, j)|;
    PairAt(j);
    AtSplit(Record, i, Segments[j], Segments[j + 1]);
    PairAt(j + 1);
    PrefixStep(j + 1);
    assert |Prefix(Segments, j + 1)| == i + |Segments[j]|;
    AtJoin(Record, i, Segments[j], Segments[j + 1] + Segments[j + 2]);
  }

  /** A label, a value and what follows it, spelt out at `i`: each piece where it sits. */
  lemma Place(i: nat, v: nat, e: nat, lit: string, x: string, after: string, rest: string)
    requires At(Record, i, lit + x + after + rest)
    requires v == i + |lit| && e == v + |x|
    ensures At(Record, i, lit) && At(Record, v, x) && At(Record, e, after)
  {
    AtSplit(Record, i, lit + x + after, rest);
    AtSplit(Record, i, lit + x, after);
    AtSplit(Record, i, lit, x);
  }

  /** No attempt of a plain rule succeeds before segment `j` when no separator there ends its word. */
  lemma FirstAttempt(rule: Rule, j: nat)
    requires PlainLabel(rule) && |rule.word| > 1 && 0 < j < |Segments|
    requires forall k :: 0 <= k < j ==> NoWordBefore(Segments[k], SegmentSeps[k], rule)
    ensures NoEarlierAttempt(Record, rule, |Prefix(Segments, j)|)
  {
    NoLabelBefore(rule, j);
    PrefixEnds(j);
    Split(Segments, j);
    NoAttemptInPrefix(Prefix(Segments, j), Suffix(Segments, j), rule);
  }

  // The name: the first segment, so no earlier attempt exists.

  lemma NameFits()
    ensures Fits(NameVal, NameWords)
  {
    assert NameVal == "John" + " " + "Harvard";
    OneWord("John");
    OneWord("Harvard");
    WordsJoin("John", "Harvard");
  }

  /** The name segment and what follows it, spelt out. */
  lemma NameLayout()
    ensures Segments[0] + Segments[1] == "Name: " + NameVal + " Age:" + (" " + AgeVal + " ")
  {
  }

  lemma NamePlace()
    ensures |Prefix(Segments, 0)| == 0
    ensures At(Record, 0, "Name: ") && At(Record, 6, NameVal) && At(Record, 18, " Age:")
  {
    PairAt(0);
    NameLayout();
    Place(0, 6, 18, "Name: ", NameVal, " Age:", " " + AgeVal + " ");
  }

  /** The name of the record is `John Harvard`. */
  lemma RecordName()
    ensures Extract(Record, NameRule) == Some(NameVal)
  {
    NamePlace();
    NameFits();
    assert IsLabelOf("Name: ", NameRule) && IsAhead(" Age:") && Trimmed(NameVal);
    GreedyWindow(Record, 0, 6, 18, 22, "Name: ", NameVal, " Age:", NameRule);
  }

  // The age.

  /** The age segment and what follows it, spelt out. */
  lemma AgeLayout()
    ensures Segments[1] + Segments[2] == "Age: " + AgeVal + " Address:" + (" " + AddressVal + " ")
  {
  }

  lemma AgePlace()
    ensures var i := |Prefix(Segments, 1)|;
      At(Record, i, "Age: ") && At(Record, i + 5, AgeVal) && At(Record, i + 7, " Address:")
  {
    var i := |Prefix(Segments, 1)|;
    PairAt(1);
    AgeLayout();
    Place(i, i + 5, i + 7, "Age: ", AgeVal, " Address:", " " + AddressVal + " ");
  }

  lemma AgeFirst()
    ensures NoEarlierAttempt(Record, AgeRule, |Prefix(Segments, 1)|)
  {
    FirstAttempt(AgeRule, 1);
  }

  /** The age of the record is read from `45` and is the number 45. */
  lemma RecordAge()
    ensures Group(Record, AgeRule) == Some(AgeVal) && Age(Record) == Some(45)
  {
    var t := Record;
    var i := |Prefix(Segments, 1)|;
    AgePlace();
    AgeFirst();
    AtChars(t, i + 5, AgeVal);
    AtChars(t, i + 7, " Address:");
    assert IsLabelOf("Age: ", AgeRule);
    LabelHere(t, i, i + 5, "Age: ", AgeRule);
    RunEndIs(t, i + 5, Digit, i + 7);
    MatchAt(t, AgeRule, i);
    assert DecimalValue("45") == 45;
  }

  // The address, followed by `Medical` and the history label.

  /** The address segment and what follows it, spelt out. */
  lemma AddressLayout()
    ensures Segments[2] + (Segments[3] + Segments[4])
      == "Address: " + AddressVal + (" Medical" + " History:") + (" " + HistoryVal + " ")
  {
  }

  lemma AddressPlace()
    ensures var i := |Prefix(Segments, 2)|;
      At(Record, i, "Address: ") && At(Record, i + 9, AddressVal) && At(Record, i + 37, " Medical" + " History:")
  {
    var i := |Prefix(Segments, 2)|;
    TripleAt(2);
    AddressLayout();
    Place(i, i + 9, i + 37, "Address: ", AddressVal, " Medical" + " History:", " " + HistoryVal + " ");
  }

  lemma AddressFirst()
    ensures NoEarlierAttempt(Record, AddressRule, |Prefix(Segments, 2)|)
  {
    FirstAttempt(AddressRule, 2);
  }

  lemma AddressPieces()
    ensures IsLabelOf("Address: ", AddressRule) && IsAhead(" History:") && Trimmed(AddressVal)
  {
  }

  lemma AddressChars()
    ensures forall k :: 0 <= k < |AddressVal| ==> In(AddressVal[k], AddressChar) && Plain(AddressVal[k])
  {
  }

  lemma AddressNoMe()
    ensures forall k :: 0 <= k && k + 1 < |AddressVal| ==> !(AddressVal[k] == 'M' && AddressVal[k + 1] == 'e')
  {
  }

  /** The address of the record is `123 Main Street, Springfield`: the lazy value stops before `Medical`. */
  lemma RecordAddress()
    ensures Extract(Record, AddressRule) == Some(AddressVal)
  {
    var i := |Prefix(Segments, 2)|;
    AddressPlace();
    AddressFirst();
    AddressPieces();
    AddressChars();
    AddressNoMe();
    LazyWindow(Record, i, i + 9, i + 37, "Address: ", AddressVal, " Medical", " History:", AddressRule);
  }

  // The history, followed by `Medical` and the complaint label.

  /** The history segment and what follows it, spelt out. */
  lemma HistoryLayout()
    ensures Segments[4] + (Segments[5] + Segments[6])
      == "History: " + HistoryVal + (" Medical" + " Complaint:") + (" " + ComplaintVal + " ")
  {
  }

  lemma HistoryPlace()
    ensures var i := |Prefix(Segments, 4)|;
      At(Record, i, "History: ") && At(Record, i + 9, HistoryVal) && At(Record, i + 38, " Medical" + " Complaint:")
  {
    var i := |Prefix(Segments, 4)|;
    TripleAt(4);
    HistoryLayout();
    Place(i, i + 9, i + 38, "History: ", HistoryVal, " Medical" + " Complaint:", " " + ComplaintVal + " ");
  }

  lemma HistoryFirst()
    ensures NoEarlierAttempt(Record, HistoryRule, |Prefix(Segments, 4)|)
  {
    FirstAttempt(HistoryRule, 4);
  }

  lemma HistoryPieces()
    ensures IsLabelOf("History: ", HistoryRule) && IsAhead(" Complaint:") && Trimmed(HistoryVal)
  {
  }

  lemma HistoryChars()
    ensures forall k :: 0 <= k < |HistoryVal| ==> In(HistoryVal[k], NotNewline) && Plain(HistoryVal[k])
  {
  }

  lemma HistoryNoMe()
    ensures forall k :: 0 <= k && k + 1 < |HistoryVal| ==> !(HistoryVal[k] == 'M' && HistoryVal[k + 1] == 'e')
  {
  }

  /** The history of the record is `Hypertension, Type 2 Diabetes`: the lazy value stops before `Medical`. */
  lemma RecordHistory()
    ensures Extract(Record, HistoryRule) == Some(HistoryVal)
  {
    var i := |Prefix(Segments, 4)|;
    HistoryPlace();
    HistoryFirst();
    HistoryPieces();
    HistoryChars();
    HistoryNoMe();
    LazyWindow(Record, i, i + 9, i + 38, "History: ", HistoryVal, " Medical", " Complaint:", HistoryRule);
  }

  // The complaint, followed by the diagnosis label.

  /** The complaint segment and what follows it, spelt out. */
  lemma ComplaintLayout()
    ensures Segments[6] + Segments[7] == "Complaint: " + ComplaintVal + ("" + " Diagnosis:") + (" " + DiagnosisVal + " ")
  {
  }

  lemma ComplaintPlace()
    ensures var i := |Prefix(Segments, 6)|;
      At(Record, i, "Complaint: ") && At(Record, i + 11, ComplaintVal) && At(Record, i + 32, "" + " Diagnosis:")
  {
    var i := |Prefix(Segments, 6)|;
    PairAt(6);
    ComplaintLayout();
    Place(i, i + 11, i + 32, "Complaint: ", ComplaintVal, "" + " Diagnosis:", " " + DiagnosisVal + " ");
  }

  lemma ComplaintFirst()
    ensures NoEarlierAttempt(Record, ComplaintRule, |Prefix(Segments, 6)|)
  {
    FirstAttempt(ComplaintRule, 6);
  }

  lemma ComplaintPieces()
    ensures IsLabelOf("Complaint: ", ComplaintRule) && IsAhead(" Diagnosis:") && Trimmed(ComplaintVal)
  {
  }

  lemma ComplaintChars()
    ensures forall k :: 0 <= k < |ComplaintVal| ==> In(ComplaintVal[k], NotNewline) && Plain(ComplaintVal[k])
  {
  }

  lemma ComplaintNoMe()
    ensures forall k :: 0 <= k && k + 1 < |ComplaintVal| ==> !(ComplaintVal[k] == 'M' && ComplaintVal[k + 1] == 'e')
  {
  }

  /** The complaint of the record is `Pain in upper 7 tooth`. */
  lemma RecordComplaint()
    ensures Extract(Record, ComplaintRule) == Some(ComplaintVal)
  {
    var i := |Prefix(Segments, 6)|;
    ComplaintPlace();
    ComplaintFirst();
    ComplaintPieces();
    ComplaintChars();
    ComplaintNoMe();
    LazyWindow(Record, i, i + 11, i + 32, "Complaint: ", ComplaintVal, "", " Diagnosis:", ComplaintRule);
  }

  // The diagnosis, procedure and medications: greedy values of up to four parts.

  /** A phrase alone is a value of at most any number of further parts. */
  lemma OnePart(s: string, n: nat)
    requires IsPhrase(s)
    ensures IsParts(s, n)
  {
    RunEndIs(s, 0, LetterOrSpace, |s|);
  }

  /** A phrase, a comma or hyphen right after it, whitespace, then at most `n - 1` further parts: at most `n` further parts. */
  lemma PartsAfter(s: string, j: nat, c: nat, n: nat)
    requires 0 < j < |s| && n > 0
    requires IsPhrase(s[..j]) && (s[j] == ',' || s[j] == '-')
    requires c == RunEnd(s, j + 1, Space) && IsParts(s[c..], n - 1)
    ensures IsParts(s, n)
  {
    PartsHead(s, j);
    assert IsPhrase(s[..|TrimEnd(s[..j])|]);
    assert IsParts(s[RunEnd(s, j + 1, Space)..], n - 1);
  }

  /** The first phrase of such a value ends at `j`, needs no trimming, and the separator at `j` ends after it. */
  lemma PartsHead(s: string, j: nat)
    requires 0 < j < |s| && IsPhrase(s[..j]) && (s[j] == ',' || s[j] == '-')
    ensures RunEnd(s, 0, LetterOrSpace) == j && |TrimEnd(s[..j])| == j
    ensures SeparatorEnd(s, j, j) == Some(j + 1)
  {
    var p := s[..j];
    assert forall k :: 0 <= k < j ==> s[k] == p[k];
    RunEndIs(s, 0, LetterOrSpace, j);
    assert TrimEnd(p) == p;
  }

  /** The last two parts of the procedure. */
  lemma ProcedureTail(y: string)
    requires y == "ray scan, splinting"
    ensures IsParts(y, 2)
  {
    assert y[..8] == "ray scan" && y[10..] == "splinting";
    OnePart(y[10..], 1);
    RunEndIs(y, 9, Space, 10);
    PartsAfter(y, 8, 10, 2);
  }

  lemma DiagnosisFits()
    ensures Fits(DiagnosisVal, Parts)
  {
    OnePart(DiagnosisVal, 3);
  }

  /** `X`, a hyphen, and the rest of the procedure. */
  lemma ProcedureHead(x: string)
    requires x == ProcedureVal
    ensures |x| > 2 && IsPhrase(x[..1]) && x[1] == '-' && RunEnd(x, 2, Space) == 2
    ensures x[2..] == "ray scan, splinting"
  {
    assert x[..1] == "X";
    RunEndIs(x, 2, Space, 2);
  }

  /** `X-ray scan, splinting` is three parts: `X`, `ray scan` and `splinting`. */
  lemma ProcedureFits()
    ensures Fits(ProcedureVal, Parts)
  {
    var x := ProcedureVal;
    ProcedureHead(x);
    ProcedureTail(x[2..]);
    PartsAfter(x, 1, 2, 3);
  }

  /** `Paracetamol, Metoprolol` is two parts. */
  lemma MedicationsFits()
    ensures Fits(MedicationsVal, Parts)
  {
    var x := MedicationsVal;
    assert x[..11] == "Paracetamol" && x[13..] == "Metoprolol";
    OnePart(x[13..], 2);
    RunEndIs(x, 12, Space, 13);
    PartsAfter(x, 11, 13, 3);
  }

  /** The diagnosis segment and what follows it, spelt out. */
  lemma DiagnosisLayout()
    ensures Segments[7] + Segments[8] == "Diagnosis: " + DiagnosisVal + " Procedure:" + (" " + ProcedureVal + " ")
  {
  }

  lemma DiagnosisPlace()
    ensures var i := |Prefix(Segments, 7)|;
      At(Record, i, "Diagnosis: ") && At(Record, i + 11, DiagnosisVal) && At(Record, i + 25, " Procedure:")
  {
    var i := |Prefix(Segments, 7)|;
    PairAt(7);
    DiagnosisLayout();
    Place(i, i + 11, i + 25, "Diagnosis: ", DiagnosisVal, " Procedure:", " " + ProcedureVal + " ");
  }

  lemma DiagnosisFirst()
    ensures NoEarlierAttempt(Record, DiagnosisRule, |Prefix(Segments, 7)|)
  {
    FirstAttempt(DiagnosisRule, 7);
  }

  lemma DiagnosisPieces()
    ensures IsLabelOf("Diagnosis: ", DiagnosisRule) && IsAhead(" Procedure:") && Trimmed(DiagnosisVal)
  {
  }

  /** The diagnosis of the record is `Tooth fracture`. */
  lemma RecordDiagnosis()
    ensures Extract(Record, DiagnosisRule) == Some(DiagnosisVal)
  {
    var i := |Prefix(Segments, 7)|;
    DiagnosisPlace();
    DiagnosisFirst();
    DiagnosisFits();
    DiagnosisPieces();
    GreedyWindow(Record, i, i + 11, i + 25, i + 35, "Diagnosis: ", DiagnosisVal, " Procedure:", DiagnosisRule);
  }

  /** The procedure rule without its `Medical` prefix: a plain rule with the same word. */
  const ProcedureWord: Rule := Rule("procedure", false, FreeLabelSeps, Greedy(Parts))

  /**
   * An attempt of the procedure rule from inside `a` looks for its word
   * inside `a` too, when `a` ends in a space after a character that is
   * neither whitespace nor the last letter of `Medical`.
   */
  lemma ProcedureStart(a: string, b: string, k: nat)
    requires |a| >= 2 && a[|a| - 1] == ' ' && !IsSpace(a[|a| - 2]) && a[|a| - 2] != 'l' && k < |a|
    ensures WordStart(a + b, k, ProcedureRule) < |a|
  {
    var t := a + b;
    if k + 7 <= |t| && (t[k] == 'M' || t[k] == 'm') && t[k + 1..k + 7] == "edical" {
      assert forall j :: k + 1 <= j < k + 7 ==> t[j] == "edical"[j - k - 1];
      assert t[|a| - 1] == ' ' && t[|a| - 2] == a[|a| - 2];
    }
  }

  /** No attempt of the procedure rule succeeds inside such an `a` when `a` holds no procedure label. */
  lemma NoProcedureAttempt(a: string, b: string)
    requires |a| >= 2 && a[|a| - 1] == ' ' && !IsSpace(a[|a| - 2]) && a[|a| - 2] != 'l'
    requires NoLabelIn(a, ProcedureWord)
    ensures NoEarlierAttempt(a + b, ProcedureRule, |a|)
  {
    forall k: nat | k < |a| ensures RuleAt(a + b, k, ProcedureRule).None? {
      var ws := WordStart(a + b, k, ProcedureRule);
      ProcedureStart(a, b, k);
      assert LabelAt(a + b, k, ProcedureRule) == LabelAt(a + b, ws, ProcedureWord);
      if LabelAt(a + b, ws, ProcedureWord).Some? {
        LabelInPrefix(a, b, ws, ProcedureWord);
      }
    }
  }

  lemma ProcedureFirst()
    ensures NoEarlierAttempt(Record, ProcedureRule, |Prefix(Segments, 8)|)
  {
    var a := Prefix(Segments, 8);
    NoLabelBefore(ProcedureWord, 8);
    assert a == Prefix(Segments, 7) + DiagnosisSeg;
    assert a[|a| - 2] == DiagnosisSeg[24] && a[|a| - 1] == DiagnosisSeg[25];
    Split(Segments, 8);
    NoProcedureAttempt(a, Suffix(Segments, 8));
  }

  /** The procedure segment and what follows it, spelt out. */
  lemma ProcedureLayout()
    ensures Segments[8] + Segments[9] == "Procedure: " + ProcedureVal + " Medications:" + (" " + MedicationsVal + " ")
  {
  }

  lemma ProcedurePlace()
    ensures var i := |Prefix(Segments, 8)|;
      At(Record, i, "Procedure: ") && At(Record, i + 11, ProcedureVal) && At(Record, i + 32, " Medications:")
  {
    var i := |Prefix(Segments, 8)|;
    PairAt(8);
    ProcedureLayout();
    Place(i, i + 11, i + 32, "Procedure: ", ProcedureVal, " Medications:", " " + MedicationsVal + " ");
  }

  lemma ProcedurePieces()
    ensures IsLabelOf("Procedure: ", ProcedureRule) && IsAhead(" Medications:") && Trimmed(ProcedureVal)
  {
  }

  /** The procedure of the record is `X-ray scan, splinting`. */
  lemma RecordProcedure()
    ensures Extract(Record, ProcedureRule) == Some(ProcedureVal)
  {
    var i := |Prefix(Segments, 8)|;
    ProcedurePlace();
    ProcedureFirst();
    ProcedureFits();
    ProcedurePieces();
    GreedyWindow(Record, i, i + 11, i + 32, i + 44, "Procedure: ", ProcedureVal, " Medications:", ProcedureRule);
  }

  /** The medications segment and what follows it, spelt out. */
  lemma MedicationsLayout()
    ensures Segments[9] + Segments[10] == "Medications: " + MedicationsVal + " Email:" + (" " + EmailVal + " ")
  {
  }

  lemma MedicationsPlace()
    ensures var i := |Prefix(Segments, 9)|;
      At(Record, i, "Medications: ") && At(Record, i + 13, MedicationsVal) && At(Record, i + 36, " Email:")
  {
    var i := |Prefix(Segments, 9)|;
    PairAt(9);
    MedicationsLayout();
    Place(i, i + 13, i + 36, "Medications: ", MedicationsVal, " Email:", " " + EmailVal + " ");
  }

  lemma MedicationsFirst()
    ensures NoEarlierAttempt(Record, MedicationsRule, |Prefix(Segments, 9)|)
  {
    FirstAttempt(MedicationsRule, 9);
  }

  lemma MedicationsPieces()
    ensures IsLabelOf("Medications: ", MedicationsRule) && IsAhead(" Email:") && Trimmed(MedicationsVal)
  {
  }

  /** The medications of the record are `Paracetamol, Metoprolol`. */
  lemma RecordMedications()
    ensures Extract(Record, MedicationsRule) == Some(MedicationsVal)
  {
    var i := |Prefix(Segments, 9)|;
    MedicationsPlace();
    MedicationsFirst();
    MedicationsFits();
    MedicationsPieces();
    GreedyWindow(Record, i, i + 13, i + 36, i + 42, "Medications: ", MedicationsVal, " Email:", MedicationsRule);
  }

  // The insurance: no segment holds its label.

  /** The record is its thirteen segments. */
  lemma Whole()
    ensures Record == Prefix(Segments, |Segments|)
  {
    Split(Segments, |Segments|);
  }

  /** No separator in the record ends the word `insurance`. */
  lemma InsuranceQuiet()
    ensures forall j :: 0 <= j < |Segments| ==> NoWordBefore(Segments[j], SegmentSeps[j], InsuranceRule)
  {
  }

  /** The record has no insurance: its label appears nowhere, so the rule reads nothing. */
  lemma RecordInsurance()
    ensures Extract(Record, InsuranceRule) == None
  {
    InsuranceQuiet();
    NoLabelBefore(InsuranceRule, |Segments|);
    Whole();
    ValueNeedsLabel(Record, InsuranceRule);
  }

  // The visit date: the last segment, after twelve that hold no date.

  /** The record is the first twelve segments, then the visit segment. */
  lemma VisitSplit()
    ensures Record == Prefix(Segments, 12) + VisitSeg
  {
    Split(Segments, 12);
    assert Suffix(Segments, 12) == VisitSeg;
  }

  /** The date closes the record. */
  lemma VisitAt()
    ensures var a := Prefix(Segments, 12); At(Record, |a| + 12, DateVal) && |Record| == |a| + 22
  {
    var a := Prefix(Segments, 12);
    VisitSplit();
    AtMiddle(Record, a + "Visit Date: ", DateVal, []);
  }

  /** No date is read from the label of the visit segment. */
  lemma VisitLabelNoDate()
    ensures forall k :: 0 <= k < 12 ==> DateAt(VisitSeg, k).None?
  {
    forall k | 0 <= k < 12 ensures DateAt(VisitSeg, k).None? {
      RunEndIs(VisitSeg, k, Digit, k);
    }
  }

  // Which segments are quiet: no `@`, no phone reading, no date.

  lemma NameSegQuiet() ensures DateQuiet(NameSeg, {4}, {}) && PhoneQuiet(NameSeg, {}) && AtQuiet(NameSeg, {}) { }
  lemma AgeSegQuiet() ensures DateQuiet(AgeSeg, {3}, {5, 6}) && PhoneQuiet(AgeSeg, {5, 6}) && AtQuiet(AgeSeg, {5, 6}) { }
  lemma AddressSegQuiet() ensures DateQuiet(AddressSeg, {7}, {9, 10, 11}) && PhoneQuiet(AddressSeg, {9, 10, 11}) && AtQuiet(AddressSeg, {9, 10, 11}) { }
  lemma MedicalSegQuiet() ensures DateQuiet(MedicalSeg, {}, {}) && PhoneQuiet(MedicalSeg, {}) && AtQuiet(MedicalSeg, {}) { }
  lemma HistorySegQuiet() ensures DateQuiet(HistorySeg, {7}, {28}) && PhoneQuiet(HistorySeg, {28}) && AtQuiet(HistorySeg, {28}) { }
  lemma ComplaintSegQuiet() ensures DateQuiet(ComplaintSeg, {9}, {25}) && PhoneQuiet(ComplaintSeg, {25}) && AtQuiet(ComplaintSeg, {25}) { }
  lemma DiagnosisSegQuiet() ensures DateQuiet(DiagnosisSeg, {9}, {}) && PhoneQuiet(DiagnosisSeg, {}) && AtQuiet(DiagnosisSeg, {}) { }
  lemma ProcedureSegQuiet() ensures DateQuiet(ProcedureSeg, {9, 12}, {}) && PhoneQuiet(ProcedureSeg, {}) && AtQuiet(ProcedureSeg, {}) { }
  lemma MedicationsSegQuiet() ensures DateQuiet(MedicationsSeg, {11}, {}) && PhoneQuiet(MedicationsSeg, {}) && AtQuiet(MedicationsSeg, {}) { }
  lemma EmailSegQuiet() ensures DateQuiet(EmailSeg, {5}, {14}) && PhoneQuiet(EmailSeg, {14}) { }
  lemma PhoneSegQuiet() ensures DateQuiet(PhoneSeg, {5, 9, 13, 17}, {7, 8, 10, 11, 12, 14, 15, 16, 18, 19, 20, 21}) { }

  /** The segments before the visit hold no date. */
  lemma DatesQuiet()
    ensures forall j :: 0 <= j < 12 ==> DateQuiet(Segments[j], SegmentSeps[j], SegmentMarks[j])
  {
    NameSegQuiet(); AgeSegQuiet(); AddressSegQuiet(); MedicalSegQuiet(); HistorySegQuiet(); ComplaintSegQuiet();
    DiagnosisSegQuiet(); ProcedureSegQuiet(); MedicationsSegQuiet(); EmailSegQuiet(); PhoneSegQuiet();
  }

  /** The segments before the phone hold no phone reading. */
  lemma PhonesQuiet()
    ensures forall j :: 0 <= j < 11 ==> PhoneQuiet(Segments[j], SegmentMarks[j])
  {
    NameSegQuiet(); AgeSegQuiet(); AddressSegQuiet(); MedicalSegQuiet(); HistorySegQuiet(); ComplaintSegQuiet();
    DiagnosisSegQuiet(); ProcedureSegQuiet(); MedicationsSegQuiet(); EmailSegQuiet();
  }

  /** The segments before the e-mail address hold no `@`. */
  lemma AtsQuiet()
    ensures forall j :: 0 <= j < 10 ==> AtQuiet(Segments[j], SegmentMarks[j])
  {
    NameSegQuiet(); AgeSegQuiet(); AddressSegQuiet(); MedicalSegQuiet(); HistorySegQuiet(); ComplaintSegQuiet();
    DiagnosisSegQuiet(); ProcedureSegQuiet(); MedicationsSegQuiet();
  }

  /** No attempt of the date pattern succeeds before the visit date. */
  lemma DateFirst()
    ensures |Record| == |Prefix(Segments, 12)| + 22
    ensures forall k :: 0 <= k < |Prefix(Segments, 12)| + 12 ==> DateAt(Record, k).None?
  {
    var a := Prefix(Segments, 12);
    VisitAt();
    DatesQuiet();
    NoDateBefore(12);
    PrefixEnds(12);
    VisitSplit();
    NoDateInPrefix(a, VisitSeg);
    VisitLabelNoDate();
    forall k | |a| <= k < |a| + 12 ensures DateAt(Record, k).None? {
      if DateAt(Record, k).Some? {
        DateInSuffix(a, VisitSeg, k);
      }
    }
  }

  /** The date pattern reads `29-01-2025` where it stands at the end of a text. */
  lemma DateHere(t: string, p: nat)
    requires At(t, p, DateVal) && |t| == p + 10
    ensures DateAt(t, p) == Some(p + 10)
  {
    AtChars(t, p, DateVal);
    AtRun(t, p, DateVal, 0, 2, Digit);
    AtRun(t, p, DateVal, 3, 5, Digit);
    AtRun(t, p, DateVal, 6, 10, Digit);
    assert t[p + 2] == '-' && t[p + 5] == '-';
    RunEndIs(t, p, Digit, p + 2);
    RunEndIs(t, p + 3, Digit, p + 5);
    RunEndIs(t, p + 6, Digit, p + 10);
  }

  /** When the first date of a text is read at `p` up to `e`, the date text is that stretch. */
  lemma DateTextAt(t: string, p: nat, e: nat)
    requires p <= |t| && DateAt(t, p) == Some(e)
    requires forall k :: 0 <= k < p ==> DateAt(t, k).None?
    ensures DateText(t) == Some(t[p..e])
  {
    assert DateFrom(t, 0) == Some(p);
  }

  /** The visit date of the record is `29-01-2025`, read day first as the 29th of January 2025. */
  lemma RecordVisitDate()
    ensures DateText(Record) == Some(DateVal)
    ensures VisitDate(Record) == Some(Ok("2025-01-29"))
  {
    RecordDateText();
    DayFirstDate(DateVal);
  }

  /** The date text of the record is the last ten characters, `29-01-2025`. */
  lemma RecordDateText()
    ensures DateText(Record) == Some(DateVal)
  {
    var p := |Prefix(Segments, 12)| + 12;
    VisitAt();
    assert At(Record, p, DateVal) && |Record| == p + 10;
    DateFirst();
    assert forall k :: 0 <= k < p ==> DateAt(Record, k).None?;
    DateIs(Record, p);
  }

  /** `29-01-2025` closing a text, with no date read earlier, is its date text. */
  lemma DateIs(t: string, p: nat)
    requires At(t, p, DateVal) && |t| == p + 10
    requires forall k :: 0 <= k < p ==> DateAt(t, k).None?
    ensures DateText(t) == Some(DateVal)
  {
    DateHere(t, p);
    DateTextAt(t, p, p + 10);
  }

  // The phone: segment 11, after eleven segments that hold no phone reading.

  /** The phone segment and what follows it, spelt out. */
  lemma PhoneLayout()
    ensures Segments[11] + Segments[12] == "Phone: " + PhoneVal + " Visit" + (" Date: " + DateVal)
  {
  }

  lemma PhonePlace()
    ensures var i := |Prefix(Segments, 11)|;
      At(Record, i, "Phone: ") && At(Record, i + 7, PhoneVal) && At(Record, i + 22, " Visit")
  {
    var i := |Prefix(Segments, 11)|;
    PairAt(11);
    PhoneLayout();
    Place(i, i + 7, i + 22, "Phone: ", PhoneVal, " Visit", " Date: " + DateVal);
  }

  /** `\+?\d\d?\d?` reads a `+` and one digit when a non-digit follows them. */
  lemma PlusDigitHere(t: string, q: nat, rest: Pattern)
    requires q + 2 < |t| && t[q] == '+' && IsDigit(t[q + 1]) && !IsDigit(t[q + 2])
    requires MatchPieces(t, q + 2, rest).Some?
    ensures MatchPieces(t, q, Then(Opt(PlusSign), Then(One(Numeral), Then(Opt(Numeral), Then(Opt(Numeral), rest)))))
         == MatchPieces(t, q + 2, rest)
  {
    var r2 := Then(Opt(Numeral), rest);
    var r1 := Then(Opt(Numeral), r2);
    assert MatchPieces(t, q + 2, r2) == MatchPieces(t, q + 2, rest);
    assert MatchPieces(t, q + 2, r1) == MatchPieces(t, q + 2, rest);
    assert MatchPieces(t, q + 1, Then(One(Numeral), r1)) == MatchPieces(t, q + 2, rest);
  }

  /** `[-.\s]?` takes a separator when the rest can follow it. */
  lemma SeparatorHere(t: string, q: nat, rest: Pattern)
    requires q < |t| && Accepts(Separator, t[q]) && MatchPieces(t, q + 1, rest).Some?
    ensures MatchPieces(t, q, Then(Opt(Separator), rest)) == MatchPieces(t, q + 1, rest)
  {
  }

  /** `\d{3,4}` reads three digits when a non-digit follows them. */
  lemma ThreeDigitsHere(t: string, q: nat, rest: Pattern)
    requires q + 3 < |t| && IsDigit(t[q]) && IsDigit(t[q + 1]) && IsDigit(t[q + 2]) && !IsDigit(t[q + 3])
    ensures MatchPieces(t, q, ThreeOrFourDigits(rest)) == MatchPieces(t, q + 3, rest)
  {
    var p3 := Then(Opt(Numeral), rest);
    var p2 := Then(One(Numeral), p3);
    assert MatchPieces(t, q + 3, p3) == MatchPieces(t, q + 3, rest);
    assert MatchPieces(t, q + 2, p2) == MatchPieces(t, q + 3, rest);
    assert MatchPieces(t, q + 1, Then(One(Numeral), p2)) == MatchPieces(t, q + 3, rest);
  }

  /** `\d{3,4}` at the end of the pattern reads four digits when there are four. */
  lemma FourDigitsHere(t: string, q: nat)
    requires q + 4 <= |t| && IsDigit(t[q]) && IsDigit(t[q + 1]) && IsDigit(t[q + 2]) && IsDigit(t[q + 3])
    ensures MatchPieces(t, q, ThreeOrFourDigits(Done)) == Some(q + 4)
  {
  }

  /** `+1-555-789-1234`, character by character, where it stands. */
  lemma PhoneChars(t: string, p: nat)
    requires At(t, p, PhoneVal)
    ensures p + 15 <= |t|
    ensures t[p] == '+' && t[p + 1] == '1' && t[p + 2] == '-'
    ensures t[p + 3] == '5' && t[p + 4] == '5' && t[p + 5] == '5' && t[p + 6] == '-'
    ensures t[p + 7] == '7' && t[p + 8] == '8' && t[p + 9] == '9' && t[p + 10] == '-'
    ensures t[p + 11] == '1' && t[p + 12] == '2' && t[p + 13] == '3' && t[p + 14] == '4'
  {
    var s := t[p..p + 15];
    assert s == PhoneVal;
    assert t[p] == s[0] == PhoneVal[0] == '+';
    assert t[p + 1] == s[1] == PhoneVal[1] == '1';
    assert t[p + 2] == s[2] == PhoneVal[2] == '-';
    assert t[p + 3] == s[3] == PhoneVal[3] == '5';
    assert t[p + 4] == s[4] == PhoneVal[4] == '5';
    assert t[p + 5] == s[5] == PhoneVal[5] == '5';
    assert t[p + 6] == s[6] == PhoneVal[6] == '-';
    assert t[p + 7] == s[7] == PhoneVal[7] == '7';
    assert t[p + 8] == s[8] == PhoneVal[8] == '8';
    assert t[p + 9] == s[9] == PhoneVal[9] == '9';
    assert t[p + 10] == s[10] == PhoneVal[10] == '-';
    assert t[p + 11] == s[11] == PhoneVal[11] == '1';
    assert t[p + 12] == s[12] == PhoneVal[12] == '2';
    assert t[p + 13] == s[13] == PhoneVal[13] == '3';
    assert t[p + 14] == s[14] == PhoneVal[14] == '4';
  }

  /** The phone pattern reads `+1-555-789-1234` where it stands. */
  lemma PhoneHere(t: string, p: nat)
    requires At(t, p, PhoneVal)
    ensures MatchPieces(t, p, PhonePattern) == Some(p + 15)
  {
    PhoneChars(t, p);
    var b3 := ThreeOrFourDigits(Done);
    var b2 := ThreeOrFourDigits(Then(Opt(Separator), b3));
    var b1 := ThreeOrFourDigits(Then(Opt(Separator), b2));
    FourDigitsHere(t, p + 11);
    SeparatorHere(t, p + 10, b3);
    ThreeDigitsHere(t, p + 7, Then(Opt(Separator), b3));
    SeparatorHere(t, p + 6, b2);
    ThreeDigitsHere(t, p + 3, Then(Opt(Separator), b2));
    SeparatorHere(t, p + 2, b1);
    PlusDigitHere(t, p, Then(Opt(Separator), b1));
  }

  /** No phone reading starts at a character that is neither `+` nor a digit. */
  lemma NoPhoneStart(t: string, k: nat)
    requires k < |t| && t[k] != '+' && !IsDigit(t[k])
    ensures MatchPieces(t, k, PhonePattern).None?
  {
  }

  /** The record cut before the phone segment: the cut falls before a `P`. */
  lemma PhoneCut()
    ensures var a := Prefix(Segments, 11); var b := Suffix(Segments, 11);
      Record == a + b && |b| > 0 && b[0] == 'P'
  {
    var a := Prefix(Segments, 11);
    Split(Segments, 11);
    PhonePlace();
    AtChars(Record, |a|, "Phone: ");
  }

  /** No phone reading starts before the phone number. */
  lemma PhoneFirst()
    ensures |Prefix(Segments, 11)| + 7 <= |Record|
    ensures forall k :: 0 <= k < |Prefix(Segments, 11)| + 7 ==> MatchPieces(Record, k, PhonePattern).None?
  {
    var a := Prefix(Segments, 11);
    PhonesQuiet();
    NoPhoneBefore(11);
    PhoneCut();
    NoPhoneInPrefix(a, Suffix(Segments, 11));
    PhonePlace();
    AtChars(Record, |a|, "Phone: ");
    forall k | |a| < k < |a| + 7 ensures MatchPieces(Record, k, PhonePattern).None? {
      NoPhoneStart(Record, k);
    }
  }

  /** When the first phone reading of a text is at `p` up to `e`, the phone value is that stretch. */
  lemma PhoneAt(t: string, p: nat, e: nat)
    requires p <= |t| && MatchPieces(t, p, PhonePattern) == Some(e)
    requires forall k :: 0 <= k < p ==> MatchPieces(t, k, PhonePattern).None?
    ensures Phone(t) == Some(t[p..e])
  {
    assert SearchFrom(t, 0, PhonePattern) == Some(p);
    PhonePatternFacts();
    SearchValueIsText(t, PhonePattern, p, e);
  }

  /** The phone of the record is `+1-555-789-1234`. */
  lemma RecordPhone()
    ensures Phone(Record) == Some(PhoneVal)
  {
    var p := |Prefix(Segments, 11)| + 7;
    PhonePlace();
    PhoneFirst();
    PhoneHere(Record, p);
    PhoneAt(Record, p, p + 15);
  }

  // The e-mail address: segment 10, with the only `@` of the record.

  /** The e-mail segment and what follows it, spelt out. */
  lemma EmailLayout()
    ensures Segments[10] + Segments[11] == "Email: " + EmailVal + " Phone:" + (" " + PhoneVal + " ")
  {
  }

  lemma EmailPlace()
    ensures var i := |Prefix(Segments, 10)|;
      At(Record, i, "Email: ") && At(Record, i + 7, EmailVal) && At(Record, i + 26, " Phone:")
  {
    var i := |Prefix(Segments, 10)|;
    PairAt(10);
    EmailLayout();
    Place(i, i + 7, i + 26, "Email: ", EmailVal, " Phone:", " " + PhoneVal + " ");
  }

  /** The e-mail pattern reads `johndoe@example.com` where it stands before a space. */
  lemma EmailHere(t: string, p: nat)
    requires At(t, p, EmailVal) && p + 19 < |t| && t[p + 19] == ' '
    ensures EmailAt(t, p) == Some(p + 19)
  {
    LocalHere(t, p);
    DomainHere(t, p);
    assert EmailTry(t, p, p + 8).None?;
    assert EmailTry(t, p, p + 7) == Some(p + 19);
  }

  /** The local part `johndoe`: a run of local-part characters up to the `@`. */
  lemma LocalHere(t: string, p: nat)
    requires At(t, p, EmailVal)
    ensures RunEnd(t, p, LocalChar) == p + 7 && p + 8 < |t|
    ensures t[p] == 'j' && t[p + 6] == 'e' && t[p + 7] == '@' && t[p + 8] == 'e'
    ensures forall k :: p <= k < p + 6 ==> In(t[k], LocalChar)
  {
    AtChars(t, p, EmailVal);
    AtRun(t, p, EmailVal, 0, 7, LocalChar);
    assert EmailVal[7] == '@' && t[p + 7] == EmailVal[7];
    RunEndIs(t, p, LocalChar, p + 7);
  }

  /** The domain `example.com`, closed by a space: two word runs around a dot. */
  lemma DomainHere(t: string, p: nat)
    requires At(t, p, EmailVal) && p + 19 < |t| && t[p + 19] == ' '
    ensures DomainEnd(t, p + 7) == Some(p + 19)
  {
    AtChars(t, p, EmailVal);
    AtRun(t, p, EmailVal, 8, 15, Word);
    AtRun(t, p, EmailVal, 16, 19, Word);
    assert EmailVal[15] == '.' && t[p + 15] == EmailVal[15];
    RunEndIs(t, p + 8, Word, p + 15);
    RunEndIs(t, p + 16, Word, p + 19);
  }

  /**
   * No e-mail reading starts before `p` when no `@` comes up to `p` and the
   * character before `p` is a space: an `@` after `p` would need local-part
   * characters across that space.
   */
  lemma NoEmailBefore(t: string, p: nat, k: nat)
    requires k < p < |t| && t[p - 1] == ' '
    requires forall a :: 0 <= a <= p ==> t[a] != '@'
    ensures EmailAt(t, k).None?
  {
    forall a | k < a ensures EmailTry(t, k, a).None? {
      if a > p {
        assert !In(t[p - 1], LocalChar);
      }
    }
  }

  /** The segments before the e-mail segment hold no `@`. */
  lemma NoAtInFront()
    ensures |Prefix(Segments, 10)| <= |Record|
    ensures forall j :: 0 <= j < |Prefix(Segments, 10)| ==> Record[j] != '@'
  {
    var a := Prefix(Segments, 10);
    AtsQuiet();
    NoAtBefore(10);
    Split(Segments, 10);
    assert forall j :: 0 <= j < |a| ==> Record[j] == a[j];
  }

  /** The record up to the first character of the address holds no `@`. */
  lemma NoAtUpToEmail()
    ensures var p := |Prefix(Segments, 10)| + 7;
      p < |Record| && Record[p - 1] == ' ' && forall a :: 0 <= a <= p ==> Record[a] != '@'
  {
    NoAtInFront();
    EmailPlace();
    NoAtThrough(Record, |Prefix(Segments, 10)|);
  }

  /** No `@` before `i`, then `Email: ` and the address: still no `@` up to the address's first character. */
  lemma NoAtThrough(t: string, i: nat)
    requires i <= |t| && forall j :: 0 <= j < i ==> t[j] != '@'
    requires At(t, i, "Email: ") && At(t, i + 7, EmailVal)
    ensures i + 7 < |t| && t[i + 6] == ' ' && forall a :: 0 <= a <= i + 7 ==> t[a] != '@'
  {
    AtChars(t, i, "Email: ");
    AtChars(t, i + 7, EmailVal);
    forall a | i <= a <= i + 7 ensures t[a] != '@' {
      if a < i + 7 {
        assert t[a] == "Email: "[a - i];
      } else {
        assert t[a] == EmailVal[0];
      }
    }
  }

  /** No e-mail reading starts before the address. */
  lemma EmailFirst()
    ensures |Prefix(Segments, 10)| + 7 <= |Record|
    ensures forall k :: 0 <= k < |Prefix(Segments, 10)| + 7 ==> EmailAt(Record, k).None?
  {
    var p := |Prefix(Segments, 10)| + 7;
    NoAtUpToEmail();
    forall k | 0 <= k < p ensures EmailAt(Record, k).None? {
      NoEmailBefore(Record, p, k);
    }
  }

  /** When the first e-mail reading of a text is at `p` up to `e`, the e-mail value is that stretch, stripped. */
  lemma EmailAtFirst(t: string, p: nat, e: nat)
    requires p <= |t| && EmailAt(t, p) == Some(e)
    requires forall k :: 0 <= k < p ==> EmailAt(t, k).None?
    ensures Email(t) == Some(Strip(t[p..e]))
  {
    assert EmailFrom(t, 0) == Some(p);
  }

  /** `johndoe@example.com` before the phone label, with no e-mail reading earlier, is the e-mail value. */
  lemma EmailIs(t: string, p: nat)
    requires At(t, p, EmailVal) && At(t, p + 19, " Phone:")
    requires forall k :: 0 <= k < p ==> EmailAt(t, k).None?
    ensures Email(t) == Some(EmailVal)
  {
    AtChars(t, p + 19, " Phone:");
    EmailHere(t, p);
    EmailAtFirst(t, p, p + 19);
    assert t[p..p + 19] == EmailVal;
    StripNoop(EmailVal);
  }

  /** The e-mail address of the record is `johndoe@example.com`. */
  lemma RecordEmail()
    ensures Email(Record) == Some(EmailVal)
  {
    var p := |Prefix(Segments, 10)| + 7;
    EmailPlace();
    EmailFirst();
    EmailIs(Record, p);
  }

  // A value that ends in `Medical`.

  /**
   * A greedy rule keeps a trailing `Medical` when a label follows it: the
   * longest value of the right shape is tried first, and `Tooth fracture
   * Medical` already has the shape.
   */
  lemma DiagnosisKeepsMedical(t: string, x: string)
    requires x == "Tooth fracture Medical"
    requires t == "Diagnosis: " + x + " Procedure: X-ray"
    ensures Extract(t, DiagnosisRule) == Some(x)
  {
    MedicalExampleAt(t, x);
    MedicalExampleFits(x);
    DiagnosisPieces();
    GreedyWindow(t, 0, 11, 33, 43, "Diagnosis: ", x, " Procedure:", DiagnosisRule);
  }

  /** Where the label, the value and the next label sit in the example. */
  lemma MedicalExampleAt(t: string, x: string)
    requires |x| == 22
    requires t == "Diagnosis: " + x + " Procedure: X-ray"
    ensures At(t, 0, "Diagnosis: ") && At(t, 11, x) && At(t, 33, " Procedure:")
  {
    var w := "Diagnosis: " + x + " Procedure:";
    assert t == [] + w + " X-ray";
    AtMiddle(t, [], w, " X-ray");
    AtSplit(t, 0, "Diagnosis: " + x, " Procedure:");
    AtSplit(t, 0, "Diagnosis: ", x);
  }

  /** `Tooth fracture Medical` is one phrase, so it has the multi-part shape. */
  lemma MedicalExampleFits(x: string)
    requires x == "Tooth fracture Medical"
    ensures Fits(x, Parts) && Trimmed(x)
  {
    OnePart(x, 3);
  }
}
