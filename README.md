# Dental record parser: `parse` and `Patient`

This project models the core of a dental-clinic record extractor. Its
`parse` function takes the text read from a scanned patient form and
fills in a `Patient` record from it. `Patient.to_dict` turns that record
into the row written to the CSV file.

`parse` (project.py:107-163) works in four steps:

1. It creates a blank `Patient`.
2. It replaces every run of whitespace in the text by a single space.
3. It applies twelve independent regular-expression rules to the
   normalised text:
   - nine labelled rules (name, age, address, history, complaint,
     insurance, diagnosis, procedure, medications);
   - the e-mail and phone rules, which need no label;
   - the visit-date rule, whose match is read by dateutil and printed as
     `YYYY-MM-DD`.
4. It returns the patient.

Each rule sets its attribute only when its pattern matches. A visit date
that dateutil cannot read makes `parse` raise.

The modules, in dependency order:

- `Wrappers`: `Option` and `Result`.
- `Chars`:
  - the ASCII character classes;
  - the maximal-run helper `RunEnd`;
  - Python's `lstrip`, `rstrip` and `strip`.
- `Normalizer`: `re.sub(r'\s+', ' ', text)`, and what it keeps.
- `Boundary`: the parts the labelled rules share:
  - the label;
  - the noise word `(?:\s+Medical)?`;
  - the two lookaheads that end a value.
- `Shapes`: the name pattern and the multi-part pattern, as recognisers of
  whole strings.
- `Fields`: the nine labelled rules as one table of `Rule` values, with one
  matcher. That matcher covers:
  - the leftmost attempt (`re.search`);
  - greedy captures (the longest end that fits);
  - lazy captures (the first end where the lookahead holds);
  - the final `strip`.
- `FieldFacts`: what the labelled rules promise for every input.
- `Contact`: the e-mail and phone rules.
- `Dates`: the visit-date rule:
  - the pattern;
  - dateutil's reading of the two numeric shapes;
  - the validity of the date;
  - `strftime("%Y-%m-%d")`.
- `Entities`: the `Patient` class and `to_dict`.
- `Attributes`: the attribute assignments `parse` makes on its patient.
- `Project`: `parse` itself.
- `Samples`: worked examples of the visit-date reading on concrete dates.
- `Record`: the sample record of test_project.py:15-18 after
  normalisation, and every field `parse` reads from it, each derived from
  the general lemmas.

Each regular expression is reduced by hand to the positions the engine
tries, in the order it tries them:

- An attempt at each position from the left: the first that succeeds is
  the match.
- A greedy group: the last end position that fits.
- A lazy group: the first end position where the rest of the pattern
  holds.

## Model

| member | source | states |
|---|---|---|
| Project.Parse | project.py:107-163 | `parse` fails exactly when the leftmost numeric date of the normalised text is not a real date. Otherwise it returns a new patient in which every one of the twelve attributes is what its own rule reads from the normalised text, independently of the other rules. An attribute whose rule does not match stays `None`. |
| Attributes.Assign | project.py:126-161 | Setting the twelve attributes gives each one the value computed for it. |
| Attributes.AssignFirstSix | project.py:126-142 | Sets name, age, address, history, complaint and insurance to the values given, and changes no other attribute. |
| Attributes.AssignLastSix | project.py:144-161 | Sets diagnosis, procedure, medications, e-mail, phone and visit date to the values given, and changes no other attribute. |
| Entities.Patient.constructor | entities.py:5-17 | A new patient has all twelve attributes `None`. |
| Entities.Patient.ToDict | entities.py:19-42 | `to_dict` has eleven entries. The k-th key is the k-th of the fixed key order, and each value is the attribute that key names. |
| Entities.KeyOrder | entities.py:30-42 | The keys are written in the order name, age, complaint, procedure, phone, email, address, visit_date, insurance, medications, history. |
| Entities.KeysOnce | entities.py:30-42 | No key is written twice, and every key appears. |
| Entities.KeyNamesDistinct | entities.py:30-42 | Distinct keys have distinct names, so no entry overwrites another. |
| Entities.NoDiagnosisKey | entities.py:30-42 | `diagnosis` is never a key of the dictionary, although the patient holds it. |
| Entities.BlankDict | entities.py:5-42 | The dictionary of a patient nobody filled in maps every key to `None`. |
| Normalizer.Normalize | project.py:124 | Normalised text has `' '` as its only whitespace and no two adjacent spaces. It is no longer than the input and is empty only for empty input. It starts (ends) with a space exactly when the input starts (ends) with whitespace. |
| Normalizer.NormalizeSplit | project.py:124 | A text cut right after a non-whitespace character normalises as its two parts normalised separately, since no whitespace run spans the cut. |
| Normalizer.NormalizeRun | project.py:124 | A non-empty whitespace run followed by a non-whitespace character or the end becomes exactly one space. |
| Normalizer.NormalizeInnerRun | project.py:124 | A whitespace run between two non-whitespace characters becomes exactly one space: `Normalize(a + w + b) == Normalize(a) + " " + Normalize(b)`. |
| Normalizer.NormalizeKeepsInk | project.py:124 | Normalising keeps every non-whitespace character, in order, and adds none. |
| Normalizer.NormalizeFixesNormal | project.py:124 | Text that is already normal is left unchanged. |
| Normalizer.NormalizeIdempotent | project.py:124 | Normalising twice is the same as normalising once. |
| Normalizer.NormalSlice | project.py:124 | Any slice of normal text is normal. |
| Normalizer.StripKeepsNormal | project.py:127 | Stripping normal text leaves it normal. |
| Normalizer.InkAppend | project.py:124 | The non-whitespace characters of a concatenation are those of its parts, in order. |
| Normalizer.InkOfSpaces | project.py:124 | A run of whitespace has no non-whitespace characters. |
| Chars.RunEnd | project.py:126-161 | The end of the maximal run of a character class: every character before it is in the class, and the one at it is not. |
| Chars.RunEndIs | project.py:126-161 | A run end is determined by the characters it covers and the one that stops it. |
| Chars.RunEndPast | project.py:126-161 | A run reaches at least as far as any stretch of class characters from its start. |
| Chars.TrimStart | project.py:127 | `lstrip` removes exactly the leading whitespace and keeps the suffix after it. |
| Chars.TrimEnd | project.py:127 | `rstrip` removes exactly the trailing whitespace and keeps the prefix before it. |
| Chars.Strip | project.py:127 | `strip` leaves no whitespace at either end. Its result is empty exactly when the input is all whitespace, and is never longer than the input. |
| Chars.StripFrame | project.py:127 | Stripping removes any all-whitespace frame around a string that has no whitespace at its ends. |
| Chars.TrimEndFrame | project.py:127 | `rstrip` removes any all-whitespace tail after a string that ends in a non-space. |
| Chars.StripIsSlice | project.py:127 | A stripped value is a slice of its input, starting after the leading whitespace. |
| Chars.StripNoop | project.py:127 | A string with no whitespace at either end is its own strip. |
| Boundary.Capital | project.py:126 | The capital form of a label's first letter is an upper-case letter. |
| Boundary.LabelEnd | project.py:126-151 | A label is found at a position exactly when the text there is the label word, or the word with its first letter capitalised, followed by one of its separators. The value starts right after the separator. |
| Boundary.NoiseEnd | project.py:126-151 | The noise word is found only as whitespace followed by `Medical`. |
| Boundary.MedicalIsNoise | project.py:126-151 | Whitespace and `Medical` followed by a position where the lookahead holds are skipped, so a value may end before them. |
| Boundary.LabelAhead | project.py:126-151 | A space followed by a capitalised `Word:` makes both lookaheads hold, so a value may end there. |
| Boundary.NoEndInside | project.py:132-142 | Inside a stretch without separators, newlines or `Me`, no value can end. |
| Boundary.NoNewlineAlternative | project.py:135-142 | On normalised text the newline alternative of the free-text lookahead never fires. The lookahead then holds exactly at the end of the text or before a capitalised label word. |
| Boundary.EndsValueBeforeWordStart | project.py:126-151 | Where a value may end, the text continues with whitespace, a capital letter or nothing, so a value never ends right before a lower-case letter, a digit or other punctuation. A capital letter inside a word can still follow an end (`Name: JohnDoe: x` ends the name after `John`). |
| Shapes.OneWord | project.py:126 | A single run of letters is one word. |
| Shapes.WordsJoin | project.py:126 | Joining two phrases with a space adds their word counts. |
| Shapes.SeparatorEnd | project.py:144-150 | A part separator (`,`, `-` or `(and)`) ends after the position where it starts. |
| Shapes.PartsChars | project.py:144-150 | A multi-part value starts and ends with a letter. It is made only of letters, whitespace, commas, hyphens and the parentheses of `(and)`. |
| Shapes.PartsHaveNoColon | project.py:144-150 | A multi-part value never contains a colon, so it cannot swallow the next label. |
| Shapes.NameHasNoColon | project.py:126 | A name never contains a colon. |
| Fields.RulesWellFormed | project.py:126-151 | Every one of the nine labelled rules is well formed: its label word is non-empty and starts with a lower-case letter, its separator set is non-empty, and a lazy group asks for at most one character. |
| Fields.GreedyCapture | project.py:126-150 | A greedy group ends at the last position up to the bound where the value has its shape and the lookahead holds. No later position works, and `None` means no position works. |
| Fields.LastIn | project.py:126-150 | The largest element of a set within a range, or `None` when the range holds none. |
| Fields.FirstIn | project.py:126-151 | The smallest element of a set within a range, or `None` when the range holds none. |
| Fields.LastInIs | project.py:126-150 | An element with nothing above it in range is the largest one. |
| Fields.GreedyCaptureIs | project.py:126-150 | An end that works, with no working end after it, is the greedy end. |
| Fields.LazyCapture | project.py:132-142 | A lazy group lies after the label. It is made of its class's characters and ends where the lookahead holds, with no earlier end (after its minimum length) where a value may end. |
| Fields.LazyFrom | project.py:132-142 | From one start, a lazy value ends at the first position inside the class run where a value may end. |
| Fields.FirstLazyEnd | project.py:132-142 | The first position in a range where a lazy value may end, or `None` when there is none. |
| Fields.FirstLazyEndIs | project.py:132-142 | A working end with no working end before it is the first one. |
| Fields.LazyCaptureIs | project.py:132-142 | A lazy value whose start needs no backtracking of `\s*` ends at the first position where it may end. |
| Fields.RuleAt | project.py:126-151 | An attempt at a position succeeds only after finding its label there. Its group lies between the label and the end of the text. |
| Fields.CaptureAt | project.py:126-151 | The group lies after the label and within the text. |
| Fields.MatchFrom | project.py:126-151 | `re.search` finds the leftmost position where an attempt succeeds. Every earlier attempt fails, and `None` means every attempt fails. |
| Fields.MatchSpan | project.py:126-151 | The group of the match lies within the text. |
| Fields.DecimalValue | project.py:130 | `int` of `n` digits is below 10 to the power `n`. |
| FieldFacts.ValueNeedsLabel | project.py:126-151 | No labelled rule invents a value: a field is set only when its label occurs in the text. |
| FieldFacts.FreeTextAttempt | project.py:135-142 | A free-text attempt never fails once its label is there. Its value starts after the whitespace following the label. |
| FieldFacts.FreeTextSetIffLabel | project.py:135-142 | History, complaint and insurance are set exactly when their label occurs in the text. |
| FieldFacts.LazyValueIsShortest | project.py:132-142 | The address and free-text values are the shortest possible. Each stops at the first position where the lookahead holds, there or after a skipped `Medical`, and holds only its class's characters. |
| FieldFacts.LazyValueDropsMedical | project.py:132-142 | A lazy value never ends with whitespace and `Medical` when the lookahead holds after that word: the noise word is skipped instead. |
| FieldFacts.FitsFrame | project.py:126-150 | A value of a greedy shape starts and ends with a letter and holds no colon. |
| FieldFacts.FitsBounds | project.py:126-150 | A greedy value found in the text has no whitespace at either end. |
| FieldFacts.NoFitAcross | project.py:126-150 | No greedy value reaches across a colon or ends in a space. |
| FieldFacts.NoLongerGreedyEnd | project.py:126-150 | Past a space that starts a `Word:` label, no position ends a greedy value. |
| FieldFacts.GreedyStop | project.py:126-150 | A greedy value stops right before a following `Word:` label. |
| FieldFacts.GreedyToEnd | project.py:126-150 | A greedy value that can run to the end of the text is taken whole. |
| FieldFacts.MatchAt | project.py:126-151 | An attempt that succeeds at a position with no successful attempt before it is the match. |
| FieldFacts.GreedyAttempt | project.py:126-150 | A text that starts with a greedy rule's label yields the greedy group after it. |
| FieldFacts.LazyAttempt | project.py:132-142 | A text that starts with a lazy rule's label yields the lazy group after it. |
| FieldFacts.GreedyValueBeforeLabel | project.py:126-150 | When the rule's label is found at a position where no earlier attempt succeeds, and a value of the rule's shape follows it right up to a space and a `Word:` label, the field is exactly that value. |
| FieldFacts.LazyValueBeforeLabel | project.py:132-142 | When the rule's label is found at a position where no earlier attempt succeeds, the field is the stretch of class characters after it up to the first position where a value may end, provided it has no separator, newline or `Me` inside. |
| FieldFacts.ValueAt | project.py:126-151 | The leftmost match whose group has no whitespace at its ends gives the group unchanged. |
| FieldFacts.LabelLetters | project.py:126-151 | Where a label is found, the text holds the label's letters, its first in either case, and then a separator. |
| FieldFacts.LabelHasNoSpace | project.py:126-151 | A found label and its separator hold no whitespace. |
| FieldFacts.LabelInPrefix | project.py:126-151 | A label found inside the first part of a text, which ends in a space, is found in that part alone. |
| FieldFacts.LabelInSuffix | project.py:126-151 | A label found in the second part of a text is found in that part alone, at the shifted position. |
| FieldFacts.NoLabelInJoin | project.py:126-151 | Two texts without a given label, the first ending in a space, still hold no label when joined. |
| FieldFacts.NoAttemptInPrefix | project.py:126-151 | No attempt succeeds inside a leading part, ending in a space, that holds no label. |
| FieldFacts.LabelEndIs | project.py:126-151 | The label word, its first letter in either case, followed by a separator, is a label ending after the separator. |
| FieldFacts.GreedyValueShape | project.py:126-150 | A greedy value needs no stripping and has its rule's shape. |
| FieldFacts.PhraseHasAWord | project.py:126 | A phrase has at least one word. |
| FieldFacts.NameShape | project.py:126-127 | A name is one to four words of letters separated by whitespace. |
| FieldFacts.PartsShape | project.py:144-151 | Diagnosis, procedure and medications are at most four phrases joined by a comma, a hyphen or `(and)`. They start and end with a letter and use only the allowed characters. |
| FieldFacts.ValueOfNormalText | project.py:124-151 | Every labelled value read from normalised text is normal, with no space at either end. |
| FieldFacts.AgeAttempt | project.py:129 | The age attempt at a position succeeds exactly when its label is there and a digit follows after whitespace. |
| FieldFacts.AgeSetIff | project.py:129-130 | The age is set exactly when some `Age:` label is followed, after whitespace, by a digit. |
| FieldFacts.AgeValue | project.py:129-130 | The age is read from the first one to three digits after the label: fewer than three only before a non-digit or the end. It is between 0 and 999. |
| Contact.DomainEnd | project.py:153 | A domain read after an `@` ends at least four characters after the `@`, within the text. |
| Contact.DomainShape | project.py:153 | What follows the `@` is a domain: a word run, a dot, and one or two more dot-separated word runs. |
| Contact.EmailTry | project.py:153 | A reading of an address with its `@` at a given position ends after a domain. |
| Contact.EmailAt | project.py:153 | The e-mail attempt at a position ends after it, within the text. |
| Contact.EmailAtComplete | project.py:153 | Whenever an address can be read from a position with some `@`, the attempt there succeeds. |
| Contact.EmailAtSound | project.py:153 | What the attempt finds is the reading for one `@` position. |
| Contact.EmailFrom | project.py:153 | The e-mail search finds the leftmost position where an address can be read. |
| Contact.EmailShape | project.py:153-154 | The e-mail match starts at the leftmost position where an address can be read, and that reading has an `@` followed by a domain. |
| Contact.EmailValue | project.py:153-154 | The e-mail value is an address (a local part that neither starts nor ends with a dot, an `@`, a domain) and ends with a word character. |
| Contact.DomainLast | project.py:153 | A domain ends with a word character. |
| Contact.SpanAddress | project.py:153-154 | Stripping a match made of a local part, an `@` and a domain gives an address ending with a word character. |
| Contact.SpacedAddress | project.py:153-154 | A match whose local part starts with whitespace strips to the text from the `@` on, which is an address. |
| Contact.PlainAddress | project.py:153-154 | A match with no whitespace at its ends, made of a local part, an `@` and a domain, is an address. |
| Contact.StripSlice | project.py:154 | A stretch with no whitespace at its ends is its own strip. |
| Contact.AddressAt | project.py:153 | Local-part characters, an `@` and a domain make an address. |
| Contact.MatchChars | project.py:156 | A phone reading holds only `+`, digits, whitespace, `-` and `.`. |
| Contact.ReadingInPrefix | project.py:156 | A phone reading in a text followed by a character no reading uses lies in the first part alone. |
| Contact.ReadingInSuffix | project.py:156 | A phone reading in the second part of a text is a reading of that part alone. |
| Contact.NoPhoneInJoin | project.py:156 | Two texts without a phone reading, the second starting with a character no reading uses, have none when joined. |
| Contact.NoPhoneInPrefix | project.py:156 | No phone reading starts in a leading part without one when a character no reading uses follows it. |
| Contact.NoPhoneByStops | project.py:156 | A text in which every `+` or digit is followed, at a fixed distance under ten, by a character no reading uses, or by the end, holds no phone reading. |
| Contact.MatchPieces | project.py:156 | The backtracking matcher ends within the text. |
| Contact.MatchPiecesSound | project.py:156 | What the matcher finds reads as the pattern. |
| Contact.MatchPiecesComplete | project.py:156 | Whenever some stretch reads as the pattern, the matcher finds a match at its start. |
| Contact.ReadsLength | project.py:156 | A reading has between the fewest and the most characters its pattern allows. |
| Contact.ReadsChars | project.py:156 | A reading holds only characters the atoms accept. |
| Contact.SearchFrom | project.py:156 | The search finds the leftmost position where the pattern matches. |
| Contact.ReadsDigits | project.py:156 | A reading of optional digits is all digits. |
| Contact.ReadsEndsWithDigit | project.py:156 | A reading of a pattern that ends in digits ends with a digit. |
| Contact.ThreeOrFourDigitsFacts | project.py:156 | `\d{3,4}` adds three to four characters and keeps a digit tail. |
| Contact.PhonePatternFacts | project.py:156 | Phone readings are 10 to 19 characters long and end with a digit. |
| Contact.ReadsStart | project.py:156 | A reading of `\+?\d…` starts with `+` or a digit. |
| Contact.SearchShape | project.py:156 | Every attempt before the leftmost match fails, and the match reads as the pattern. |
| Contact.SearchValueText | project.py:156-157 | A leftmost match with no whitespace at its ends is the value unchanged. |
| Contact.SearchTextEnds | project.py:156-157 | A match of `\+?\d…` ending in digits starts with `+` or a digit and ends with a digit. |
| Contact.SearchValueIsText | project.py:156-157 | For such a pattern the value is the text of the leftmost match, which reads as the pattern. |
| Contact.PhoneValue | project.py:156-157 | The phone value is the text of the leftmost match, needs no stripping, and reads as the phone pattern. |
| Contact.PhoneShape | project.py:156-157 | A phone value has 10 to 19 characters from `+`, digits and separators. It starts with `+` or a digit and ends with a digit. |
| Dates.RunField | project.py:159 | A stretch inside a digit run is a digit field. |
| Dates.FieldDigits | project.py:159 | A digit field of a slice is a stretch of digits of the whole text. |
| Dates.DateAt | project.py:159 | The date attempt at a position ends after it, within the text. |
| Dates.DateInText | project.py:159 | Fields and separators found in the text make their slice a numeric date. |
| Dates.SliceOfSlice | project.py:159 | A slice of a slice is a slice of the whole. |
| Dates.DateAtSound | project.py:159 | What the attempt finds is a numeric date in one of the pattern's two shapes. |
| Dates.DateAtComplete | project.py:159 | Wherever a numeric date starts, the attempt there succeeds. |
| Dates.DateAtRuns | project.py:159 | Digit runs split by two separators, with the lengths of one of the two shapes, are found by the attempt. |
| Dates.DateFrom | project.py:159 | The date search finds the leftmost position where a numeric date starts. |
| Dates.DateText | project.py:159-160 | The matched date text is a numeric date. |
| Dates.DateChars | project.py:159 | A numeric date is made of digits and the separators `-` and `/` only. |
| Dates.DateAtChars | project.py:159 | What the date attempt covers is digits and separators. |
| Dates.DateInPrefix | project.py:159 | A date found inside the first part of a text, which ends in a space, is found in that part alone. |
| Dates.DateInSuffix | project.py:159 | A date found in the second part of a text is found in that part alone. |
| Dates.NoDateInJoin | project.py:159 | Two texts without a date, the first ending in a space, hold none when joined. |
| Dates.NoDateInPrefix | project.py:159 | No date starts in a leading part without one that ends in a space. |
| Dates.DateAtFields | project.py:159 | A date found at a position is a digit run, a separator, two or three characters of digits ending before a second separator, and a digit after the first separator. |
| Dates.NoDateByFields | project.py:159 | A text in which every separator after a digit is followed by three digits holds no date: no second field is one or two digits long. |
| Dates.SplitNumericDate | project.py:160 | A numeric date splits into its three fields: one or two digits, one or two digits, four digits, or the year-first order. |
| Dates.DaysInMonth | project.py:160 | Every month has 28 to 31 days. |
| Dates.Pad | project.py:161 | A zero-padded number has exactly the requested width and is all digits. |
| Dates.PadValue | project.py:161 | Reading a zero-padded number gives the number back. |
| Dates.Format | project.py:161 | `%Y-%m-%d` output is ten characters: digits, with dashes at positions 4 and 7. |
| Dates.FormatSplits | project.py:160-161 | A formatted date is a year-first numeric date whose fields are the padded year, month and day. |
| Dates.FormatRoundTrip | project.py:160-161 | Parsing a formatted real date gives the same text back. |
| Dates.ParseDateCanonical | project.py:159-161 | A parsed visit date is in canonical form: a year-first numeric date that parses to itself. |
| Samples.ParseDayMonthDate | project.py:159-161 | A `DD-DD-DDDD` date is parsed from its three numbers, the four-digit one being the year. It raises exactly when they resolve to no real date. |
| Samples.TwoDigits | project.py:160 | Two digits are read as a two-digit number. |
| Samples.FourDigits | project.py:160 | Four digits are read as a four-digit number. |
| Samples.DayMonthDigits | project.py:160 | A `DD-DD-DDDD` text has the three numbers its digits spell. |
| Samples.DayFirstDate | project.py:159-161 | `29-01-2025` becomes `2025-01-29`: 29 cannot be a month. |
| Samples.MonthFirstDate | project.py:159-161 | `01-02-2025` becomes `2025-01-02`: the first number is the month by default. |
| Samples.NoSuchDate | project.py:159-161 | `31-02-2025` makes `parse` raise. |
| Samples.DayFirstResolved | project.py:160-161 | 29, 1, 2025 resolve to a real date printed `2025-01-29`. |
| Samples.MonthFirstResolved | project.py:160-161 | 1, 2, 2025 resolve to a real date printed `2025-01-02`. |
| Record.GreedyWindow | project.py:126-150 | A greedy rule's label, found where no earlier attempt succeeds, followed by a trimmed value of the rule's shape and a space and `Word:` label, gives that value. |
| Record.LazyWindow | project.py:132-142 | A lazy rule's label, found where no earlier attempt succeeds, followed by a trimmed value of class characters without separators or `Me`, then optionally ` Medical`, then a space and `Word:` label, gives that value. |
| Record.RecordName | test_project.py:15-18 | The name of the record is `John Harvard` (test_project.py:38). |
| Record.RecordAge | test_project.py:15-18 | The age group of the record is `45` and the age is the number 45 (test_project.py:47). |
| Record.RecordAddress | test_project.py:15-18 | The address is `123 Main Street, Springfield`, without the `Medical` that follows it (test_project.py:55-56). |
| Record.RecordHistory | test_project.py:15-18 | The history is `Hypertension, Type 2 Diabetes`, without the `Medical` that follows it (test_project.py:65, 71). |
| Record.RecordComplaint | test_project.py:15-18 | The complaint is `Pain in upper 7 tooth` (test_project.py:75). |
| Record.RecordInsurance | test_project.py:15-18 | The record has no insurance label, so the insurance stays unset (test_project.py:84). |
| Record.RecordDiagnosis | test_project.py:15-18 | The diagnosis is `Tooth fracture` (test_project.py:91). |
| Record.RecordProcedure | test_project.py:15-18 | The procedure is `X-ray scan, splinting` (test_project.py:101); the optional `Medical` before the label finds no earlier `procedure` to attach to. |
| Record.RecordMedications | test_project.py:15-18 | The medications are `Paracetamol, Metoprolol` (test_project.py:111). |
| Record.RecordEmail | test_project.py:15-18 | The e-mail is `johndoe@example.com` (test_project.py:121). |
| Record.RecordPhone | test_project.py:15-18 | The phone is `+1-555-789-1234`, with its `+` (test_project.py:130, 137). |
| Record.RecordVisitDate | test_project.py:15-18 | The visit-date match is `29-01-2025` and the visit date is `2025-01-29` (test_project.py:141, 145). |
| Record.DiagnosisKeepsMedical | project.py:144-145 | `Diagnosis: Tooth fracture Medical Procedure: X-ray` gives the diagnosis `Tooth fracture Medical`. |

Two behaviours of the patterns that are easy to miss:

- **Lazy rules drop a trailing `Medical`; greedy rules keep it.** The
  lazy rules (address, history, complaint, insurance) skip an optional
  `\s+Medical` before the next label, so the word is never the end of
  their value: see `FieldFacts.LazyValueDropsMedical`. The module's own
  tests expect exactly this for address and history
  (test_project.py:56, 71). The greedy rules (name, diagnosis, procedure,
  medications) try the longest value first, and `Medical` is itself a word
  of their shape, so when a label follows the word stays in the value
  (`Record.DiagnosisKeepsMedical`). No test covers a greedy rule followed
  by `Medical`.
- **The age lookahead always holds.** Its second alternative is `\s*`, not
  `\s*$`, so any one to three digits after `Age:` are taken.

## Left out

- Text extraction from images (`extract`), the CSV writer
  (`save_to_csv`), the command line (`main`) and the banner are not part
  of this model. They are I/O around `parse`.
- `\s`, `\w` and `\d` are as under `re.ASCII`: `\s` is space, tab, newline, carriage return, vertical tab and form feed. On `str` input Python's `\s` and `str.strip` also take the separators 0x1C to 0x1F (file, group, record and unit separator), which `re.sub(r'\s+', ' ', …)` turns into a space and the model keeps. Python's `re` also accepts Unicode
  whitespace, letters and digits in `str` patterns.
- No general regular-expression engine is modelled. Each pattern is
  reduced by hand to the positions and backtracking order that decide its
  first match.
- Only the two numeric shapes the visit-date pattern admits are modelled
  from dateutil, with its default reading (`dayfirst=False`,
  `yearfirst=False`). Mixed separators such as `01-02/2025` are read like
  uniform ones; how dateutil's lexer splits them is not modelled.
- Dates.Format: pads every year to four digits. Python's `strftime("%Y")`
  on some platforms prints years below 1000 without padding.
- Project.Parse: computes every rule's value before touching the patient.
  Python assigns attribute by attribute and raises on a bad date after the
  other attributes are set. That partly filled patient is never returned,
  so nothing observable differs.
- Record: is written as the normalised form of the sample text of
  test_project.py:15-18. That text has three line breaks where the model
  has spaces; that `Normalize` maps it to this form is not proved.
- The rest of the test module (`extract`, `save_to_csv`) is not part of
  this model.
