/**
 * `parse` of project.py: a fresh `Patient`, the text with every whitespace
 * run turned into one space, then the twelve field rules, each on the
 * normalised text and each setting its attribute only when its pattern
 * matches. A visit date that dateutil cannot read makes `parse` raise.
 */
module Project {
  import opened Wrappers
  import opened Normalizer
  import opened Fields
  import opened Contact
  import opened Dates
  import opened Entities
  import opened Attributes

  /** The visit-date attribute a successful parse leaves: the formatted date, or `None`. */
  function VisitDateValue(d: Option<Result<string, DateError>>): Option<string>
  {
    match d
    case Some(Ok(s)) => Some(s)
    case _ => None
  }

  /**
   * `parse(text)`. It fails exactly when the leftmost numeric date of the
   * normalised text is not a real date; otherwise it returns a new patient
   * whose every attribute is what its own rule reads from the normalised
   * text, whatever the other rules read.
   */
  method Parse(text: string) returns (r: Result<Patient, DateError>)
    ensures var t := Normalize(text);
      r.Err? <==> (VisitDate(t).Some? && VisitDate(t).value.Err?)
    ensures r.Ok? ==> fresh(r.value)
    ensures r.Ok? ==> r.value.name == Extract(Normalize(text), NameRule)
    ensures r.Ok? ==> r.value.age == Age(Normalize(text))
    ensures r.Ok? ==> r.value.address == Extract(Normalize(text), AddressRule)
    ensures r.Ok? ==> r.value.history == Extract(Normalize(text), HistoryRule)
    ensures r.Ok? ==> r.value.complaint == Extract(Normalize(text), ComplaintRule)
    ensures r.Ok? ==> r.value.insurance == Extract(Normalize(text), InsuranceRule)
    ensures r.Ok? ==> r.value.diagnosis == Extract(Normalize(text), DiagnosisRule)
    ensures r.Ok? ==> r.value.procedure == Extract(Normalize(text), ProcedureRule)
    ensures r.Ok? ==> r.value.medications == Extract(Normalize(text), MedicationsRule)
    ensures r.Ok? ==> r.value.email == Email(Normalize(text))
    ensures r.Ok? ==> r.value.phone == Phone(Normalize(text))
    ensures r.Ok? ==> r.value.visitDate == VisitDateValue(VisitDate(Normalize(text)))
  {
    var patient := new Patient();
    var t := Normalize(text);

    // Each `if ... := re.search(...)` of the source assigns only when its
    // pattern matches; an attribute left alone is still `None`, which is
    // exactly what its rule reads when the pattern does not match.
    RulesWellFormed();
    var name := Extract(t, NameRule);
    var age := Age(t);
    var address := Extract(t, AddressRule);
    var history := Extract(t, HistoryRule);
    var complaint := Extract(t, ComplaintRule);
    var insurance := Extract(t, InsuranceRule);
    var diagnosis := Extract(t, DiagnosisRule);
    var procedure := Extract(t, ProcedureRule);
    var medications := Extract(t, MedicationsRule);
    var email := Email(t);
    var phone := Phone(t);
    var date := VisitDate(t);
    match date
    case Some(Err(e)) =>
      // dateutil raises; the half-filled patient is never returned.
      r := Err(e);
    case _ =>
      Assign(patient, name, age, address, history, complaint, insurance, diagnosis,
             procedure, medications, email, phone, VisitDateValue(date));
      r := Ok(patient);
  }
}
