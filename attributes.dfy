/**
 * The attribute assignments `parse` makes on its `Patient`. Python sets them
 * from outside the class, one statement per rule; here they are one step,
 * `Assign`.
 */
module Attributes {
  import opened Wrappers
  import opened Entities

  /** Sets every attribute of `p` to the value given for it. */
  method Assign(p: Patient, name: Option<string>, age: Option<int>, address: Option<string>,
                history: Option<string>, complaint: Option<string>, insurance: Option<string>,
                diagnosis: Option<string>, procedure: Option<string>, medications: Option<string>,
                email: Option<string>, phone: Option<string>, visitDate: Option<string>)
    modifies p
    ensures p.name == name && p.age == age && p.address == address && p.history == history
    ensures p.complaint == complaint && p.insurance == insurance && p.diagnosis == diagnosis
    ensures p.procedure == procedure && p.medications == medications && p.email == email
    ensures p.phone == phone && p.visitDate == visitDate
  {
    // Two halves in source order, only so that each frame proof stays small.
    AssignFirstSix(p, name, age, address, history, complaint, insurance);
    AssignLastSix(p, diagnosis, procedure, medications, email, phone, visitDate);
  }

  /** The assignments of project.py:126-142: name, age, address, history, complaint, insurance. */
  method AssignFirstSix(p: Patient, name: Option<string>, age: Option<int>, address: Option<string>,
                        history: Option<string>, complaint: Option<string>, insurance: Option<string>)
    modifies p`name, p`age, p`address, p`history, p`complaint, p`insurance
    ensures p.name == name && p.age == age && p.address == address
    ensures p.history == history && p.complaint == complaint && p.insurance == insurance
  {
    p.name := name;
    p.age := age;
    p.address := address;
    p.history := history;
    p.complaint := complaint;
    p.insurance := insurance;
  }

  /** The assignments of project.py:144-161: diagnosis, procedure, medications, email, phone, visit date. */
  method AssignLastSix(p: Patient, diagnosis: Option<string>, procedure: Option<string>,
                       medications: Option<string>, email: Option<string>, phone: Option<string>,
                       visitDate: Option<string>)
    modifies p`diagnosis, p`procedure, p`medications, p`email, p`phone, p`visitDate
    ensures p.diagnosis == diagnosis && p.procedure == procedure && p.medications == medications
    ensures p.email == email && p.phone == phone && p.visitDate == visitDate
  {
    p.diagnosis := diagnosis;
    p.procedure := procedure;
    p.medications := medications;
    p.email := email;
    p.phone := phone;
    p.visitDate := visitDate;
  }
}
