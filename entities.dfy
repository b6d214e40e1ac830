/**
 * The `Patient` record of entities.py: twelve attributes, all `None` when
 * created, filled in by `parse`, and `to_dict`, which lists eleven of them
 * (every attribute but `diagnosis`) under fixed keys in a fixed order.
 */
module Entities {
  import opened Wrappers

  /** A value `to_dict` can hold: a text attribute, or the age. */
  datatype Value = Text(text: string) | Number(number: int)

  /** The keys `to_dict` writes. */
  datatype Key =
    | NameKey | AgeKey | ComplaintKey | ProcedureKey | PhoneKey | EmailKey
    | AddressKey | VisitDateKey | InsuranceKey | MedicationsKey | HistoryKey

  /** The string each key is written as. */
  function KeyName(k: Key): string {
    match k
    case NameKey => "name"
    case AgeKey => "age"
    case ComplaintKey => "complaint"
    case ProcedureKey => "procedure"
    case PhoneKey => "phone"
    case EmailKey => "email"
    case AddressKey => "address"
    case VisitDateKey => "visit_date"
    case InsuranceKey => "insurance"
    case MedicationsKey => "medications"
    case HistoryKey => "history"
  }

  /** The keys in the order `to_dict` writes them. */
  const DictKeys: seq<Key> := [
    NameKey, AgeKey, ComplaintKey, ProcedureKey, PhoneKey, EmailKey,
    AddressKey, VisitDateKey, InsuranceKey, MedicationsKey, HistoryKey
  ]

  /** A Python dictionary as its items, in insertion order. */
  type Dict = seq<(Key, Option<Value>)>

  function AsText(s: Option<string>): Option<Value> {
    match s
    case None => None
    case Some(x) => Some(Text(x))
  }

  function AsNumber(n: Option<int>): Option<Value> {
    match n
    case None => None
    case Some(x) => Some(Number(x))
  }

  class Patient {
    var name: Option<string>
    var address: Option<string>
    var visitDate: Option<string>
    var age: Option<int>
    var history: Option<string>
    var complaint: Option<string>
    var diagnosis: Option<string>
    var procedure: Option<string>
    var medications: Option<string>
    var insurance: Option<string>
    var email: Option<string>
    var phone: Option<string>

    /** Every attribute starts out `None`. */
    constructor ()
      ensures name == None && address == None && visitDate == None && age == None
      ensures history == None && complaint == None && diagnosis == None && procedure == None
      ensures medications == None && insurance == None && email == None && phone == None
    {
      name := None;
      address := None;
      visitDate := None;
      age := None;
      history := None;
      complaint := None;
      diagnosis := None;
      procedure := None;
      medications := None;
      insurance := None;
      email := None;
      phone := None;
    }

    /** Every attribute is `None`. */
    predicate IsBlank()
      reads this
    {
      && name == None && address == None && visitDate == None && age == None
      && history == None && complaint == None && diagnosis == None && procedure == None
      && medications == None && insurance == None && email == None && phone == None
    }

    /** The attribute a key names. */
    function Attribute(k: Key): Option<Value>
      reads this
    {
      match k
      case NameKey => AsText(name)
      case AgeKey => AsNumber(age)
      case ComplaintKey => AsText(complaint)
      case ProcedureKey => AsText(procedure)
      case PhoneKey => AsText(phone)
      case EmailKey => AsText(email)
      case AddressKey => AsText(address)
      case VisitDateKey => AsText(visitDate)
      case InsuranceKey => AsText(insurance)
      case MedicationsKey => AsText(medications)
      case HistoryKey => AsText(history)
    }

    /**
     * `to_dict`: the keys of `DictKeys` in that order, each mapped to the
     * attribute it names.
     */
    function ToDict(): (d: Dict)
      reads this
      ensures |d| == |DictKeys|
      ensures forall k :: 0 <= k < |d| ==> d[k].0 == DictKeys[k] && d[k].1 == Attribute(d[k].0)
    {
      [
        (NameKey, AsText(name)),
        (AgeKey, AsNumber(age)),
        (ComplaintKey, AsText(complaint)),
        (ProcedureKey, AsText(procedure)),
        (PhoneKey, AsText(phone)),
        (EmailKey, AsText(email)),
        (AddressKey, AsText(address)),
        (VisitDateKey, AsText(visitDate)),
        (InsuranceKey, AsText(insurance)),
        (MedicationsKey, AsText(medications)),
        (HistoryKey, AsText(history))
      ]
    }
  }

  /** The names of the keys of `to_dict`, in order. */
  function KeyNames(ks: seq<Key>): (r: seq<string>)
    ensures |r| == |ks| && forall k :: 0 <= k < |ks| ==> r[k] == KeyName(ks[k])
  {
    seq(|ks|, i requires 0 <= i < |ks| => KeyName(ks[i]))
  }

  /**
   * `to_dict` writes its keys in the order name, age, complaint, procedure,
   * phone, email, address, visit_date, insurance, medications, history.
   */
  lemma KeyOrder()
    ensures KeyNames(DictKeys) == ["name", "age", "complaint", "procedure", "phone", "email",
                                   "address", "visit_date", "insurance", "medications", "history"]
  {
    var r := KeyNames(DictKeys);
    assert r[0] == KeyName(DictKeys[0]) == "name";
    assert r[1] == KeyName(DictKeys[1]) == "age";
    assert r[2] == KeyName(DictKeys[2]) == "complaint";
    assert r[3] == KeyName(DictKeys[3]) == "procedure";
    assert r[4] == KeyName(DictKeys[4]) == "phone";
    assert r[5] == KeyName(DictKeys[5]) == "email";
    assert r[6] == KeyName(DictKeys[6]) == "address";
    assert r[7] == KeyName(DictKeys[7]) == "visit_date";
    assert r[8] == KeyName(DictKeys[8]) == "insurance";
    assert r[9] == KeyName(DictKeys[9]) == "medications";
    assert r[10] == KeyName(DictKeys[10]) == "history";
  }

  /** Every key appears in `to_dict` exactly once. */
  lemma KeysOnce()
    ensures forall a, b :: 0 <= a < b < |DictKeys| ==> DictKeys[a] != DictKeys[b]
    ensures forall k: Key :: k in DictKeys
  {
    assert && DictKeys[0] == NameKey && DictKeys[1] == AgeKey && DictKeys[2] == ComplaintKey
           && DictKeys[3] == ProcedureKey && DictKeys[4] == PhoneKey && DictKeys[5] == EmailKey
           && DictKeys[6] == AddressKey && DictKeys[7] == VisitDateKey && DictKeys[8] == InsuranceKey
           && DictKeys[9] == MedicationsKey && DictKeys[10] == HistoryKey;
    forall k: Key ensures k in DictKeys {
      var i := match k
        case NameKey => 0 case AgeKey => 1 case ComplaintKey => 2 case ProcedureKey => 3
        case PhoneKey => 4 case EmailKey => 5 case AddressKey => 6 case VisitDateKey => 7
        case InsuranceKey => 8 case MedicationsKey => 9 case HistoryKey => 10;
      assert DictKeys[i] == k;
    }
  }

  /** Distinct keys are written under distinct names. */
  lemma KeyNamesDistinct(k: Key, l: Key)
    requires k != l
    ensures KeyName(k) != KeyName(l)
  {
    var a, b := KeyName(k), KeyName(l);
    assert |a| != |b| || a[0] != b[0];
  }

  /** `diagnosis` is never a key of `to_dict`. */
  lemma NoDiagnosisKey(k: Key)
    ensures KeyName(k) != "diagnosis"
  {
    var a := KeyName(k);
    assert |a| != 9 || a[0] != 'd';
  }

  /** The dictionary of a patient nobody has filled in maps every key to `None`. */
  lemma BlankDict(p: Patient)
    requires p.IsBlank()
    ensures forall k :: 0 <= k < |p.ToDict()| ==> p.ToDict()[k].1 == None
  {
  }
}
