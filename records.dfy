/** The employee record and the meaning of the store operations, as functions on
    the sequence employees[0..employeeCount): what add, view, edit and delete do
    to that sequence, and the lemmas about what they keep. */
module Records {
  import opened Strings
  import opened Validators

  /** MAX_EMPLOYEES */
  const MaxEmployees: nat := 100

  datatype Employee = Employee(id: string, name: string, phone: string, position: string, email: string)

  /** What listEmployees prints for one record */
  datatype Summary = Summary(id: string, name: string, phone: string)

  /** The outcomes of addEmployee, in the order it checks them */
  datatype AddResult = Added | CapacityExceeded | InvalidId | DuplicateId | InvalidPhone | InvalidEmail

  /** The index the linear strcmp scan stops at: the first record with this id */
  function IdIndex(recs: seq<Employee>, id: string): (r: Option<nat>)
    ensures r.Some? ==> r.value < |recs| && recs[r.value].id == id
    ensures r.Some? ==> forall k :: 0 <= k < r.value ==> recs[k].id != id
    ensures r.None? <==> forall k :: 0 <= k < |recs| ==> recs[k].id != id
  {
    if recs == [] then None
    else if recs[0].id == id then Some(0)
    else
      match IdIndex(recs[1..], id)
      case None => None
      case Some(k) => Some(k + 1)
  }

  /** No two records share an id */
  predicate UniqueIds(recs: seq<Employee>) {
    forall i, j :: 0 <= i < j < |recs| ==> recs[i].id != recs[j].id
  }

  /** The fields addEmployee validates are well formed */
  predicate WellFormed(e: Employee) {
    IsValidID(e.id) && IsValidPhone(e.phone) && IsValidEmail(e.email)
  }

  // ---------------------------------------------------------------- add

  /** The checks of addEmployee, first failure wins: capacity, id format,
      id uniqueness, phone format, email format */
  function AddCheck(recs: seq<Employee>, id: string, phone: string, email: string): AddResult {
    if |recs| >= MaxEmployees then CapacityExceeded
    else if !IsValidID(id) then InvalidId
    else if IdIndex(recs, id).Some? then DuplicateId
    else if !IsValidPhone(phone) then InvalidPhone
    else if !IsValidEmail(email) then InvalidEmail
    else Added
  }

  /** The record addEmployee stores: name and position are fgets buffers cut at
      their newline; id, phone and email are scanf tokens taken as they are */
  function NewEmployee(id: string, nameLine: string, phone: string, positionLine: string, email: string): (e: Employee)
    ensures e.id == id && e.phone == phone && e.email == email
    ensures e.name == TruncateAtNewline(nameLine) && e.position == TruncateAtNewline(positionLine)
    ensures '\n' !in e.name && '\n' !in e.position
  {
    Employee(id, TruncateAtNewline(nameLine), phone, TruncateAtNewline(positionLine), email)
  }

  /** The sequence of records after an add */
  function AddRecord(recs: seq<Employee>, e: Employee): seq<Employee> {
    if AddCheck(recs, e.id, e.phone, e.email) == Added then recs + [e] else recs
  }

  /** An add succeeds exactly when there is room and the id, phone and email are
      valid and the id is new */
  lemma AddSucceedsIff(recs: seq<Employee>, id: string, phone: string, email: string)
    ensures AddCheck(recs, id, phone, email) == Added <==>
      && |recs| < MaxEmployees
      && IsValidID(id)
      && (forall k :: 0 <= k < |recs| ==> recs[k].id != id)
      && IsValidPhone(phone)
      && IsValidEmail(email)
  {
  }

  /** A taken id is refused whatever the other fields hold, once capacity and the
      id's own format have passed */
  lemma DuplicateIdRefused(recs: seq<Employee>, k: nat, phone: string, email: string)
    requires k < |recs| < MaxEmployees && IsValidID(recs[k].id)
    ensures AddCheck(recs, recs[k].id, phone, email) == DuplicateId
  {
  }

  /** An add keeps ids unique, keeps every earlier record where it was, appends the
      new one at the end, and never grows past the capacity */
  lemma AddKeepsInvariants(recs: seq<Employee>, e: Employee)
    requires UniqueIds(recs)
    ensures UniqueIds(AddRecord(recs, e))
    ensures |AddRecord(recs, e)| <= MaxEmployees || AddRecord(recs, e) == recs
    ensures AddRecord(recs, e) == recs || (AddRecord(recs, e) == recs + [e] && WellFormed(e))
  {
  }

  /** After a successful add, a lookup of the new id finds the new record */
  lemma AddThenFind(recs: seq<Employee>, e: Employee)
    requires AddCheck(recs, e.id, e.phone, e.email) == Added
    ensures IdIndex(AddRecord(recs, e), e.id) == Some(|recs|)
  {
    var after := AddRecord(recs, e);
    assert after[|recs|] == e;
    assert forall k :: 0 <= k < |recs| ==> after[k] == recs[k];
  }

  // ---------------------------------------------------------------- view

  /** viewEmployee: the first record with this id, if any */
  function Lookup(recs: seq<Employee>, id: string): (r: Option<Employee>)
    ensures r.Some? ==> r.value in recs && r.value.id == id
    ensures r.Some? ==> exists i :: 0 <= i < |recs| && r.value == recs[i] && forall k :: 0 <= k < i ==> recs[k].id != id
    ensures r.None? <==> forall k :: 0 <= k < |recs| ==> recs[k].id != id
  {
    match IdIndex(recs, id)
    case None => None
    case Some(i) => Some(recs[i])
  }

  // ---------------------------------------------------------------- delete

  /** deleteEmployee: drop the first record with this id, later ones move one place
      forward; nothing happens when no record matches */
  function DeleteById(recs: seq<Employee>, id: string): seq<Employee> {
    match IdIndex(recs, id)
    case None => recs
    case Some(i) => recs[..i] + recs[i + 1..]
  }

  /** A delete of a present id removes exactly one record and keeps the order of
      the rest; a delete of an absent id changes nothing */
  lemma DeleteShape(recs: seq<Employee>, id: string)
    ensures IdIndex(recs, id).None? ==> DeleteById(recs, id) == recs
    ensures IdIndex(recs, id).Some? ==> |DeleteById(recs, id)| == |recs| - 1
    ensures IdIndex(recs, id).Some? ==>
      var i := IdIndex(recs, id).value;
      && (forall k :: 0 <= k < i ==> DeleteById(recs, id)[k] == recs[k])
      && (forall k :: i <= k < |recs| - 1 ==> DeleteById(recs, id)[k] == recs[k + 1])
  {
    match IdIndex(recs, id)
    case None =>
    case Some(i) =>
      var before, after := recs[..i], recs[i + 1..];
      assert DeleteById(recs, id) == before + after;
      assert forall k :: i <= k < |recs| - 1 ==> (before + after)[k] == after[k - i];
  }

  /** With unique ids, a view after a delete of that id finds nothing */
  lemma DeleteThenNotFound(recs: seq<Employee>, id: string)
    requires UniqueIds(recs)
    ensures Lookup(DeleteById(recs, id), id).None?
  {
    match IdIndex(recs, id)
    case None =>
    case Some(i) =>
      var after := DeleteById(recs, id);
      forall k | 0 <= k < |after| ensures after[k].id != id {
        if k < i {
          assert after[k] == recs[k];
        } else {
          assert after[k] == recs[k + 1];
        }
      }
  }

  /** Without unique ids (a hand-edited file can hold duplicates), the second
      record with the id survives the delete */
  lemma DeleteRemovesOnlyFirst(e: Employee, f: Employee)
    requires e.id == f.id
    ensures DeleteById([e, f], e.id) == [f]
    ensures Lookup(DeleteById([e, f], e.id), e.id) == Some(f)
  {
  }

  lemma DeleteKeepsUniqueIds(recs: seq<Employee>, id: string)
    requires UniqueIds(recs)
    ensures UniqueIds(DeleteById(recs, id))
  {
    match IdIndex(recs, id)
    case None =>
    case Some(i) =>
      var after := DeleteById(recs, id);
      forall a, b | 0 <= a < b < |after| ensures after[a].id != after[b].id {
        var a' := if a < i then a else a + 1;
        var b' := if b < i then b else b + 1;
        assert after[a] == recs[a'] && after[b] == recs[b'];
      }
  }

  // ---------------------------------------------------------------- edit

  /** One name or position update: a buffer that is exactly "\n" keeps the old
      value, anything else is cut at its newline and stored */
  function EditText(current: string, buffer: string): string {
    if buffer != "\n" then TruncateAtNewline(buffer) else current
  }

  /** One phone or email update: as EditText, but only when the validator accepts
      the buffer as read, newline included */
  function EditChecked(current: string, buffer: string, accepted: bool): string {
    if buffer != "\n" && accepted then TruncateAtNewline(buffer) else current
  }

  /** editEmployee on the matching record, field by field */
  function EditRecord(e: Employee, nameLine: string, phoneLine: string, positionLine: string, emailLine: string): Employee {
    Employee(e.id,
             EditText(e.name, nameLine),
             EditChecked(e.phone, phoneLine, IsValidPhone(phoneLine)),
             EditText(e.position, positionLine),
             EditChecked(e.email, emailLine, IsValidEmail(emailLine)))
  }

  /** editEmployee on the whole sequence: only the first record with the id changes */
  function EditById(recs: seq<Employee>, id: string, nameLine: string, phoneLine: string, positionLine: string, emailLine: string): seq<Employee> {
    match IdIndex(recs, id)
    case None => recs
    case Some(i) => recs[i := EditRecord(recs[i], nameLine, phoneLine, positionLine, emailLine)]
  }

  /** An edit never changes the count or any id, and touches no record but the
      first match; so it keeps ids unique */
  lemma EditKeepsIds(recs: seq<Employee>, id: string, nameLine: string, phoneLine: string, positionLine: string, emailLine: string)
    ensures |EditById(recs, id, nameLine, phoneLine, positionLine, emailLine)| == |recs|
    ensures forall k :: 0 <= k < |recs| ==> EditById(recs, id, nameLine, phoneLine, positionLine, emailLine)[k].id == recs[k].id
    ensures forall k :: 0 <= k < |recs| && Some(k) != IdIndex(recs, id) ==>
      EditById(recs, id, nameLine, phoneLine, positionLine, emailLine)[k] == recs[k]
    ensures UniqueIds(recs) ==> UniqueIds(EditById(recs, id, nameLine, phoneLine, positionLine, emailLine))
  {
  }

  /** A blank answer ("\n") keeps that field as it was, whatever the other answers are;
      the id never changes */
  lemma EditBlankKeeps(e: Employee, nameLine: string, phoneLine: string, positionLine: string, emailLine: string)
    ensures EditRecord(e, nameLine, phoneLine, positionLine, emailLine).id == e.id
    ensures nameLine == "\n" ==> EditRecord(e, nameLine, phoneLine, positionLine, emailLine).name == e.name
    ensures phoneLine == "\n" ==> EditRecord(e, nameLine, phoneLine, positionLine, emailLine).phone == e.phone
    ensures positionLine == "\n" ==> EditRecord(e, nameLine, phoneLine, positionLine, emailLine).position == e.position
    ensures emailLine == "\n" ==> EditRecord(e, nameLine, phoneLine, positionLine, emailLine).email == e.email
    ensures EditRecord(e, "\n", "\n", "\n", "\n") == e
  {
  }

  /** A phone buffer that ends in its newline is never applied, valid digits or not */
  lemma EditPhoneWithNewlineIgnored(e: Employee, nameLine: string, phoneLine: string, positionLine: string, emailLine: string)
    requires |phoneLine| > 0 && phoneLine[|phoneLine| - 1] == '\n'
    ensures EditRecord(e, nameLine, phoneLine, positionLine, emailLine).phone == e.phone
  {
    PhoneWithNewlineRejected(phoneLine);
  }

  /** A rejected phone keeps the old one while the other fields are still applied */
  lemma EditInvalidPhoneKeepsRest(e: Employee, name: string, phoneLine: string)
    requires !IsValidPhone(phoneLine) && name != [] && '\n' !in name
    ensures EditRecord(e, name + "\n", phoneLine, "\n", "\n") == e.(name := name)
  {
    assert |name + "\n"| > 1;
    TruncateAtNewlineDropsTerminator(name);
  }

  /** The email check sees the newline as the character after the last dot, so
      an edit can store the invalid email "a@b." */
  lemma EditCanStoreInvalidEmail(e: Employee)
    ensures EditRecord(e, "\n", "\n", "\n", "a@b.\n").email == "a@b."
    ensures !IsValidEmail("a@b.")
  {
    EmailNewlineQuirk();
    TruncateAtNewlineDropsTerminator("a@b.");
  }
}
