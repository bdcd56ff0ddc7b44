/** The program's state: the global array employees[MAX_EMPLOYEES], the count
    employeeCount of its used prefix, and the file employees.txt. Each operation
    takes the strings the program would have read from the terminal and is proved
    against the functions of Records and Codec. */
module Store {
  import opened Strings
  import opened Validators
  import opened Records
  import opened Codec

  class EmployeeStore {
    /** employees[]: only the first count slots hold records */
    var employees: array<Employee>
    /** employeeCount */
    var count: nat
    /** The contents of employees.txt; None while the file does not exist */
    var file: Option<string>

    ghost predicate Valid()
      reads this
    {
      employees.Length == MaxEmployees && count <= MaxEmployees
    }

    /** The records of the store, in array order */
    function Contents(): seq<Employee>
      reads this, employees
      requires Valid()
    {
      employees[..count]
    }

    /** An empty store next to the given file contents */
    constructor(initial: Option<string>)
      ensures Valid() && fresh(employees)
      ensures Contents() == [] && file == initial
    {
      employees := new Employee[MaxEmployees](_ => Employee("", "", "", "", ""));
      count := 0;
      file := initial;
    }

    /** saveEmployees: rewrite the file with one line per record */
    method Save()
      requires Valid()
      modifies this`file
      ensures Valid() && Contents() == old(Contents())
      ensures file == Some(Encode(Contents()))
    {
      var text := "";
      var i := 0;
      while i < count
        invariant 0 <= i <= count
        invariant text == Encode(employees[..i])
      {
        EncodeAppend(employees[..i], employees[i]);
        assert employees[..i + 1] == employees[..i] + [employees[i]];
        text := text + EncodeLine(employees[i]);
        i := i + 1;
      }
      assert employees[..i] == Contents();
      file := Some(text);
    }

    /** loadEmployees, stopping once the array is full: a missing file leaves the
        store as it was; otherwise the store holds the records decoded from the
        file's fgets chunks, up to the capacity */
    method Load()
      requires Valid()
      modifies this`count, employees
      ensures Valid()
      ensures file.None? ==> Contents() == old(Contents())
      ensures file.Some? ==> Contents() == DecodeBounded(FgetsLines(file.value))
    {
      if file.Some? {
        LoadChunks(FgetsLines(file.value));
      }
    }

    /** The loop of loadEmployees over the chunks fgets returns, from an empty
        array, until the chunks run out or the array is full */
    method LoadChunks(lines: seq<string>)
      requires Valid()
      modifies this`count, employees
      ensures Valid()
      ensures Contents() == DecodeBounded(lines)
    {
      var left := lines;
      ghost var done: seq<string> := [];
      count := 0;
      while left != [] && count < MaxEmployees
        invariant done + left == lines
        invariant Valid()
        invariant Contents() == Decode(done)
        decreases |left|
      {
        LoadLine(done, left[0]);
        ShiftFirst(done, left);
        done, left := done + [left[0]], left[1..];
      }
      assert |Decode(done)| == count;
      DecodeBoundedPrefix(done, left);
    }

    /** One pass of the load loop: the sscanf of one chunk, and the slot it fills
        when all five fields convert */
    method LoadLine(ghost done: seq<string>, line: string)
      requires Valid() && count < MaxEmployees
      requires Contents() == Decode(done)
      modifies this`count, employees
      ensures Valid()
      ensures Contents() == Decode(done + [line])
    {
      DecodeSnoc(done, line);
      var parsed := ParseLine(line);
      if parsed.Some? {
        employees[count] := parsed.value;
        count := count + 1;
      }
    }

    /** The strcmp scan that addEmployee, viewEmployee, editEmployee and
        deleteEmployee each run: the index of the first record with the id */
    method IndexOf(id: string) returns (r: Option<nat>)
      requires Valid()
      ensures r == IdIndex(Contents(), id)
      ensures r.Some? ==> r.value < count && employees[r.value].id == id
      ensures r.None? <==> forall k :: 0 <= k < count ==> employees[k].id != id
    {
      var i := 0;
      while i < count
        invariant 0 <= i <= count
        invariant forall k :: 0 <= k < i ==> employees[k].id != id
      {
        if employees[i].id == id {
          assert Contents()[i].id == id;
          return Some(i);
        }
        i := i + 1;
      }
      return None;
    }

    /** addEmployee with the terminal input already read: id, phone and email are
        scanf tokens, name and position the raw fgets buffers */
    method Add(id: string, nameLine: string, phone: string, positionLine: string, email: string) returns (r: AddResult)
      requires Valid()
      modifies this`count, this`file, employees
      ensures Valid()
      ensures r == AddCheck(old(Contents()), id, phone, email)
      ensures Contents() == AddRecord(old(Contents()), NewEmployee(id, nameLine, phone, positionLine, email))
      ensures file == if r == Added then Some(Encode(Contents())) else old(file)
    {
      if count >= MaxEmployees {
        return CapacityExceeded;
      }
      if !IsValidID(id) {
        return InvalidId;
      }
      var taken := IndexOf(id);
      if taken.Some? {
        return DuplicateId;
      }
      if !IsValidPhone(phone) {
        return InvalidPhone;
      }
      if !IsValidEmail(email) {
        return InvalidEmail;
      }
      employees[count] := NewEmployee(id, nameLine, phone, positionLine, email);
      count := count + 1;
      Save();
      r := Added;
    }

    /** listEmployees: id, name and phone of every record, in array order */
    method List() returns (lines: seq<Summary>)
      requires Valid()
      ensures |lines| == |Contents()|
      ensures forall k :: 0 <= k < |lines| ==>
        lines[k] == Summary(Contents()[k].id, Contents()[k].name, Contents()[k].phone)
    {
      lines := [];
      var i := 0;
      while i < count
        invariant 0 <= i <= count
        invariant |lines| == i
        invariant forall k :: 0 <= k < i ==>
          lines[k] == Summary(employees[k].id, employees[k].name, employees[k].phone)
      {
        lines := lines + [Summary(employees[i].id, employees[i].name, employees[i].phone)];
        i := i + 1;
      }
    }

    /** viewEmployee: the first record whose id matches, if any */
    method Find(id: string) returns (r: Option<Employee>)
      requires Valid()
      ensures r == Lookup(Contents(), id)
      ensures r.Some? ==> r.value.id == id && r.value in Contents()
      ensures r.None? <==> forall k :: 0 <= k < |Contents()| ==> Contents()[k].id != id
    {
      var i := IndexOf(id);
      if i.None? {
        return None;
      }
      return Some(employees[i.value]);
    }

    /** editEmployee with the four raw fgets buffers: on the first match, each
        field is replaced unless its buffer is a lone newline, and phone and email
        only when their validator accepts the buffer as read */
    method Edit(id: string, nameLine: string, phoneLine: string, positionLine: string, emailLine: string) returns (found: bool)
      requires Valid()
      modifies this`file, employees
      ensures Valid()
      ensures found == IdIndex(old(Contents()), id).Some?
      ensures Contents() == EditById(old(Contents()), id, nameLine, phoneLine, positionLine, emailLine)
      ensures file == if found then Some(Encode(Contents())) else old(file)
    {
      var i := IndexOf(id);
      if i.None? {
        return false;
      }
      var e := employees[i.value];
      if nameLine != "\n" {
        e := e.(name := TruncateAtNewline(nameLine));
      }
      if phoneLine != "\n" && IsValidPhone(phoneLine) {
        e := e.(phone := TruncateAtNewline(phoneLine));
      }
      if positionLine != "\n" {
        e := e.(position := TruncateAtNewline(positionLine));
      }
      if emailLine != "\n" && IsValidEmail(emailLine) {
        e := e.(email := TruncateAtNewline(emailLine));
      }
      employees[i.value] := e;
      assert Contents() == old(Contents())[i.value := e];
      Save();
      return true;
    }

    /** deleteEmployee: on the first match, remove it and save */
    method Delete(id: string) returns (found: bool)
      requires Valid()
      modifies this`count, this`file, employees
      ensures Valid()
      ensures found == IdIndex(old(Contents()), id).Some?
      ensures Contents() == DeleteById(old(Contents()), id)
      ensures file == if found then Some(Encode(Contents())) else old(file)
    {
      var i := IndexOf(id);
      if i.None? {
        return false;
      }
      RemoveAt(i.value);
      Save();
      return true;
    }

    /** The j loop of deleteEmployee: move every record after slot i one slot
        forward, then shrink the count */
    method RemoveAt(i: nat)
      requires Valid() && i < count
      modifies this`count, employees
      ensures Valid()
      ensures Contents() == old(Contents())[..i] + old(Contents())[i + 1..]
    {
      var j := i;
      while j < count - 1
        invariant i <= j <= count - 1
        invariant forall k :: 0 <= k < i ==> employees[k] == old(employees[k])
        invariant forall k :: i <= k < j ==> employees[k] == old(employees[k + 1])
        invariant forall k :: j < k < count ==> employees[k] == old(employees[k])
        modifies employees
      {
        employees[j] := employees[j + 1];
        j := j + 1;
      }
      count := count - 1;
      assert Contents() == old(Contents())[..i] + old(Contents())[i + 1..];
    }
  }
}
