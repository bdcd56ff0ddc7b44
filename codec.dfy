/** The file format of employees.txt: saveEmployees writes one
    `id,name,phone,position,email` line per record; loadEmployees reads the file
    with fgets into a 100-byte buffer and keeps each chunk that
    sscanf("%[^,],%[^,],%[^,],%[^,],%s") converts into five fields. */
module Codec {
  import opened Strings
  import opened Records

  /** char line[MAX_STRING]: fgets stores at most LineBufferSize - 1 characters */
  const LineBufferSize: nat := 100

  // ---------------------------------------------------------------- encode

  /** fprintf(file, "%s,%s,%s,%s,%s\n", ...) for one record */
  function EncodeLine(e: Employee): string {
    e.id + "," + e.name + "," + e.phone + "," + e.position + "," + e.email + "\n"
  }

  /** saveEmployees: the lines of all records, in array order */
  function Encode(recs: seq<Employee>): string {
    if recs == [] then [] else EncodeLine(recs[0]) + Encode(recs[1..])
  }

  lemma {:induction false} EncodeAppend(recs: seq<Employee>, e: Employee)
    ensures Encode(recs + [e]) == Encode(recs) + EncodeLine(e)
  {
    if recs == [] {
      assert [e][1..] == [];
    } else {
      assert (recs + [e])[0] == recs[0];
      assert (recs + [e])[1..] == recs[1..] + [e];
      EncodeAppend(recs[1..], e);
      ConcatAssoc(EncodeLine(recs[0]), Encode(recs[1..]), EncodeLine(e));
    }
  }

  // ---------------------------------------------------------------- fgets

  function Concat(lines: seq<string>): string {
    if lines == [] then [] else lines[0] + Concat(lines[1..])
  }

  /** What one fgets call stores: 1 to LineBufferSize - 1 characters, with no
      newline before the last one */
  predicate IsChunk(chunk: string) {
    0 < |chunk| < LineBufferSize && '\n' !in chunk[..|chunk| - 1]
  }

  /** A chunk fgets ended before the end of the file: at a newline, or because
      the buffer was full */
  predicate IsClosed(chunk: string) {
    |chunk| == LineBufferSize - 1 || (chunk != [] && chunk[|chunk| - 1] == '\n')
  }

  /** The number of characters one fgets call takes: up to and including the
      first newline, but never more than LineBufferSize - 1 */
  function ChunkLength(text: string): (n: nat)
    requires text != []
    ensures 0 < n <= |text| && n < LineBufferSize
    ensures '\n' !in text[..n - 1]
    ensures text[n - 1] == '\n' || n == |text| || n == LineBufferSize - 1
    ensures IsChunk(text[..n]) && (n < |text| ==> IsClosed(text[..n]))
  {
    var window := if |text| < LineBufferSize - 1 then text else text[..LineBufferSize - 1];
    match FirstIndex(window, '\n')
    case Some(k) => k + 1
    case None => |window|
  }

  /** The successive buffers `while (fgets(line, sizeof(line), file))` sees */
  function FgetsLines(text: string): (lines: seq<string>)
    ensures Concat(lines) == text
    ensures forall i :: 0 <= i < |lines| ==> IsChunk(lines[i])
    ensures forall i :: 0 <= i < |lines| - 1 ==> IsClosed(lines[i])
    decreases |text|
  {
    if text == [] then []
    else
      var n := ChunkLength(text);
      assert text == text[..n] + text[n..];
      [text[..n]] + FgetsLines(text[n..])
  }

  /** A line that fits the buffer and ends in its only newline is read in one call */
  lemma FgetsLinesOfLine(line: string, rest: string)
    requires 0 < |line| < LineBufferSize
    requires line[|line| - 1] == '\n' && '\n' !in line[..|line| - 1]
    ensures FgetsLines(line + rest) == [line] + FgetsLines(rest)
  {
    var text := line + rest;
    var n := ChunkLength(text);
    assert text[..|line|] == line;
    assert text[n..] == rest;
  }

  // ---------------------------------------------------------------- sscanf

  predicate NoSpace(s: string) {
    forall k :: 0 <= k < |s| ==> !IsSpace(s[k])
  }

  predicate AllSpace(s: string) {
    forall k :: 0 <= k < |s| ==> IsSpace(s[k])
  }

  /** What one `%[^,]` conversion can store: one or more non-comma characters */
  predicate CommaField(f: string) {
    f != [] && ',' !in f
  }

  /** The text `f0,f1,...,rest`: each field followed by its comma */
  function JoinFields(fields: seq<string>, rest: string): string {
    if fields == [] then rest else fields[0] + "," + JoinFields(fields[1..], rest)
  }

  /** One `%[^,]` conversion followed by the literal ',': one or more non-comma
      characters, then the comma; gives the field and what follows the comma */
  function ScanField(s: string): (r: Option<(string, string)>)
    ensures r.Some? ==> CommaField(r.value.0) && s == r.value.0 + "," + r.value.1
  {
    match FirstIndex(s, ',')
    case None => None
    case Some(k) =>
      if k == 0 then None
      else
        assert s == s[..k] + "," + s[k + 1..];
        Some((s[..k], s[k + 1..]))
  }

  /** n successive `%[^,],` conversions: the fields and the text after the n-th comma */
  function ScanFields(s: string, n: nat): (r: Option<(seq<string>, string)>)
    ensures r.Some? ==> |r.value.0| == n && s == JoinFields(r.value.0, r.value.1)
    ensures r.Some? ==> forall k :: 0 <= k < n ==> CommaField(r.value.0[k])
  {
    if n == 0 then Some(([], s))
    else
      match ScanField(s)
      case None => None
      case Some((f, rest)) =>
        match ScanFields(rest, n - 1)
        case None => None
        case Some((fs, tail)) =>
          assert ([f] + fs)[1..] == fs;
          Some(([f] + fs, tail))
  }

  /** The length of the run of white space a `%s` conversion skips */
  function SpaceLength(s: string): (n: nat)
    ensures n <= |s| && AllSpace(s[..n])
    ensures n < |s| ==> !IsSpace(s[n])
  {
    if s == [] || !IsSpace(s[0]) then 0 else 1 + SpaceLength(s[1..])
  }

  /** The length of the run of non-white-space characters a `%s` conversion takes */
  function TokenLength(s: string): (n: nat)
    ensures n <= |s| && NoSpace(s[..n])
    ensures n < |s| ==> IsSpace(s[n])
  {
    if s == [] || IsSpace(s[0]) then 0 else 1 + TokenLength(s[1..])
  }

  /** One `%s` conversion: skip white space, then one or more non-white-space
      characters; nothing left to convert is a failure */
  function ScanToken(s: string): (r: Option<string>)
    ensures r.Some? ==> r.value != [] && NoSpace(r.value)
  {
    var t := s[SpaceLength(s)..];
    var n := TokenLength(t);
    if n == 0 then None else Some(t[..n])
  }

  /** What sscanf can deliver: four non-empty comma-free fields and a non-empty
      email without white space */
  predicate Scannable(e: Employee) {
    && CommaField(e.id) && CommaField(e.name) && CommaField(e.phone) && CommaField(e.position)
    && e.email != [] && NoSpace(e.email)
  }

  /** sscanf(line, "%[^,],%[^,],%[^,],%[^,],%s", ...) == 5 */
  function ParseLine(line: string): (r: Option<Employee>)
    ensures r.Some? ==> Scannable(r.value)
  {
    match ScanFields(line, 4)
    case None => None
    case Some((fs, rest)) =>
      match ScanToken(rest)
      case None => None
      case Some(email) => Some(Employee(fs[0], fs[1], fs[2], fs[3], email))
  }

  // ---------------------------------------------------------------- decode

  /** loadEmployees: the records of the buffers that convert, in file order; the
      loop has stored the records of all buffers before the last one when it
      reads the last */
  function Decode(lines: seq<string>): (recs: seq<Employee>)
    ensures |recs| <= |lines|
    ensures forall k :: 0 <= k < |recs| ==> Scannable(recs[k])
  {
    if lines == [] then [] else Decode(lines[..|lines| - 1]) + Converted(lines[|lines| - 1])
  }

  /** The record one buffer contributes: one if it converts, none otherwise */
  function Converted(line: string): (recs: seq<Employee>)
    ensures |recs| <= 1
    ensures forall k :: 0 <= k < |recs| ==> Scannable(recs[k])
  {
    match ParseLine(line)
    case Some(e) => [e]
    case None => []
  }

  lemma {:induction false} DecodeAppend(a: seq<string>, b: seq<string>)
    ensures Decode(a + b) == Decode(a) + Decode(b)
    decreases |b|
  {
    if b == [] {
      assert a + b == a;
    } else {
      var front, last := b[..|b| - 1], b[|b| - 1];
      SplitLast(a, b);
      DecodeAppend(a, front);
      DecodeSnoc(a + front, last);
      DecodeSnoc(front, last);
      ConcatAssoc(Decode(a), Decode(front), Converted(last));
    }
  }

  /** A buffer that does not convert is skipped; the lines around it still load */
  lemma DecodeSkipsMalformed(before: seq<string>, bad: string, after: seq<string>)
    requires ParseLine(bad).None?
    ensures Decode(before + [bad] + after) == Decode(before) + Decode(after)
  {
    DecodeAppend(before + [bad], after);
    DecodeAppend(before, [bad]);
  }

  /** Every buffer that converts gives one record: loadEmployees has no bound of
      its own, so 101 such lines give 101 records for a 100-slot array */
  lemma {:induction false} DecodeKeepsEveryParsedLine(lines: seq<string>)
    requires forall i :: 0 <= i < |lines| ==> ParseLine(lines[i]).Some?
    ensures |Decode(lines)| == |lines|
  {
    if lines != [] {
      DecodeKeepsEveryParsedLine(lines[..|lines| - 1]);
    }
  }

  // ---------------------------------------------------------------- what sscanf accepts

  /** The shape of a line sscanf converts to e: the four fields each followed by a
      comma, optional white space, the email, and a tail that is empty or starts
      with white space */
  function LineOf(e: Employee, gap: string, tail: string): string {
    JoinFields([e.id, e.name, e.phone, e.position], gap + e.email + tail)
  }

  predicate TokenEnd(tail: string) {
    tail == [] || IsSpace(tail[0])
  }

  lemma ScanFieldOf(f: string, rest: string)
    requires CommaField(f)
    ensures ScanField(f + "," + rest) == Some((f, rest))
  {
    var s := f + "," + rest;
    assert s[|f|] == ',';
    assert s[..|f|] == f;
    assert s[|f| + 1..] == rest;
  }

  /** Scanning n + 1 fields over `f,rest` takes f and goes on scanning n over rest */
  lemma ScanFieldsStep(f: string, rest: string, n: nat)
    requires CommaField(f)
    ensures ScanFields(rest, n).None? ==> ScanFields(f + "," + rest, n + 1).None?
    ensures ScanFields(rest, n).Some? ==>
      ScanFields(f + "," + rest, n + 1) == Some(([f] + ScanFields(rest, n).value.0, ScanFields(rest, n).value.1))
  {
    ScanFieldOf(f, rest);
  }

  /** `a,b,c,d,rest` is JoinFields of the four fields */
  lemma JoinFour(a: string, b: string, c: string, d: string, rest: string)
    ensures JoinFields([a, b, c, d], rest) == a + "," + (b + "," + (c + "," + (d + "," + rest)))
  {
    assert [d][1..] == [];
    assert JoinFields([d], rest) == d + "," + rest;
    assert [c, d][1..] == [d];
    assert JoinFields([c, d], rest) == c + "," + JoinFields([d], rest);
    assert [b, c, d][1..] == [c, d];
    assert JoinFields([b, c, d], rest) == b + "," + JoinFields([c, d], rest);
    assert [a, b, c, d][1..] == [b, c, d];
  }

  lemma {:induction false} SpaceLengthOf(gap: string, s: string)
    requires AllSpace(gap) && (s == [] || !IsSpace(s[0]))
    ensures SpaceLength(gap + s) == |gap|
  {
    if gap == [] {
      assert gap + s == s;
    } else {
      assert (gap + s)[0] == gap[0];
      assert (gap + s)[1..] == gap[1..] + s;
      SpaceLengthOf(gap[1..], s);
    }
  }

  lemma {:induction false} TokenLengthOf(token: string, tail: string)
    requires NoSpace(token) && TokenEnd(tail)
    ensures TokenLength(token + tail) == |token|
  {
    if token == [] {
      assert token + tail == tail;
    } else {
      assert (token + tail)[0] == token[0];
      assert (token + tail)[1..] == token[1..] + tail;
      TokenLengthOf(token[1..], tail);
    }
  }

  lemma ScanTokenOf(gap: string, token: string, tail: string)
    requires AllSpace(gap) && token != [] && NoSpace(token) && TokenEnd(tail)
    ensures ScanToken(gap + token + tail) == Some(token)
  {
    ConcatAssoc(gap, token, tail);
    SpaceLengthOf(gap, token + tail);
    assert (gap + (token + tail))[|gap|..] == token + tail;
    TokenLengthOf(token, tail);
    assert (token + tail)[..|token|] == token;
  }

  /** Every line of that shape converts, to exactly its fields */
  lemma ParseLineComplete(e: Employee, gap: string, tail: string)
    requires Scannable(e) && AllSpace(gap) && TokenEnd(tail)
    ensures ParseLine(LineOf(e, gap, tail)) == Some(e)
  {
    var fields := [e.id, e.name, e.phone, e.position];
    assert forall k :: 0 <= k < |fields| ==> CommaField(fields[k]);
    ScanFieldsOfJoin(fields, gap + e.email + tail);
    ScanTokenOf(gap, e.email, tail);
  }

  /** The %[^,] conversions read back exactly the comma-free fields that
      were joined with commas */
  lemma {:induction false} ScanFieldsOfJoin(fields: seq<string>, rest: string)
    requires forall k :: 0 <= k < |fields| ==> CommaField(fields[k])
    ensures ScanFields(JoinFields(fields, rest), |fields|) == Some((fields, rest))
  {
    if fields != [] {
      var inner := JoinFields(fields[1..], rest);
      assert JoinFields(fields, rest) == fields[0] + "," + inner;
      ScanFieldsOfJoin(fields[1..], rest);
      ScanFieldsStep(fields[0], inner, |fields| - 1);
      assert [fields[0]] + fields[1..] == fields;
    }
  }

  /** Every line that converts has that shape */
  lemma ParseLineSound(line: string)
    requires ParseLine(line).Some?
    ensures exists gap, tail :: AllSpace(gap) && TokenEnd(tail) && line == LineOf(ParseLine(line).value, gap, tail)
  {
    var e := ParseLine(line).value;
    var (fs, rest) := ScanFields(line, 4).value;
    assert fs == [e.id, e.name, e.phone, e.position];
    var gap, tail := ScanTokenSplit(rest);
    assert line == LineOf(e, gap, tail);
  }

  /** A successful `%s` conversion splits its input into skipped white space,
      the token, and a tail that is empty or starts with white space */
  lemma ScanTokenSplit(rest: string) returns (gap: string, tail: string)
    requires ScanToken(rest).Some?
    ensures AllSpace(gap) && TokenEnd(tail)
    ensures rest == gap + ScanToken(rest).value + tail
  {
    var g := SpaceLength(rest);
    var t := rest[g..];
    var n := TokenLength(t);
    var token := t[..n];
    gap := rest[..g];
    tail := t[n..];
    assert rest == gap + t;
    TokenSplit(t);
    ConcatAssoc(gap, token, tail);
  }

  lemma TokenSplit(t: string)
    ensures t == t[..TokenLength(t)] + t[TokenLength(t)..]
    ensures TokenEnd(t[TokenLength(t)..])
  {
    var n := TokenLength(t);
    if n < |t| {
      assert t[n..][0] == t[n];
    }
  }

  lemma {:induction false} JoinFieldsCommas(fields: seq<string>, rest: string)
    ensures multiset(JoinFields(fields, rest))[','] >= |fields|
  {
    if fields != [] {
      JoinFieldsCommas(fields[1..], rest);
      assert JoinFields(fields, rest) == fields[0] + [','] + JoinFields(fields[1..], rest);
    }
  }

  /** A line with fewer than four commas never converts */
  lemma FewerThanFourCommasRejected(line: string)
    requires multiset(line)[','] < 4
    ensures ParseLine(line).None?
  {
    match ScanFields(line, 4) {
      case None =>
      case Some((fs, rest)) => JoinFieldsCommas(fs, rest);
    }
  }

  /** A comma-free field followed by a comma can be split off in only one way */
  lemma SplitUnique(f: string, x: string, g: string, y: string)
    requires CommaField(f) && CommaField(g) && f + "," + x == g + "," + y
    ensures f == g && x == y
  {
    ScanFieldOf(f, x);
    ScanFieldOf(g, y);
  }

  /** Comma-free fields are split off a text in only one way */
  lemma {:induction false} JoinFieldsUnique(a: seq<string>, s: string, b: seq<string>, t: string)
    requires forall k :: 0 <= k < |a| ==> CommaField(a[k])
    requires forall k :: 0 <= k < |b| ==> CommaField(b[k])
    requires |a| <= |b| && JoinFields(a, s) == JoinFields(b, t)
    ensures a == b[..|a|] && s == JoinFields(b[|a|..], t)
  {
    if a == [] {
      assert b[..0] == a && b[0..] == b;
    } else {
      SplitUnique(a[0], JoinFields(a[1..], s), b[0], JoinFields(b[1..], t));
      JoinFieldsUnique(a[1..], s, b[1..], t);
      assert b[1..][..|a| - 1] == b[1..|a|];
      assert b[1..][|a| - 1..] == b[|a|..];
      assert a == [a[0]] + a[1..];
      assert b[..|a|] == [b[0]] + b[1..|a|];
    }
  }

  /** An empty field among the first four (two commas in a row, or a leading
      comma) stops the conversion */
  lemma EmptyFieldRejected(fields: seq<string>, rest: string)
    requires |fields| < 4
    requires forall k :: 0 <= k < |fields| ==> CommaField(fields[k])
    ensures ParseLine(JoinFields(fields, "," + rest)).None?
  {
    var line := JoinFields(fields, "," + rest);
    match ScanFields(line, 4) {
      case None =>
      case Some((fs, r)) =>
        JoinFieldsUnique(fields, "," + rest, fs, r);
    }
  }

  /** Four fields followed by nothing but white space never convert */
  lemma MissingEmailRejected(fields: seq<string>, blank: string)
    requires |fields| == 4
    requires forall k :: 0 <= k < 4 ==> CommaField(fields[k])
    requires AllSpace(blank)
    ensures ParseLine(JoinFields(fields, blank)).None?
  {
    var line := JoinFields(fields, blank);
    match ScanFields(line, 4) {
      case None =>
      case Some((fs, r)) =>
        JoinFieldsUnique(fields, blank, fs, r);
        assert fs[4..] == [];
        assert r == blank;
        SpaceLengthOf(blank, []);
        assert blank + [] == blank;
    }
  }

  /** %s stops only at white space: commas after the fourth end up in the email */
  lemma ExtraCommasAbsorbedIntoEmail(e: Employee, more: string)
    requires Scannable(e) && more != [] && NoSpace(more)
    ensures ParseLine(JoinFields([e.id, e.name, e.phone, e.position], e.email + "," + more + "\n"))
         == Some(e.(email := e.email + "," + more))
  {
    var wide := e.(email := e.email + "," + more);
    assert NoSpace(wide.email);
    ParseLineComplete(wide, "", "\n");
    assert "" + wide.email + "\n" == e.email + "," + more + "\n";
  }

  // ---------------------------------------------------------------- round trip

  /** A record whose line survives the file: the four comma fields are non-empty
      and free of commas and newlines, the email is non-empty and free of white
      space, and the whole line fits the fgets buffer */
  predicate Storable(e: Employee) {
    && Scannable(e)
    && '\n' !in e.id && '\n' !in e.name && '\n' !in e.phone && '\n' !in e.position
    && |EncodeLine(e)| < LineBufferSize
  }

  lemma EncodeLineIsLineOf(e: Employee)
    ensures EncodeLine(e) == LineOf(e, "", "\n")
  {
    var tail := e.email + "\n";
    assert "" + e.email + "\n" == tail;
    var j3 := e.position + "," + tail;
    assert JoinFields([e.position], tail) == j3;
    assert [e.phone, e.position][1..] == [e.position];
    var j2 := e.phone + "," + j3;
    assert JoinFields([e.phone, e.position], tail) == j2;
    assert [e.name, e.phone, e.position][1..] == [e.phone, e.position];
    var j1 := e.name + "," + j2;
    assert JoinFields([e.name, e.phone, e.position], tail) == j1;
    assert [e.id, e.name, e.phone, e.position][1..] == [e.name, e.phone, e.position];
    assert LineOf(e, "", "\n") == e.id + "," + j1;
  }

  lemma EncodeLineHasOneNewline(e: Employee)
    requires Storable(e)
    ensures EncodeLine(e)[|EncodeLine(e)| - 1] == '\n'
    ensures '\n' !in EncodeLine(e)[..|EncodeLine(e)| - 1]
  {
    var body := e.id + "," + e.name + "," + e.phone + "," + e.position + "," + e.email;
    assert EncodeLine(e) == body + "\n";
    assert EncodeLine(e)[..|EncodeLine(e)| - 1] == body;
    assert IsSpace('\n');
    assert '\n' !in e.email;
  }

  /** A storable record's line converts back to the record */
  lemma ConvertedEncodeLine(e: Employee)
    requires Scannable(e)
    ensures Converted(EncodeLine(e)) == [e]
  {
    EncodeLineIsLineOf(e);
    ParseLineComplete(e, "", "\n");
  }

  lemma DecodeCons(line: string, lines: seq<string>)
    ensures Decode([line] + lines) == Converted(line) + Decode(lines)
  {
    assert [line][..0] == [];
    assert Decode([line]) == Converted(line);
    DecodeAppend([line], lines);
  }


  /** fgets reads a saved file back one record line at a time */
  lemma FgetsLinesOfEncode(recs: seq<Employee>)
    requires recs != [] && Storable(recs[0])
    ensures FgetsLines(Encode(recs)) == [EncodeLine(recs[0])] + FgetsLines(Encode(recs[1..]))
  {
    EncodeLineHasOneNewline(recs[0]);
    FgetsLinesOfLine(EncodeLine(recs[0]), Encode(recs[1..]));
  }

  /** Loading what saveEmployees wrote gives back the same records, in order */
  lemma {:induction false} RoundTrip(recs: seq<Employee>)
    requires forall k :: 0 <= k < |recs| ==> Storable(recs[k])
    ensures Decode(FgetsLines(Encode(recs))) == recs
  {
    if recs != [] {
      RoundTripStep(recs);
      RoundTrip(recs[1..]);
      assert [recs[0]] + recs[1..] == recs;
    }
  }

  lemma RoundTripStep(recs: seq<Employee>)
    requires recs != [] && Storable(recs[0])
    ensures Decode(FgetsLines(Encode(recs))) == [recs[0]] + Decode(FgetsLines(Encode(recs[1..])))
  {
    FgetsLinesOfEncode(recs);
    DecodeCons(EncodeLine(recs[0]), FgetsLines(Encode(recs[1..])));
    ConvertedEncodeLine(recs[0]);
  }

  // ---------------------------------------------------------------- capacity

  /** The records a load keeps when it stops reading once MAX_EMPLOYEES records
      are stored: the decoded records up to the capacity, in file order */
  function DecodeBounded(lines: seq<string>): (recs: seq<Employee>)
    ensures |recs| <= MaxEmployees
    ensures recs <= Decode(lines)
    ensures |Decode(lines)| <= MaxEmployees ==> recs == Decode(lines)
    ensures |Decode(lines)| > MaxEmployees ==> |recs| == MaxEmployees
  {
    var all := Decode(lines);
    if |all| <= MaxEmployees then all else all[..MaxEmployees]
  }

  /** One more fgets chunk adds the record it converts to, if any */
  lemma DecodeSnoc(done: seq<string>, line: string)
    ensures Decode(done + [line]) == Decode(done) + Converted(line)
  {
    assert (done + [line])[..|done|] == done;
  }

  /** A load that stops after the chunks `done`, because the file ended or the
      array filled up, has stored exactly what the bounded load keeps */
  lemma DecodeBoundedPrefix(done: seq<string>, left: seq<string>)
    requires |Decode(done)| <= MaxEmployees
    requires left == [] || |Decode(done)| == MaxEmployees
    ensures DecodeBounded(done + left) == Decode(done)
  {
    DecodeAppend(done, left);
    var all := Decode(done + left);
    if left == [] {
      assert done + left == done;
    } else {
      assert all[..MaxEmployees] == Decode(done);
    }
  }

  /** loadEmployees as written has no capacity bound: a file holding one more
      well-formed line than the array has slots decodes to more records than
      employees[] can hold, so the loop writes past its end */
  lemma LoadOverflows(e: Employee)
    requires Storable(e)
    ensures |Decode(FgetsLines(Encode(seq(MaxEmployees + 1, _ => e))))| == MaxEmployees + 1
  {
    RoundTrip(seq(MaxEmployees + 1, _ => e));
  }

  /** A store that saveEmployees wrote is loaded back unchanged by the bounded load */
  lemma ReloadAfterSave(recs: seq<Employee>)
    requires |recs| <= MaxEmployees
    requires forall k :: 0 <= k < |recs| ==> Storable(recs[k])
    ensures DecodeBounded(FgetsLines(Encode(recs))) == recs
  {
    RoundTrip(recs);
  }

  /** Decoding does not re-check ids: two saved records with the same id both load */
  lemma DecodeKeepsDuplicateIds(e: Employee, f: Employee)
    requires Scannable(e) && Scannable(f) && e.id == f.id
    ensures Decode([EncodeLine(e), EncodeLine(f)]) == [e, f]
    ensures !UniqueIds(Decode([EncodeLine(e), EncodeLine(f)]))
  {
    DecodeCons(EncodeLine(e), [EncodeLine(f)]);
    DecodeCons(EncodeLine(f), []);
    assert [EncodeLine(e)] + [EncodeLine(f)] == [EncodeLine(e), EncodeLine(f)];
    assert [EncodeLine(f)] + [] == [EncodeLine(f)];
    ConvertedEncodeLine(e);
    ConvertedEncodeLine(f);
    assert Decode([EncodeLine(e), EncodeLine(f)]) == [e] + ([f] + []);
    assert [e] + ([f] + []) == [e, f];
    assert [e, f][0].id == [e, f][1].id;
  }

  /** The saved line of a record whose name holds a comma reads as another record's line */
  lemma CommaInNameLine(e: Employee, first: string, second: string)
    requires e.name == first + "," + second
    ensures EncodeLine(e) == LineOf(Employee(e.id, first, second, e.phone, e.position + "," + e.email), "", "\n")
  {
    var shifted := Employee(e.id, first, second, e.phone, e.position + "," + e.email);
    EncodeLineIsLineOf(e);
    JoinFour(e.id, e.name, e.phone, e.position, "" + e.email + "\n");
    JoinFour(e.id, first, second, e.phone, "" + shifted.email + "\n");
    var a := e.position + "," + ("" + e.email + "\n");
    assert "" + shifted.email + "\n" == a;
    var b := e.phone + "," + a;
    assert e.name + "," + b == first + "," + (second + "," + b);
  }

  /** A comma inside a name shifts every later field on reload: the part after
      the comma becomes the phone, and position and email end up joined in the email */
  lemma CommaInNameCorrupts(e: Employee, first: string, second: string)
    requires CommaField(e.id) && CommaField(e.phone) && CommaField(e.position) && e.email != [] && NoSpace(e.email)
    requires CommaField(first) && CommaField(second) && e.name == first + "," + second
    requires NoSpace(e.position)
    ensures ParseLine(EncodeLine(e)) == Some(Employee(e.id, first, second, e.phone, e.position + "," + e.email))
  {
    var shifted := Employee(e.id, first, second, e.phone, e.position + "," + e.email);
    assert NoSpace(shifted.email);
    ParseLineComplete(shifted, "", "\n");
    CommaInNameLine(e, first, second);
  }

  /** addEmployee does not refuse an empty name, but its line is dropped on reload */
  lemma EmptyNameLost(e: Employee)
    requires CommaField(e.id)
    ensures ParseLine(EncodeLine(e.(name := []))).None?
  {
    var rest := e.phone + "," + e.position + "," + e.email + "\n";
    assert EncodeLine(e.(name := [])) == JoinFields([e.id], "," + rest);
    EmptyFieldRejected([e.id], rest);
  }
}
