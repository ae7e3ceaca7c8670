/**
  The employee record and its CBOR codec (components/employee_utils): the two
  structs, the decoders `cbor_value_get_birthdate` and `cbor_value_get_employee`
  and the encoders `cbor_encode_birthdate`, `cbor_encode_employee` and
  `employee_toCBOR`. Every step goes through `CBOR_MAP_ERR`: a call that does
  not yield `CborNoError` is made a second time, its result is returned, and
  nothing after it runs.

  The decoders write through their out-pointers field by field; the pure
  functions `DecodeBirthdate` and `DecodeEmployee` say what the record holds
  afterwards, given what it held before. The encoders are stated against
  `Serialize` of the item `EmployeeItem` describes.
 */
module EmployeeUtils {
  import opened CTypes
  import opened Cbor
  import opened TinyCbor

  /** `sizeof(((struct employee *)0)->name)`. */
  const NAME_SIZE := 256

  // The map keys, byte by byte in ASCII.
  const KEY_NAME: seq<byte> := [0x6E, 0x61, 0x6D, 0x65]                                  // "name"
  const KEY_SALARY: seq<byte> := [0x73, 0x61, 0x6C, 0x61, 0x72, 0x79]                    // "salary"
  const KEY_BIRTHDATE: seq<byte> := [0x62, 0x69, 0x72, 0x74, 0x68, 0x64, 0x61, 0x74, 0x65] // "birthdate"
  const KEY_DAY: seq<byte> := [0x64, 0x61, 0x79]                                         // "day"
  const KEY_MONTH: seq<byte> := [0x6D, 0x6F, 0x6E, 0x74, 0x68]                           // "month"
  const KEY_YEAR: seq<byte> := [0x79, 0x65, 0x61, 0x72]                                  // "year"

  lemma KeysDistinct()
    ensures KEY_NAME != KEY_SALARY && KEY_NAME != KEY_BIRTHDATE && KEY_SALARY != KEY_BIRTHDATE
    ensures KEY_DAY != KEY_MONTH && KEY_DAY != KEY_YEAR && KEY_MONTH != KEY_YEAR
  {
    assert KEY_NAME[0] != KEY_YEAR[0];
  }

  /** `struct birthdate`: three signed 32-bit `int`s. */
  datatype Birthdate = Birthdate(day: int32, month: int32, year: int32)

  /** `struct employee`: the 256 bytes of `name`, the bit pattern of the
      `double` salary, and the birthdate. */
  datatype Employee = Employee(name: seq<byte>, salary: uint64, birthdate: Birthdate)

  /** The characters `strlen` sees in a name buffer. */
  function CString(name: seq<byte>): (r: seq<byte>)
    ensures 0 !in r && |r| <= |name|
    ensures 0 in name ==> |r| < |name|
  {
    TakeUntil(name, 0)
  }

  // ---- the value written on the wire ----------------------------------------

  /** The map `cbor_encode_birthdate` writes: each field passed to
      `cbor_encode_uint`, that is converted to `uint64_t`. */
  function BirthdateItem(b: Birthdate): Item
  {
    Map([Entry(Text(KEY_DAY), UInt(ToUint64(b.day))),
         Entry(Text(KEY_MONTH), UInt(ToUint64(b.month))),
         Entry(Text(KEY_YEAR), UInt(ToUint64(b.year)))])
  }

  /** The map `cbor_encode_employee` writes. */
  function EmployeeItem(e: Employee): Item
  {
    Map([Entry(Text(KEY_NAME), Text(CString(e.name))),
         Entry(Text(KEY_SALARY), Float64(e.salary)),
         Entry(Text(KEY_BIRTHDATE), BirthdateItem(e.birthdate))])
  }

  /** A text string as TinyCBOR writes it: head, then the characters. */
  function TextBytes(s: seq<byte>): (r: seq<byte>)
    requires |s| < TWO_64
  {
    Head(MAJOR_TEXT, |s|) + s
  }

  /** The encoding of the birthdate map, piece by piece in the order of the calls. */
  lemma BirthdateBytes(b: Birthdate)
    ensures WellFormed(BirthdateItem(b))
    ensures Serialize(BirthdateItem(b))
         == Head(MAJOR_MAP, 3)
            + TextBytes(KEY_DAY) + Head(MAJOR_UINT, ToUint64(b.day))
            + TextBytes(KEY_MONTH) + Head(MAJOR_UINT, ToUint64(b.month))
            + TextBytes(KEY_YEAR) + Head(MAJOR_UINT, ToUint64(b.year))
  {
    SerializeMap3(Text(KEY_DAY), UInt(ToUint64(b.day)), Text(KEY_MONTH), UInt(ToUint64(b.month)),
                  Text(KEY_YEAR), UInt(ToUint64(b.year)));
  }

  /** The encoding of the employee map, piece by piece in the order of the calls. */
  lemma EmployeeBytes(e: Employee)
    requires |e.name| == NAME_SIZE
    ensures WellFormed(BirthdateItem(e.birthdate)) && WellFormed(EmployeeItem(e))
    ensures Serialize(EmployeeItem(e))
         == Head(MAJOR_MAP, 3)
            + TextBytes(KEY_NAME) + TextBytes(CString(e.name))
            + TextBytes(KEY_SALARY) + DoubleBytes(e.salary)
            + TextBytes(KEY_BIRTHDATE) + Serialize(BirthdateItem(e.birthdate))
  {
    BirthdateBytes(e.birthdate);
    SerializeMap3(Text(KEY_NAME), Text(CString(e.name)), Text(KEY_SALARY), Float64(e.salary),
                  Text(KEY_BIRTHDATE), BirthdateItem(e.birthdate));
  }

  // ---- decoding -------------------------------------------------------------

  /** The result of a decoder: its error code and what the record holds afterwards. */
  datatype Decoded<T> = Decoded(err: CborError, out: T)

  /** The value stored under `key` when `v` is a map, else the invalid element. */
  function Field(v: Option<Item>, key: seq<byte>): (r: Option<Item>)
    ensures r.Some? ==> IsMap(v)
  {
    if IsMap(v) then MapFindValue(v.value, key) else None
  }

  predicate IsInteger(v: Option<Item>)
  {
    v.Some? && (v.value.UInt? || v.value.NegInt?)
  }

  /** What `cbor_value_get_birthdate` accepts: a map with integers under
      `day`, `month` and `year`. */
  predicate BirthdateShaped(v: Option<Item>)
  {
    IsMap(v) && IsInteger(Field(v, KEY_DAY)) && IsInteger(Field(v, KEY_MONTH)) && IsInteger(Field(v, KEY_YEAR))
  }

  /** What `cbor_value_get_employee` accepts: a map with a text string shorter
      than the name buffer under `name`, a double under `salary` and an
      accepted birthdate under `birthdate`. */
  predicate EmployeeShaped(v: Option<Item>)
  {
    && IsMap(v)
    && Field(v, KEY_NAME).Some? && Field(v, KEY_NAME).value.Text?
    && |Field(v, KEY_NAME).value.bytes| < NAME_SIZE
    && Field(v, KEY_SALARY).Some? && Field(v, KEY_SALARY).value.Float64?
    && BirthdateShaped(Field(v, KEY_BIRTHDATE))
  }

  /** `cbor_value_get_birthdate(v, &b)`: the code it returns and the record it
      leaves, field by field, stopping at the first failure. */
  function DecodeBirthdate(v: Option<Item>, b: Birthdate): (r: Decoded<Birthdate>)
    ensures r.err == NoError <==> BirthdateShaped(v)
    ensures !IsMap(v) ==> r == Decoded(ImproperValue, b)
    ensures IsMap(v) && r.err != NoError ==> r.err == IllegalType
  {
    if !IsMap(v) then Decoded(ImproperValue, b)
    else
      var day := GetInt(Field(v, KEY_DAY));
      if day.err != NoError then Decoded(day.err, b)
      else
        var b := b.(day := day.value);
        var month := GetInt(Field(v, KEY_MONTH));
        if month.err != NoError then Decoded(month.err, b)
        else
          var b := b.(month := month.value);
          var year := GetInt(Field(v, KEY_YEAR));
          if year.err != NoError then Decoded(year.err, b)
          else Decoded(NoError, b.(year := year.value))
  }

  /** The name copy with the capacity check the code omits (see Findings):
      a text of 256 bytes or more is refused with `OutOfMemory` and nothing is
      written; a shorter one is copied with its terminating NUL into the
      256-byte buffer. */
  function CopyName(name: seq<byte>, s: seq<byte>): (r: Copied)
    requires |name| == NAME_SIZE
    ensures |r.buf| == NAME_SIZE
    ensures r.err == NoError <==> |s| < NAME_SIZE
    ensures r.err == NoError ==> CString(r.buf) == TakeUntil(s, 0) && r.buf[|s| + 1..] == name[|s| + 1..]
    ensures r.err != NoError ==> r == Copied(OutOfMemory, name)
  {
    if |s| >= NAME_SIZE then Copied(OutOfMemory, name)
    else
      var r := CopyTextString(name, s, NAME_SIZE).value;
      assert r.buf == s + [0] + name[|s| + 1..];
      TakeUntilTerminated(s, name[|s| + 1..], 0);
      r
  }

  /** The name copy as employee_utils.c writes it: `buflen` is the text's
      own length, so TinyCBOR neither checks the 256-byte capacity nor has room
      for a NUL. `None` stands for a write past the end of `emp->name`. */
  function CopyNameAsWritten(name: seq<byte>, s: seq<byte>): (r: Option<Copied>)
    requires |name| == NAME_SIZE
    ensures r.None? <==> |s| > NAME_SIZE
    ensures r.Some? ==> r.value == Copied(NoError, s + name[|s|..])
  {
    var r := CopyTextString(name, s, |s|);
    if r.Some? then
      assert r.value.buf == s + name[|s|..];
      r
    else r
  }

  /** A text longer than the buffer is written past the end of `emp->name`. */
  lemma NameCopyOverflowsAsWritten(name: seq<byte>, s: seq<byte>)
    requires |name| == NAME_SIZE && |s| > NAME_SIZE
    ensures CopyNameAsWritten(name, s).None?
  {
  }

  /** A copy that fits is never terminated: when neither the text nor the
      rest of the old buffer holds a NUL, the name has none and `strlen`
      runs past the array. */
  lemma NameCopyUnterminatedAsWritten(name: seq<byte>, s: seq<byte>)
    requires |name| == NAME_SIZE && |s| <= NAME_SIZE && 0 !in s && 0 !in name[|s|..]
    ensures CopyNameAsWritten(name, s).Some? && 0 !in CopyNameAsWritten(name, s).value.buf
  {
  }

  /** One input showing it: "Bob" copied over a buffer of 'A's. */
  lemma NameCopyUnterminatedExample()
    ensures var r := CopyNameAsWritten(seq(NAME_SIZE, _ => 0x41), [0x42, 0x6F, 0x62]);
      r.Some? && r.value.err == NoError && 0 !in r.value.buf
  {
    var name: seq<byte> := seq(NAME_SIZE, _ => 0x41);
    assert 0 !in name[3..];
    NameCopyUnterminatedAsWritten(name, [0x42, 0x6F, 0x62]);
  }

  /** The corrected copy keeps the C string intact: a text of fewer than 256
      bytes without a NUL is read back exactly, whatever the buffer held. */
  lemma CopyNameTerminated(name: seq<byte>, s: seq<byte>)
    requires |name| == NAME_SIZE && |s| < NAME_SIZE && 0 !in s
    ensures var r := CopyName(name, s);
      r.err == NoError && 0 in r.buf && CString(r.buf) == s
  {
    TakeUntilNoStop(s, 0);
    var r := CopyName(name, s);
    assert r.buf[|s|] == 0;
  }

  /** `cbor_value_get_string_length` and then the name copy, on the value
      found under `name`: the code and the name buffer afterwards. */
  function DecodeName(nameV: Option<Item>, name: seq<byte>): (r: Decoded<seq<byte>>)
    requires |name| == NAME_SIZE
    ensures |r.out| == NAME_SIZE
    ensures r.err == NoError <==> nameV.Some? && nameV.value.Text? && |nameV.value.bytes| < NAME_SIZE
    ensures r.err == NoError ==> r.out == CopyName(name, nameV.value.bytes).buf
    ensures r.err != NoError ==> r.out == name
    ensures r.err != NoError ==> r.err == if nameV.Some? && nameV.value.Text? then OutOfMemory else IllegalType
  {
    var len := GetStringLength(nameV);
    if len.err != NoError then Decoded(len.err, name)
    else
      var copy := CopyName(name, nameV.value.bytes);
      Decoded(copy.err, copy.buf)
  }

  /** `cbor_value_get_employee(it, &e)` on the item `v` under the iterator. */
  function DecodeEmployee(v: Option<Item>, e: Employee): (r: Decoded<Employee>)
    requires |e.name| == NAME_SIZE
    ensures |r.out.name| == NAME_SIZE
    ensures !IsMap(v) ==> r == Decoded(ImproperValue, e)
  {
    if !IsMap(v) then Decoded(ImproperValue, e)
    else
      var name := DecodeName(Field(v, KEY_NAME), e.name);
      if name.err != NoError then Decoded(name.err, e)
      else
        var e := e.(name := name.out);
        var salary := GetDouble(Field(v, KEY_SALARY));
        if salary.err != NoError then Decoded(salary.err, e)
        else
          var e := e.(salary := salary.value);
          var bd := DecodeBirthdate(Field(v, KEY_BIRTHDATE), e.birthdate);
          Decoded(bd.err, e.(birthdate := bd.out))
  }

  /** Decoding succeeds exactly on items of the accepted shape. */
  lemma DecodeEmployeeSucceeds(v: Option<Item>, e: Employee)
    requires |e.name| == NAME_SIZE
    ensures DecodeEmployee(v, e).err == NoError <==> EmployeeShaped(v)
  {
  }

  /** On success every field comes from the map: the name's C string is the
      text up to its first NUL, the salary is the double's bit pattern, and each
      date field is the integer reduced to 32 bits. */
  lemma DecodeEmployeeFields(v: Option<Item>, e: Employee)
    requires |e.name| == NAME_SIZE && EmployeeShaped(v)
    ensures var r := DecodeEmployee(v, e);
      && CString(r.out.name) == TakeUntil(Field(v, KEY_NAME).value.bytes, 0)
      && r.out.salary == Field(v, KEY_SALARY).value.bits
      && SameLow32(r.out.birthdate.day, IntegerValue(Field(Field(v, KEY_BIRTHDATE), KEY_DAY).value))
      && SameLow32(r.out.birthdate.month, IntegerValue(Field(Field(v, KEY_BIRTHDATE), KEY_MONTH).value))
      && SameLow32(r.out.birthdate.year, IntegerValue(Field(Field(v, KEY_BIRTHDATE), KEY_YEAR).value))
  {
    var bv := Field(v, KEY_BIRTHDATE);
    var bd := DecodeBirthdate(bv, e.birthdate).out;
    assert DecodeEmployee(v, e).out.birthdate == bd;
    var day, month, year := GetInt(Field(bv, KEY_DAY)), GetInt(Field(bv, KEY_MONTH)), GetInt(Field(bv, KEY_YEAR));
    assert bd == Birthdate(day.value, month.value, year.value);
  }

  /** The record an accepted item leaves: the copied name, the salary bits and
      the decoded birthdate. */
  lemma DecodeEmployeeAccepted(v: Option<Item>, e: Employee)
    requires |e.name| == NAME_SIZE && EmployeeShaped(v)
    ensures DecodeEmployee(v, e)
         == Decoded(NoError, Employee(CopyName(e.name, Field(v, KEY_NAME).value.bytes).buf,
                                      Field(v, KEY_SALARY).value.bits,
                                      DecodeBirthdate(Field(v, KEY_BIRTHDATE), e.birthdate).out))
  {
  }

  /** A failure in the name step leaves the record as it was. */
  lemma NameFailureWritesNothing(v: Option<Item>, e: Employee)
    requires |e.name| == NAME_SIZE && IsMap(v)
    requires !(Field(v, KEY_NAME).Some? && Field(v, KEY_NAME).value.Text? && |Field(v, KEY_NAME).value.bytes| < NAME_SIZE)
    ensures var r := DecodeEmployee(v, e);
      r.out == e && r.err == if GetStringLength(Field(v, KEY_NAME)).err == NoError then OutOfMemory else IllegalType
  {
  }

  /** A failure in the salary step keeps the name already copied and nothing else. */
  lemma SalaryFailureKeepsName(v: Option<Item>, e: Employee)
    requires |e.name| == NAME_SIZE && IsMap(v)
    requires Field(v, KEY_NAME).Some? && Field(v, KEY_NAME).value.Text? && |Field(v, KEY_NAME).value.bytes| < NAME_SIZE
    requires !(Field(v, KEY_SALARY).Some? && Field(v, KEY_SALARY).value.Float64?)
    ensures var r := DecodeEmployee(v, e);
      && r.err == IllegalType
      && r.out == e.(name := CopyName(e.name, Field(v, KEY_NAME).value.bytes).buf)
  {
  }

  /** A failure in the birthdate step keeps name and salary written, and the
      date fields the birthdate decoder got to. */
  lemma BirthdateFailureKeepsEarlierFields(v: Option<Item>, e: Employee)
    requires |e.name| == NAME_SIZE && IsMap(v)
    requires Field(v, KEY_NAME).Some? && Field(v, KEY_NAME).value.Text? && |Field(v, KEY_NAME).value.bytes| < NAME_SIZE
    requires Field(v, KEY_SALARY).Some? && Field(v, KEY_SALARY).value.Float64?
    requires !BirthdateShaped(Field(v, KEY_BIRTHDATE))
    ensures var r := DecodeEmployee(v, e);
      var bd := DecodeBirthdate(Field(v, KEY_BIRTHDATE), e.birthdate);
      && r.err == bd.err && r.err in {ImproperValue, IllegalType}
      && r.out == Employee(CopyName(e.name, Field(v, KEY_NAME).value.bytes).buf,
                           Field(v, KEY_SALARY).value.bits, bd.out)
  {
  }

  /** The birthdate decoder stores day, month and year in that order and stops
      at the first field that is not an integer. */
  lemma DecodeBirthdatePartial(v: Option<Item>, b: Birthdate)
    requires IsMap(v)
    ensures var r := DecodeBirthdate(v, b);
      && (!IsInteger(Field(v, KEY_DAY)) ==> r.out == b)
      && (IsInteger(Field(v, KEY_DAY)) && !IsInteger(Field(v, KEY_MONTH)) ==>
            r.out == b.(day := GetInt(Field(v, KEY_DAY)).value))
      && (IsInteger(Field(v, KEY_DAY)) && IsInteger(Field(v, KEY_MONTH)) ==>
            r.out.day == GetInt(Field(v, KEY_DAY)).value && r.out.month == GetInt(Field(v, KEY_MONTH)).value)
      && (!IsInteger(Field(v, KEY_YEAR)) ==> r.out.year == b.year)
  {
  }

  /** Decoding the birthdate a second time, as `CBOR_MAP_ERR` does after a
      failure, gives the same code and the same record. */
  lemma DecodeBirthdateTwice(v: Option<Item>, b: Birthdate)
    ensures DecodeBirthdate(v, DecodeBirthdate(v, b).out) == DecodeBirthdate(v, b)
  {
  }

  /** Fields are found by key: with unique keys, reordering the entries of the
      outer map does not change the result. */
  lemma DecodeEmployeeOrderIndependent(es: seq<Entry>, es': seq<Entry>, e: Employee)
    requires |e.name| == NAME_SIZE
    requires UniqueKeys(es) && UniqueKeys(es') && multiset(es) == multiset(es')
    ensures DecodeEmployee(Some(Map(es)), e) == DecodeEmployee(Some(Map(es')), e)
  {
    FindValuePermutation(es, es', KEY_NAME);
    FindValuePermutation(es, es', KEY_SALARY);
    FindValuePermutation(es, es', KEY_BIRTHDATE);
  }

  /** The same for the birthdate map. */
  lemma DecodeBirthdateOrderIndependent(es: seq<Entry>, es': seq<Entry>, b: Birthdate)
    requires UniqueKeys(es) && UniqueKeys(es') && multiset(es) == multiset(es')
    ensures DecodeBirthdate(Some(Map(es)), b) == DecodeBirthdate(Some(Map(es')), b)
  {
    FindValuePermutation(es, es', KEY_DAY);
    FindValuePermutation(es, es', KEY_MONTH);
    FindValuePermutation(es, es', KEY_YEAR);
  }

  /** Entries after the three keys are ignored. */
  lemma DecodeEmployeeIgnoresLaterEntries(es: seq<Entry>, extra: seq<Entry>, e: Employee)
    requires |e.name| == NAME_SIZE
    requires FindValue(es, KEY_NAME).Some? && FindValue(es, KEY_SALARY).Some? && FindValue(es, KEY_BIRTHDATE).Some?
    ensures DecodeEmployee(Some(Map(es + extra)), e) == DecodeEmployee(Some(Map(es)), e)
  {
    FindValueAppend(es, extra, KEY_NAME);
    FindValueAppend(es, extra, KEY_SALARY);
    FindValueAppend(es, extra, KEY_BIRTHDATE);
  }

  /** Decoding what `cbor_encode_birthdate` writes gives the date back, negative
      fields included: `cbor_value_get_int` cuts the 64-bit image of a negative
      `int` back to that `int`. */
  lemma BirthdateRoundTrip(b: Birthdate, b0: Birthdate)
    ensures DecodeBirthdate(Some(BirthdateItem(b)), b0) == Decoded(NoError, b)
  {
    KeysDistinct();
    var dk, mk, yk := Text(KEY_DAY), Text(KEY_MONTH), Text(KEY_YEAR);
    var d, m, y := UInt(ToUint64(b.day)), UInt(ToUint64(b.month)), UInt(ToUint64(b.year));
    FindValue3(dk, d, mk, m, yk, y, KEY_DAY);
    FindValue3(dk, d, mk, m, yk, y, KEY_MONTH);
    FindValue3(dk, d, mk, m, yk, y, KEY_YEAR);
    Wrap32ToUint64(b.day);
    Wrap32ToUint64(b.month);
    Wrap32ToUint64(b.year);
  }

  /** Decoding what the encoder writes gives the record back: the same C
      string as name, the same salary bits and the same date. */
  lemma EmployeeRoundTrip(x: Employee, e: Employee)
    requires |x.name| == NAME_SIZE && 0 in x.name && |e.name| == NAME_SIZE
    ensures var r := DecodeEmployee(Some(EmployeeItem(x)), e);
      && r.err == NoError
      && CString(r.out.name) == CString(x.name)
      && r.out.salary == x.salary
      && r.out.birthdate == x.birthdate
  {
    var v := Some(EmployeeItem(x));
    var s := CString(x.name);
    var bv := BirthdateItem(x.birthdate);
    assert Field(v, KEY_NAME) == Some(Text(s)) && Field(v, KEY_SALARY) == Some(Float64(x.salary))
        && Field(v, KEY_BIRTHDATE) == Some(bv) by {
      KeysDistinct();
      var nk, sk, bk := Text(KEY_NAME), Text(KEY_SALARY), Text(KEY_BIRTHDATE);
      FindValue3(nk, Text(s), sk, Float64(x.salary), bk, bv, KEY_NAME);
      FindValue3(nk, Text(s), sk, Float64(x.salary), bk, bv, KEY_SALARY);
      FindValue3(nk, Text(s), sk, Float64(x.salary), bk, bv, KEY_BIRTHDATE);
    }
    var name := CopyName(e.name, s).buf;
    assert CString(name) == s by {
      TakeUntilNoStop(s, 0);
    }
    assert DecodeBirthdate(Some(bv), e.birthdate) == Decoded(NoError, x.birthdate) by {
      BirthdateRoundTrip(x.birthdate, e.birthdate);
    }
    assert EmployeeShaped(v);
    DecodeEmployeeAccepted(v, e);
  }

  /** A negative date field is written as the unsigned integer 2^64 + field,
      so any other CBOR reader sees a huge positive number. */
  lemma NegativeDateOnWire(b: Birthdate)
    requires b.day < 0
    ensures var day := Field(Some(BirthdateItem(b)), KEY_DAY);
      day == Some(UInt(b.day + TWO_64)) && IntegerValue(day.value) != b.day
  {
    KeysDistinct();
    FindValue3(Text(KEY_DAY), UInt(ToUint64(b.day)), Text(KEY_MONTH), UInt(ToUint64(b.month)),
               Text(KEY_YEAR), UInt(ToUint64(b.year)), KEY_DAY);
  }

  // ---- the records written through the out-pointers -------------------------

  /** The storage behind a `struct birthdate *`. */
  class BirthdateRecord {
    var day: int32
    var month: int32
    var year: int32

    constructor (b: Birthdate)
      ensures Value() == b
    {
      day, month, year := b.day, b.month, b.year;
    }

    function Value(): Birthdate
      reads this
    {
      Birthdate(day, month, year)
    }
  }

  /** The storage behind a `struct employee *`: the 256-byte name array, the
      salary and the embedded birthdate. */
  class EmployeeRecord {
    const name: array<byte>
    var salary: uint64
    const birthdate: BirthdateRecord

    ghost predicate Valid()
      reads this
    {
      name.Length == NAME_SIZE
    }

    constructor (e: Employee)
      requires |e.name| == NAME_SIZE
      ensures Valid() && Value() == e && fresh(name) && fresh(birthdate)
    {
      name := new byte[NAME_SIZE](i requires 0 <= i < NAME_SIZE => e.name[i]);
      salary := e.salary;
      birthdate := new BirthdateRecord(e.birthdate);
      new;
      assert name[..] == e.name;
    }

    function Value(): Employee
      reads this, name, birthdate
    {
      Employee(name[..], salary, birthdate.Value())
    }
  }

  // ---- the decoders ---------------------------------------------------------
  // In this model items are parsed values, so a lookup cannot fail; the
  // decoding errors TinyCBOR's lazy lookup can report, and the `CBOR_MAP_ERR`
  // around each lookup, are not modelled.

  /** `cbor_value_get_birthdate(v, bdate)`. */
  method GetBirthdate(v: Option<Item>, bdate: BirthdateRecord) returns (ret: CborError)
    modifies bdate
    ensures Decoded(ret, bdate.Value()) == DecodeBirthdate(v, old(bdate.Value()))
  {
    if !IsMap(v) {
      ret := ImproperValue;
      return;
    }
    var day := MapFindValue(v.value, KEY_DAY);
    var got := GetInt(day);
    if got.err != NoError {
      ret := GetInt(day).err;
      return;
    }
    bdate.day := got.value;
    var month := MapFindValue(v.value, KEY_MONTH);
    got := GetInt(month);
    if got.err != NoError {
      ret := GetInt(month).err;
      return;
    }
    bdate.month := got.value;
    var year := MapFindValue(v.value, KEY_YEAR);
    got := GetInt(year);
    if got.err != NoError {
      ret := GetInt(year).err;
      return;
    }
    bdate.year := got.value;
    ret := NoError;
  }

  /** The name step of `cbor_value_get_employee`: the length check and the
      copy into the 256-byte buffer, bounded by the buffer (see Findings). */
  method GetName(nameV: Option<Item>, name: array<byte>) returns (ret: CborError)
    requires name.Length == NAME_SIZE
    modifies name
    ensures Decoded(ret, name[..]) == DecodeName(nameV, old(name[..]))
  {
    var len := GetStringLength(nameV);
    if len.err != NoError {
      ret := GetStringLength(nameV).err;
      return;
    }
    if len.value >= NAME_SIZE {
      ret := OutOfMemory;
      return;
    }
    ret := CopyTextStringTo(nameV.value.bytes, name, NAME_SIZE);
  }

  /** The salary and birthdate steps of `cbor_value_get_employee`, once the
      name is in place. */
  method GetSalaryAndBirthdate(v: Item, emp: EmployeeRecord) returns (ret: CborError)
    requires v.Map?
    modifies emp, emp.birthdate
    ensures var salary := GetDouble(Field(Some(v), KEY_SALARY));
      var bd := DecodeBirthdate(Field(Some(v), KEY_BIRTHDATE), old(emp.birthdate.Value()));
      && ret == (if salary.err != NoError then salary.err else bd.err)
      && emp.salary == (if salary.err != NoError then old(emp.salary) else salary.value)
      && emp.birthdate.Value() == (if salary.err != NoError then old(emp.birthdate.Value()) else bd.out)
  {
    var salaryV := MapFindValue(v, KEY_SALARY);
    var salary := GetDouble(salaryV);
    if salary.err != NoError {
      ret := GetDouble(salaryV).err;
      return;
    }
    emp.salary := salary.value;
    var birthdateV := MapFindValue(v, KEY_BIRTHDATE);
    ghost var before := emp.birthdate.Value();
    ret := GetBirthdate(birthdateV, emp.birthdate);
    if ret != NoError {
      DecodeBirthdateTwice(birthdateV, before);
      ret := GetBirthdate(birthdateV, emp.birthdate);
    }
  }

  /** `cbor_value_get_employee(it, emp)`: the record and the code are those
      `DecodeEmployee` gives for the current item, and the iterator moves past
      the map only on success. */
  method GetEmployee(it: CborValue, emp: EmployeeRecord) returns (ret: CborError)
    requires emp.Valid()
    modifies it, emp, emp.name, emp.birthdate
    ensures Decoded(ret, emp.Value()) == DecodeEmployee(old(it.Current()), old(emp.Value()))
    ensures it.items == if ret == NoError then old(it.items)[1..] else old(it.items)
  {
    var v := it.Current();
    if !IsMap(v) {
      return ImproperValue;
    }
    ret := GetName(MapFindValue(v.value, KEY_NAME), emp.name);
    if ret != NoError {
      return;
    }
    ret := GetSalaryAndBirthdate(v.value, emp);
    if ret == NoError {
      it.Advance();
    }
  }

  // ---- the encoders ---------------------------------------------------------

  /** The bytes `cbor_encode_birthdate` writes for `b`, call by call; by
      `BirthdateBytes` they are the serialisation of `BirthdateItem(b)`. */
  function BirthdateEncoding(b: Birthdate): seq<byte>
  {
    Head(MAJOR_MAP, 3)
    + TextBytes(KEY_DAY) + Head(MAJOR_UINT, ToUint64(b.day))
    + TextBytes(KEY_MONTH) + Head(MAJOR_UINT, ToUint64(b.month))
    + TextBytes(KEY_YEAR) + Head(MAJOR_UINT, ToUint64(b.year))
  }

  /** The bytes `cbor_encode_employee` writes for `e`, call by call; by
      `EmployeeBytes` they are the serialisation of `EmployeeItem(e)`. */
  function EmployeeEncoding(e: Employee): seq<byte>
    requires |e.name| == NAME_SIZE
  {
    Head(MAJOR_MAP, 3)
    + TextBytes(KEY_NAME) + TextBytes(CString(e.name))
    + TextBytes(KEY_SALARY) + DoubleBytes(e.salary)
    + TextBytes(KEY_BIRTHDATE) + BirthdateEncoding(e.birthdate)
  }

  /** The container encoder `enc` has written `acc` at `at` into what was
      `b0`, without running out of room before `end`. */
  ghost predicate Wrote(enc: CborEncoder, b0: seq<byte>, at: nat, end: nat, acc: seq<byte>)
    reads enc, enc.buf
  {
    && enc.Valid() && !enc.overflowed && enc.end == end && |b0| == enc.buf.Length
    && enc.ptr == at + |acc| && enc.buf[..] == Splice(b0, at, acc)
  }

  /** `CBOR_MAP_ERR(cbor_encode_text_stringz(attr, s), err)` in the middle of
      writing `data`: on success `attr` has written the text string as well;
      on failure the call was made twice and the buffer holds a prefix of `data`,
      which does not fit. */
  method MapErrText(attr: CborEncoder, s: seq<byte>, ghost b0: seq<byte>, ghost at: nat,
                    ghost acc: seq<byte>, ghost data: seq<byte>) returns (err: CborError)
    requires |s| < TWO_64 && Wrote(attr, b0, at, attr.end, acc) && acc + TextBytes(s) <= data
    modifies attr, attr.buf
    ensures attr.end == old(attr.end) && (err == NoError || err == OutOfMemory)
    ensures err == NoError ==> Wrote(attr, b0, at, attr.end, acc + TextBytes(s))
                               && attr.needed == old(attr.needed) && attr.remaining == Dec(old(attr.remaining))
    ensures err != NoError ==> PrefixWritten(b0, attr.buf[..], at, attr.end, data) && at + |data| > attr.end
  {
    ghost var b1 := attr.buf[..];
    err := attr.EncodeTextStringz(s);
    if err == NoError {
      SpliceTwice(b0, at, acc, TextBytes(s));
      return;
    }
    ghost var headFits := at + |acc| + |Head(MAJOR_TEXT, |s|)| <= attr.end;
    TextFailed(b0, at, attr.end, acc, Head(MAJOR_TEXT, |s|), s, data, headFits);
    err := attr.EncodeTextStringz(s);
  }

  /** `CBOR_MAP_ERR(cbor_encode_uint(attr, value), err)` in the middle of writing `data`. */
  method MapErrUint(attr: CborEncoder, value: uint64, ghost b0: seq<byte>, ghost at: nat,
                    ghost acc: seq<byte>, ghost data: seq<byte>) returns (err: CborError)
    requires Wrote(attr, b0, at, attr.end, acc) && acc + Head(MAJOR_UINT, value) <= data
    modifies attr, attr.buf
    ensures attr.end == old(attr.end) && (err == NoError || err == OutOfMemory)
    ensures err == NoError ==> Wrote(attr, b0, at, attr.end, acc + Head(MAJOR_UINT, value))
                               && attr.needed == old(attr.needed) && attr.remaining == Dec(old(attr.remaining))
    ensures err != NoError ==> PrefixWritten(b0, attr.buf[..], at, attr.end, data) && at + |data| > attr.end
  {
    err := attr.EncodeUint(value);
    if err == NoError {
      SpliceTwice(b0, at, acc, Head(MAJOR_UINT, value));
      return;
    }
    AppendFailed(b0, at, attr.end, acc, Head(MAJOR_UINT, value), data);
    err := attr.EncodeUint(value);
  }

  /** `CBOR_MAP_ERR(cbor_encode_double(attr, value), err)` in the middle of writing `data`. */
  method MapErrDouble(attr: CborEncoder, bits: uint64, ghost b0: seq<byte>, ghost at: nat,
                      ghost acc: seq<byte>, ghost data: seq<byte>) returns (err: CborError)
    requires Wrote(attr, b0, at, attr.end, acc) && acc + DoubleBytes(bits) <= data
    modifies attr, attr.buf
    ensures attr.end == old(attr.end) && (err == NoError || err == OutOfMemory)
    ensures err == NoError ==> Wrote(attr, b0, at, attr.end, acc + DoubleBytes(bits))
                               && attr.needed == old(attr.needed) && attr.remaining == Dec(old(attr.remaining))
    ensures err != NoError ==> PrefixWritten(b0, attr.buf[..], at, attr.end, data) && at + |data| > attr.end
  {
    err := attr.EncodeDouble(bits);
    if err == NoError {
      SpliceTwice(b0, at, acc, DoubleBytes(bits));
      return;
    }
    AppendFailed(b0, at, attr.end, acc, DoubleBytes(bits), data);
    err := attr.EncodeDouble(bits);
  }

  /** The two `CBOR_MAP_ERR` lines that write one entry of the birthdate map:
      the key `key` and the unsigned integer `value`. */
  method MapErrUintEntry(attr: CborEncoder, key: seq<byte>, value: uint64, ghost b0: seq<byte>,
                         ghost at: nat, ghost acc: seq<byte>, ghost data: seq<byte>) returns (err: CborError)
    requires |key| < TWO_64 && Wrote(attr, b0, at, attr.end, acc)
    requires acc + TextBytes(key) + Head(MAJOR_UINT, value) <= data
    modifies attr, attr.buf
    ensures attr.end == old(attr.end) && (err == NoError || err == OutOfMemory)
    ensures err == NoError ==> Wrote(attr, b0, at, attr.end, acc + TextBytes(key) + Head(MAJOR_UINT, value))
                               && attr.needed == old(attr.needed) && attr.remaining == Dec(Dec(old(attr.remaining)))
    ensures err != NoError ==> PrefixWritten(b0, attr.buf[..], at, attr.end, data) && at + |data| > attr.end
  {
    assert acc + TextBytes(key) <= data;
    err := MapErrText(attr, key, b0, at, acc, data);
    if err != NoError {
      return;
    }
    err := MapErrUint(attr, value, b0, at, acc + TextBytes(key), data);
  }

  /** The six `CBOR_MAP_ERR` lines of `cbor_encode_birthdate` between opening
      and closing the map: on success the container has written the whole map
      and counted six items. */
  method WriteBirthdateEntries(attr: CborEncoder, b: Birthdate, ghost b0: seq<byte>, ghost at: nat)
      returns (err: CborError)
    requires Wrote(attr, b0, at, attr.end, Head(MAJOR_MAP, 3))
    modifies attr, attr.buf
    ensures var data := BirthdateEncoding(b);
      && attr.end == old(attr.end) && (err == NoError || err == OutOfMemory)
      && (err == NoError ==> Wrote(attr, b0, at, attr.end, data) && attr.needed == old(attr.needed)
                             && attr.remaining == Dec(Dec(Dec(Dec(Dec(Dec(old(attr.remaining))))))))
      && (err != NoError ==> PrefixWritten(b0, attr.buf[..], at, attr.end, data) && at + |data| > attr.end)
  {
    ghost var data := BirthdateEncoding(b);
    ghost var acc := Head(MAJOR_MAP, 3);
    err := MapErrUintEntry(attr, KEY_DAY, ToUint64(b.day), b0, at, acc, data);
    if err == NoError {
      acc := acc + TextBytes(KEY_DAY) + Head(MAJOR_UINT, ToUint64(b.day));
      err := MapErrUintEntry(attr, KEY_MONTH, ToUint64(b.month), b0, at, acc, data);
      if err == NoError {
        acc := acc + TextBytes(KEY_MONTH) + Head(MAJOR_UINT, ToUint64(b.month));
        err := MapErrUintEntry(attr, KEY_YEAR, ToUint64(b.year), b0, at, acc, data);
      }
    }
  }

  /** `cbor_encode_birthdate(it, b)`: when `it` has room for the whole map it
      is written at the pointer, which moves past it, and the parent counts one
      item. Otherwise the result is `OutOfMemory`, `it` keeps its pointer and
      overflow state, the buffer holds some prefix of the map's bytes, and the
      parent has counted the item twice if `CBOR_MAP_ERR` repeated the failing
      `cbor_encoder_create_map`. */
  method EncodeBirthdate(it: CborEncoder, b: Birthdate) returns (ret: CborError)
    requires it.Valid()
    modifies it, it.buf
    ensures var enc := BirthdateEncoding(b);
      var fits := !old(it.overflowed) && old(it.ptr) + |enc| <= it.end;
      var headFits := !old(it.overflowed) && old(it.ptr) + 1 <= it.end;
      && it.Valid() && it.end == old(it.end)
      && (ret == if fits then NoError else OutOfMemory)
      && (fits ==> it.ptr == old(it.ptr) + |enc| && !it.overflowed && it.needed == old(it.needed)
                   && it.remaining == Dec(old(it.remaining))
                   && it.buf[..] == Splice(old(it.buf[..]), old(it.ptr), enc))
      && (!fits ==> it.ptr == old(it.ptr) && it.overflowed == old(it.overflowed) && it.needed == old(it.needed)
                    && it.remaining == (if headFits then Dec(old(it.remaining)) else Dec(Dec(old(it.remaining))))
                    && PrefixWritten(old(it.buf[..]), it.buf[..], old(it.ptr), it.end, enc))
  {
    ghost var b0, p0, e0 := it.buf[..], it.ptr, it.end;
    ghost var enc := BirthdateEncoding(b);
    var attr := new CborEncoder.Blank(it.buf);
    ret := it.CreateMap(attr, 3);
    if ret != NoError {
      ret := it.CreateMap(attr, 3);
      SpliceNothing(b0, p0);
      PrefixWrittenAt(b0, p0, e0, enc, 0);
      return;
    }
    ret := WriteBirthdateEntries(attr, b, b0, p0);
    if ret == NoError {
      // cannot fail: six items went into the map of three pairs and nothing overflowed
      ret := it.CloseContainer(attr);
    }
  }

  /** `CBOR_MAP_ERR` on two text strings in turn: one entry of the employee map. */
  method MapErrTextEntry(attr: CborEncoder, key: seq<byte>, value: seq<byte>, ghost b0: seq<byte>,
                         ghost at: nat, ghost acc: seq<byte>, ghost data: seq<byte>) returns (err: CborError)
    requires |key| < TWO_64 && |value| < TWO_64 && Wrote(attr, b0, at, attr.end, acc)
    requires acc + TextBytes(key) + TextBytes(value) <= data
    modifies attr, attr.buf
    ensures attr.end == old(attr.end) && (err == NoError || err == OutOfMemory)
    ensures err == NoError ==> Wrote(attr, b0, at, attr.end, acc + TextBytes(key) + TextBytes(value))
                               && attr.needed == old(attr.needed) && attr.remaining == Dec(Dec(old(attr.remaining)))
    ensures err != NoError ==> PrefixWritten(b0, attr.buf[..], at, attr.end, data) && at + |data| > attr.end
  {
    assert acc + TextBytes(key) <= data;
    err := MapErrText(attr, key, b0, at, acc, data);
    if err != NoError {
      return;
    }
    err := MapErrText(attr, value, b0, at, acc + TextBytes(key), data);
  }

  /** `CBOR_MAP_ERR` on a text string and then a double: the salary entry. */
  method MapErrDoubleEntry(attr: CborEncoder, key: seq<byte>, bits: uint64, ghost b0: seq<byte>,
                           ghost at: nat, ghost acc: seq<byte>, ghost data: seq<byte>) returns (err: CborError)
    requires |key| < TWO_64 && Wrote(attr, b0, at, attr.end, acc)
    requires acc + TextBytes(key) + DoubleBytes(bits) <= data
    modifies attr, attr.buf
    ensures attr.end == old(attr.end) && (err == NoError || err == OutOfMemory)
    ensures err == NoError ==> Wrote(attr, b0, at, attr.end, acc + TextBytes(key) + DoubleBytes(bits))
                               && attr.needed == old(attr.needed) && attr.remaining == Dec(Dec(old(attr.remaining)))
    ensures err != NoError ==> PrefixWritten(b0, attr.buf[..], at, attr.end, data) && at + |data| > attr.end
  {
    assert acc + TextBytes(key) <= data;
    err := MapErrText(attr, key, b0, at, acc, data);
    if err != NoError {
      return;
    }
    err := MapErrDouble(attr, bits, b0, at, acc + TextBytes(key), data);
  }

  /** `CBOR_MAP_ERR(cbor_encode_birthdate(attr, b), err)` in the middle of writing `data`. */
  method MapErrBirthdate(attr: CborEncoder, b: Birthdate, ghost b0: seq<byte>, ghost at: nat,
                         ghost acc: seq<byte>, ghost data: seq<byte>) returns (err: CborError)
    requires Wrote(attr, b0, at, attr.end, acc) && acc + BirthdateEncoding(b) <= data
    modifies attr, attr.buf
    ensures attr.end == old(attr.end) && (err == NoError || err == OutOfMemory)
    ensures err == NoError ==> Wrote(attr, b0, at, attr.end, acc + BirthdateEncoding(b))
                               && attr.needed == old(attr.needed) && attr.remaining == Dec(old(attr.remaining))
    ensures err != NoError ==> PrefixWritten(b0, attr.buf[..], at, attr.end, data) && at + |data| > attr.end
  {
    ghost var inner := BirthdateEncoding(b);
    ghost var b1 := attr.buf[..];
    err := EncodeBirthdate(attr, b);
    if err == NoError {
      SpliceTwice(b0, at, acc, inner);
      return;
    }
    ghost var b2 := attr.buf[..];
    err := EncodeBirthdate(attr, b);
    PrefixWrittenTwice(b1, b2, attr.buf[..], at + |acc|, attr.end, inner);
    PrefixWrittenAfter(b0, attr.buf[..], at, attr.end, acc, inner, data);
  }

  /** `CBOR_MAP_ERR` on the key and then on `cbor_encode_birthdate`: the
      birthdate entry of the employee map. */
  method MapErrBirthdateEntry(attr: CborEncoder, key: seq<byte>, b: Birthdate, ghost b0: seq<byte>,
                              ghost at: nat, ghost acc: seq<byte>, ghost data: seq<byte>) returns (err: CborError)
    requires |key| < TWO_64 && Wrote(attr, b0, at, attr.end, acc)
    requires acc + TextBytes(key) + BirthdateEncoding(b) <= data
    modifies attr, attr.buf
    ensures attr.end == old(attr.end) && (err == NoError || err == OutOfMemory)
    ensures err == NoError ==> Wrote(attr, b0, at, attr.end, acc + TextBytes(key) + BirthdateEncoding(b))
                               && attr.needed == old(attr.needed) && attr.remaining == Dec(Dec(old(attr.remaining)))
    ensures err != NoError ==> PrefixWritten(b0, attr.buf[..], at, attr.end, data) && at + |data| > attr.end
  {
    assert acc + TextBytes(key) <= data;
    err := MapErrText(attr, key, b0, at, acc, data);
    if err != NoError {
      return;
    }
    err := MapErrBirthdate(attr, b, b0, at, acc + TextBytes(key), data);
  }

  /** The first four `CBOR_MAP_ERR` lines of `cbor_encode_employee` after
      opening the map: the name and salary entries. */
  method WriteNameAndSalary(attr: CborEncoder, name: seq<byte>, salary: uint64, ghost b0: seq<byte>,
                            ghost at: nat, ghost data: seq<byte>) returns (err: CborError)
    requires |name| < TWO_64 && Wrote(attr, b0, at, attr.end, Head(MAJOR_MAP, 3))
    requires Head(MAJOR_MAP, 3) + TextBytes(KEY_NAME) + TextBytes(name) + TextBytes(KEY_SALARY) + DoubleBytes(salary) <= data
    modifies attr, attr.buf
    ensures attr.end == old(attr.end) && (err == NoError || err == OutOfMemory)
    ensures err == NoError ==>
      && Wrote(attr, b0, at, attr.end,
               Head(MAJOR_MAP, 3) + TextBytes(KEY_NAME) + TextBytes(name) + TextBytes(KEY_SALARY) + DoubleBytes(salary))
      && attr.needed == old(attr.needed) && attr.remaining == Dec(Dec(Dec(Dec(old(attr.remaining)))))
    ensures err != NoError ==> PrefixWritten(b0, attr.buf[..], at, attr.end, data) && at + |data| > attr.end
  {
    ghost var acc := Head(MAJOR_MAP, 3);
    assert acc + TextBytes(KEY_NAME) + TextBytes(name) <= data;
    err := MapErrTextEntry(attr, KEY_NAME, name, b0, at, acc, data);
    if err != NoError { return; }
    acc := acc + TextBytes(KEY_NAME) + TextBytes(name);
    err := MapErrDoubleEntry(attr, KEY_SALARY, salary, b0, at, acc, data);
  }

  /** `cbor_encode_employee(it, e)`, for a record whose name holds a NUL: when
      `it` has room for the whole map it is written at the pointer, which moves
      past it. Otherwise the result is `OutOfMemory`, `it` keeps its pointer and
      overflow state, and the buffer holds some prefix of the map's bytes. */
  method EncodeEmployee(it: CborEncoder, e: Employee) returns (ret: CborError)
    requires it.Valid() && |e.name| == NAME_SIZE && 0 in e.name
    modifies it, it.buf
    ensures var enc := EmployeeEncoding(e);
      var fits := !old(it.overflowed) && old(it.ptr) + |enc| <= it.end;
      var headFits := !old(it.overflowed) && old(it.ptr) + 1 <= it.end;
      && it.Valid() && it.end == old(it.end)
      && (ret == if fits then NoError else OutOfMemory)
      && (fits ==> it.ptr == old(it.ptr) + |enc| && !it.overflowed && it.needed == old(it.needed)
                   && it.remaining == Dec(old(it.remaining))
                   && it.buf[..] == Splice(old(it.buf[..]), old(it.ptr), enc))
      && (!fits ==> it.ptr == old(it.ptr) && it.overflowed == old(it.overflowed) && it.needed == old(it.needed)
                    && it.remaining == (if headFits then Dec(old(it.remaining)) else Dec(Dec(old(it.remaining))))
                    && PrefixWritten(old(it.buf[..]), it.buf[..], old(it.ptr), it.end, enc))
  {
    ghost var b0, p0, e0 := it.buf[..], it.ptr, it.end;
    ghost var enc := EmployeeEncoding(e);
    var attr := new CborEncoder.Blank(it.buf);
    ret := it.CreateMap(attr, 3);
    if ret != NoError {
      ret := it.CreateMap(attr, 3);
      SpliceNothing(b0, p0);
      PrefixWrittenAt(b0, p0, e0, enc, 0);
      return;
    }
    ghost var prefix := Head(MAJOR_MAP, 3) + TextBytes(KEY_NAME) + TextBytes(CString(e.name))
                        + TextBytes(KEY_SALARY) + DoubleBytes(e.salary);
    ret := WriteNameAndSalary(attr, CString(e.name), e.salary, b0, p0, enc);
    if ret == NoError {
      ret := MapErrBirthdateEntry(attr, KEY_BIRTHDATE, e.birthdate, b0, p0, prefix, enc);
      if ret == NoError {
        // cannot fail: six items went into the map of three pairs and nothing overflowed
        ret := it.CloseContainer(attr);
      }
    }
  }

  /** `employee_toCBOR(e, buf, len)`: the size of the encoding when it fits in
      `len` bytes, with the encoding at the front of `buf` and the rest of the
      buffer untouched; 0 otherwise, when only some prefix of the encoding has
      been written. */
  method EmployeeToCbor(e: Employee, buf: array<byte>, len: nat) returns (size: nat)
    requires |e.name| == NAME_SIZE && 0 in e.name && len <= buf.Length
    modifies buf
    ensures var enc := EmployeeEncoding(e);
      && (|enc| <= len ==> size == |enc| && buf[..size] == enc && buf[size..] == old(buf[size..]))
      && (|enc| > len ==> size == 0 && PrefixWritten(old(buf[..]), buf[..], 0, len, enc))
  {
    var encoder := new CborEncoder.Init(buf, len);
    var _ := EncodeEmployee(encoder, e);
    size := encoder.BufferSize();
  }
}
