# Employee CBOR codec and REST request handling, modelled in Dafny

This project models two parts of an ESP32 REST server that exchanges employee records.

**The employee codec** (`components/employee_utils`):
- `struct employee` holds a 256-byte name, a `double` salary and a `struct birthdate` of three `int` fields.
- `cbor_value_get_employee` and `cbor_value_get_birthdate` read a record from a parsed CBOR item.
- `cbor_encode_employee`, `cbor_encode_birthdate` and `employee_toCBOR` write a record as CBOR (RFC 8949) into a byte buffer.

The encoding is a map of three entries (`name`, `salary`, `birthdate`). The birthdate is a map of three entries (`day`, `month`, `year`). All heads use the shortest argument encoding; the salary is a binary64 float (major type 7, additional information 27). All steps go through the `CBOR_MAP_ERR` macro. On failure the macro evaluates its argument a second time, and the model makes that second call too.

**The request handling** (`main/rest_server.c`):
- the content type chosen from a file's extension;
- the path of a static file;
- the body-length guard and the receive loop shared by the POST handlers;
- the field-by-field validation of a JSON employee request;
- the result handling of the CBOR employee POST handler;
- the example record served by the CBOR GET handler.

Files:
- `c_types.dfy` (`CTypes`): the C integer types of the target (32-bit `int` and `size_t`). Also the C-string functions the code relies on (`strlen`, ASCII `tolower`/`strcasecmp`, `strlcpy`, `strlcat`, `strncpy`), stated on values.
- `cbor.dfy` (`Cbor`): the CBOR items the record uses, the RFC 8949 serialiser with shortest heads, and a head parser with its round trip.
- `tinycbor.dfy` (`TinyCbor`): the TinyCBOR calls the codec makes, as specified operations.
  - The read side works over the item datatype: map lookup, typed getters, text copy, iterator.
  - The write side is a `CborEncoder` class on a shared byte array. It has TinyCBOR's write pointer, buffer end, overflow mode, byte count and item count.
- `employee.dfy` (`EmployeeUtils`):
  - the record as values and as the storage behind the out-pointers;
  - the decoders as methods, proved against the specification functions `DecodeBirthdate`/`DecodeEmployee`;
  - the encoders as methods, proved against the byte sequences `BirthdateEncoding`/`EmployeeEncoding`, which are the serialisation of the record's CBOR item.
- `json.dfy` (`CJson`): a JSON value (RFC 8259) and the cJSON lookup and type tests the validation uses.
- `rest_server.dfy` (`RestServer`): the request-handling pieces listed above.

What is a parameter rather than modelled:
- Each return of `httpd_req_recv` is a parameter: the bytes it wrote, or `[]` for a return value of 0 or less.
- `cJSON_Parse` is a function parameter from the received C string to a JSON value, or to `None` for NULL.
- `cbor_parser_init` is a function parameter from the received bytes to the items TinyCBOR finds.
- The uninitialised `struct employee` on the handler's stack is a parameter.
- The bytes after "John Doe" in the example record's name are a parameter.

Salary is carried as the 64-bit pattern of the `double` and is never interpreted.

C strings on the HTTP side (the base path, the file path, cJSON's `valuestring` and the name buffer of the JSON request) are Dafny `string`s with one `char` per byte. A JSON string is therefore the sequence of its UTF-8 bytes, and every length in those members (the 16-byte base path, the 143-byte file path, the 256-byte name buffer) counts bytes, as the C code does. The CBOR side uses `seq<byte>` directly.

Two facts about the code that are easy to misread:
- **Negative date fields.** They are written with `cbor_encode_uint`, so they go out on the wire as `2^64 + field` (`NegativeDateOnWire`), which other CBOR readers see as a large unsigned number. `cbor_value_get_int` cuts that back to the same 32-bit `int`, so this decoder gives them back (`BirthdateRoundTrip`).
- **Names.** The code puts no bound on the name it decodes and does not terminate it (see Findings). The decoder members below use the corrected copy, and each says so under "## Left out".

## Model

| member | source | states |
|---|---|---|
| CTypes.Wrap32 | main/rest_server.c:186 | the conversion of an unsigned length to `int` keeps the low 32 bits, as a two's-complement value |
| CTypes.ToUint64 | components/employee_utils/employee_utils.c:67 | an `int` passed as `uint64_t` is the one 64-bit unsigned value congruent to it modulo 2^64 (itself when non-negative, 2^64 + itself when negative) |
| CTypes.Wrap32ToUint64 | components/employee_utils/employee_utils.c:67 | converting an `int` to 64 bits and back to `int` gives the original value |
| CTypes.TakeUntil | components/employee_utils/employee_utils.c:85 | what `strlen` sees is a NUL-free prefix of the buffer that ends at the first NUL or at the end |
| CTypes.TakeUntilTerminated | main/rest_server.c:302 | the bytes after a NUL never reach the C string |
| CTypes.EqualIgnoreCaseLower | main/rest_server.c:44 | two strings match under `strcasecmp` exactly when their lower-cased forms are equal |
| CTypes.StrlCpy | main/rest_server.c:72 | `strlcpy` leaves a prefix of the source shorter than the size. It leaves the whole source when it fits; otherwise size - 1 characters |
| CTypes.StrlCat | main/rest_server.c:74-76 | `strlcat` leaves a prefix of the concatenation shorter than the size. It leaves all of it when it fits; otherwise size - 1 characters |
| CTypes.StrNCpy | main/rest_server.c:210 | `strncpy` leaves exactly n characters: the source then NUL padding, or the first n characters without a terminator |
| Cbor.Head | components/employee_utils/employee_utils.c:65-71 | a head is one initial byte plus the shortest argument encoding |
| Cbor.ArgumentSizeFits | components/employee_utils/employee_utils.c:67 | the argument fits in the bytes the shortest head gives it |
| Cbor.BigEndianRoundTrip | components/employee_utils/employee_utils.c:67 | reading back an n-byte big-endian argument gives the value |
| Cbor.ParseHead | components/employee_utils/employee_utils.c:65-71 | a parsed head has a major type below 8 and lies within the input |
| Cbor.HeadRoundTrip | components/employee_utils/employee_utils.c:65-71 | parsing a written head gives back its major type, additional information, argument and length |
| Cbor.Float64HeadRoundTrip | components/employee_utils/employee_utils.c:87 | 0xFB and eight big-endian bytes parse as major type 7, additional information 27, with the salary bits as argument |
| Cbor.SerializeMap3 | components/employee_utils/employee_utils.c:83-89 | a map of three entries serialises as its head followed by the keys and values in order |
| TinyCbor.FindValue | components/employee_utils/employee_utils.c:14-20 | a lookup finds a value exactly when an entry has that text key, and then it is the first such entry's value |
| TinyCbor.FindValueMember | components/employee_utils/employee_utils.c:36-46 | with unique keys a lookup gives v exactly when the entry (key, v) is present |
| TinyCbor.FindValuePermutation | components/employee_utils/employee_utils.c:36-46 | with unique keys the order of the entries does not change a lookup |
| TinyCbor.FindValue3 | components/employee_utils/employee_utils.c:36-46 | the lookup in a three-entry map tries the entries in order |
| TinyCbor.FindValueAppend | components/employee_utils/employee_utils.c:36-46 | entries after the first match do not change a lookup |
| TinyCbor.GetStringLength | components/employee_utils/employee_utils.c:38 | succeeds exactly on a text string and gives its length; anything else is `IllegalType` |
| TinyCbor.GetDouble | components/employee_utils/employee_utils.c:43 | succeeds exactly on a binary64 item and gives its bits; anything else is `IllegalType` |
| TinyCbor.GetInt | components/employee_utils/employee_utils.c:15-21 | succeeds exactly on an integer item and gives a value equal to it modulo 2^32; anything else is `IllegalType` |
| TinyCbor.GetIntInRange | components/employee_utils/employee_utils.c:15-21 | an integer in `int` range comes back unchanged |
| TinyCbor.CopyTextString | components/employee_utils/employee_utils.c:39 | the result is `OutOfMemory` exactly when the text is longer than the capacity, and then nothing is written. A text that fits is copied to the front, followed by a NUL when it is shorter than the capacity, and the bytes after that are unchanged. `None` exactly when that write leaves the buffer |
| TinyCbor.CopyTextStringTo | components/employee_utils/employee_utils.c:39 | the array and the code are exactly what `CopyTextString` gives |
| TinyCbor.CborValue.Current | components/employee_utils/employee_utils.c:31 | the iterator's item is the first remaining one, or the invalid element at the end |
| TinyCbor.CborValue.Advance | components/employee_utils/employee_utils.c:48 | advancing drops exactly the current item |
| TinyCbor.CborEncoder.Append | components/employee_utils/employee_utils.c:66-71 | if the data fits before the end, it is written at the pointer and only there. Otherwise nothing is written, overflow mode starts and the missing bytes are counted |
| TinyCbor.CborEncoder.EncodeUint | components/employee_utils/employee_utils.c:67 | appends the shortest unsigned head of the value and counts one item |
| TinyCbor.CborEncoder.EncodeDouble | components/employee_utils/employee_utils.c:87 | appends 0xFB and the eight bytes of the bits and counts one item |
| TinyCbor.CborEncoder.EncodeTextStringz | components/employee_utils/employee_utils.c:84-88 | appends head and characters. When the characters do not fit, the head may still have been written, and the result is `OutOfMemory` |
| TinyCbor.CborEncoder.CreateMap | components/employee_utils/employee_utils.c:65 | the container takes over pointer and overflow state, expects 2 × length items and receives the map head. The parent counts one item |
| TinyCbor.CborEncoder.CloseContainer | components/employee_utils/employee_utils.c:72 | the parent takes the container's pointer back. The result is `TooManyItems`/`TooFewItems` for a wrong item count, `OutOfMemory` in overflow mode, and otherwise `NoError` |
| TinyCbor.CborEncoder.Init | components/employee_utils/employee_utils.c:101 | a fresh encoder writes from the start of the buffer up to `len` |
| TinyCbor.CborEncoder.Blank | components/employee_utils/employee_utils.c:64 | the uninitialised container `CborEncoder attr` on a given buffer, before `cbor_encoder_create_map` fills it in |
| TinyCbor.CborEncoder.BufferSize | components/employee_utils/employee_utils.c:103 | `cbor_encoder_get_buffer_size` outside overflow mode is the number of bytes written, the pointer's offset from the start of the buffer |
| TinyCbor.PrefixWrittenTwice | components/employee_utils/include/employee_utils.h:7-9 | two partial writes of the same data leave a partial write of it, so repeating a failed call keeps the prefix property |
| EmployeeUtils.CString | components/employee_utils/employee_utils.c:85 | the name's C string has no NUL and is shorter than the buffer when the buffer holds a NUL |
| EmployeeUtils.Field | components/employee_utils/employee_utils.c:14 | only a map yields a field |
| EmployeeUtils.BirthdateItem | components/employee_utils/employee_utils.c:65-71 | the CBOR value of a birthdate: a map of `day`, `month` and `year`, in that order, each field converted to `uint64_t`. Its serialisation is stated by `BirthdateBytes` |
| EmployeeUtils.EmployeeItem | components/employee_utils/employee_utils.c:83-89 | the CBOR value of a record: a map of `name` (the name's C string), `salary` (a binary64) and `birthdate`, in that order. Its serialisation is stated by `EmployeeBytes` |
| EmployeeUtils.BirthdateBytes | components/employee_utils/employee_utils.c:65-72 | the birthdate encoding is its map head and the three key/value pairs in the order of the calls |
| EmployeeUtils.EmployeeBytes | components/employee_utils/employee_utils.c:83-90 | the employee encoding is its map head followed by name, salary and birthdate pairs in the order of the calls |
| EmployeeUtils.DecodeBirthdate | components/employee_utils/employee_utils.c:6-25 | succeeds exactly on a map with integers under day, month and year. A non-map is `ImproperValue` with nothing written; other failures are `IllegalType` |
| EmployeeUtils.DecodeBirthdatePartial | components/employee_utils/employee_utils.c:14-21 | the fields are stored day, then month, then year, and each earlier field stays stored when a later one fails |
| EmployeeUtils.DecodeBirthdateTwice | components/employee_utils/include/employee_utils.h:7-9 | repeating the failed birthdate decode, as the macro does, gives the same code and record |
| EmployeeUtils.CopyName | components/employee_utils/employee_utils.c:37-39 | the corrected copy refuses 256 bytes or more with `OutOfMemory` and writes nothing. It copies a shorter text with its NUL and leaves the rest of the buffer |
| EmployeeUtils.CopyNameAsWritten | components/employee_utils/employee_utils.c:37-39 | with `buflen` equal to the text's length, a text over 256 bytes writes past the buffer and a fitting one is copied without a NUL |
| EmployeeUtils.NameCopyOverflowsAsWritten | components/employee_utils/employee_utils.c:37-39 | as written, a name of more than 256 bytes is written past `emp->name` |
| EmployeeUtils.NameCopyUnterminatedAsWritten | components/employee_utils/employee_utils.c:37-39 | as written, a copy that fits adds no NUL, so the buffer can be left with none |
| EmployeeUtils.NameCopyUnterminatedExample | components/employee_utils/employee_utils.c:39 | "Bob" copied over a buffer of 'A's leaves no NUL in the name |
| EmployeeUtils.CopyNameTerminated | components/employee_utils/employee_utils.c:37-39 | with the correction, a NUL-free text under 256 bytes is read back exactly as the name's C string |
| EmployeeUtils.DecodeName | components/employee_utils/employee_utils.c:35-39 | with the corrected copy, the name step succeeds exactly on a text under 256 bytes and then holds the copy. Otherwise the buffer is unchanged; the code is `OutOfMemory` for a long text and `IllegalType` for a non-text |
| EmployeeUtils.DecodeEmployee | components/employee_utils/employee_utils.c:28-33 | a non-map is `ImproperValue` at once with the record unchanged |
| EmployeeUtils.DecodeEmployeeSucceeds | components/employee_utils/employee_utils.c:28-52 | with the corrected name copy, decoding gives `NoError` exactly when the item has the accepted shape: map, short text name, double salary, integer date fields |
| EmployeeUtils.DecodeEmployeeFields | components/employee_utils/employee_utils.c:36-47 | with the corrected name copy, on success the name's C string is the text, the salary is the double's bits and each date field equals the integer modulo 2^32 |
| EmployeeUtils.DecodeEmployeeAccepted | components/employee_utils/employee_utils.c:36-49 | on an accepted item the record is exactly the name as the corrected copy leaves it, the salary bits and the decoded birthdate |
| EmployeeUtils.NameFailureWritesNothing | components/employee_utils/employee_utils.c:36-39 | a failing name step leaves the record untouched |
| EmployeeUtils.SalaryFailureKeepsName | components/employee_utils/employee_utils.c:39-43 | a failing salary step keeps the copied name and changes nothing else |
| EmployeeUtils.BirthdateFailureKeepsEarlierFields | components/employee_utils/employee_utils.c:39-47 | a failing birthdate step returns its code and keeps name, salary and the date fields already stored |
| EmployeeUtils.DecodeEmployeeOrderIndependent | components/employee_utils/employee_utils.c:36-46 | with unique keys, reordering the outer map's entries does not change the result |
| EmployeeUtils.DecodeBirthdateOrderIndependent | components/employee_utils/employee_utils.c:14-20 | with unique keys, reordering the birthdate map's entries does not change the result |
| EmployeeUtils.DecodeEmployeeIgnoresLaterEntries | components/employee_utils/employee_utils.c:36-46 | entries after the three keys do not change the result |
| EmployeeUtils.BirthdateRoundTrip | components/employee_utils/employee_utils.c:15-21 | decoding the birthdate map the encoder writes gives the date back, negative fields included |
| EmployeeUtils.EmployeeRoundTrip | components/employee_utils/employee_utils.c:28-52 | with the corrected name copy, decoding the employee map gives `NoError`, the same name C string, the same salary bits and the same date |
| EmployeeUtils.NegativeDateOnWire | components/employee_utils/employee_utils.c:67 | a negative day is on the wire as the unsigned integer 2^64 + day, which is not the day |
| EmployeeUtils.BirthdateRecord.constructor | components/employee_utils/include/employee_utils.h:13-17 | the storage holds the given date |
| EmployeeUtils.EmployeeRecord.constructor | components/employee_utils/include/employee_utils.h:19-23 | the storage holds the given record in a fresh 256-byte name array |
| EmployeeUtils.GetBirthdate | components/employee_utils/employee_utils.c:6-25 | the code and the stored date are exactly `DecodeBirthdate` of the item and the old date |
| EmployeeUtils.GetName | components/employee_utils/employee_utils.c:35-39 | the code and the name array are exactly `DecodeName` of the value and the old array, so the copy is the corrected one |
| EmployeeUtils.GetSalaryAndBirthdate | components/employee_utils/employee_utils.c:41-47 | a salary that is not a double is returned with nothing stored. Otherwise the salary is stored and the birthdate code and date are those of `DecodeBirthdate` |
| EmployeeUtils.GetEmployee | components/employee_utils/employee_utils.c:28-52 | the code and the record are exactly `DecodeEmployee` of the current item and the old record. The iterator moves past the item only on `NoError` |
| EmployeeUtils.MapErrText | components/employee_utils/include/employee_utils.h:6-11 | on success the text is appended; on failure, after the repeated call, a prefix of the encoding is in the buffer and the encoding does not fit |
| EmployeeUtils.MapErrUint | components/employee_utils/include/employee_utils.h:6-11 | the same for an unsigned integer |
| EmployeeUtils.MapErrDouble | components/employee_utils/include/employee_utils.h:6-11 | the same for a double |
| EmployeeUtils.MapErrUintEntry | components/employee_utils/employee_utils.c:66-71 | a key and an unsigned value, with the first failure ending the sequence |
| EmployeeUtils.MapErrTextEntry | components/employee_utils/employee_utils.c:84-85 | a key and a text value, with the first failure ending the sequence |
| EmployeeUtils.MapErrDoubleEntry | components/employee_utils/employee_utils.c:86-87 | a key and a double value, with the first failure ending the sequence |
| EmployeeUtils.MapErrBirthdate | components/employee_utils/employee_utils.c:89 | the nested birthdate map, encoded twice on failure, is appended or left as a prefix |
| EmployeeUtils.MapErrBirthdateEntry | components/employee_utils/employee_utils.c:88-89 | the `birthdate` key and the nested map |
| EmployeeUtils.WriteBirthdateEntries | components/employee_utils/employee_utils.c:66-71 | the six writes of the birthdate map leave exactly `BirthdateEncoding` in place, or a prefix of it that does not fit |
| EmployeeUtils.WriteNameAndSalary | components/employee_utils/employee_utils.c:84-87 | the name and salary pairs are appended, or a prefix of the encoding is left |
| EmployeeUtils.BirthdateEncoding | components/employee_utils/employee_utils.c:65-71 | the bytes of the birthdate calls, one piece per call; `BirthdateBytes` proves them equal to the serialisation of `BirthdateItem` |
| EmployeeUtils.EmployeeEncoding | components/employee_utils/employee_utils.c:83-89 | the bytes of the employee calls, one piece per call; `EmployeeBytes` proves them equal to the serialisation of `EmployeeItem` |
| EmployeeUtils.EncodeBirthdate | components/employee_utils/employee_utils.c:61-77 | with room for the whole map it is written at the pointer, which moves past it, and one item is counted. Otherwise the result is `OutOfMemory`, the pointer stays and only a prefix of the map is in the buffer |
| EmployeeUtils.EncodeEmployee | components/employee_utils/employee_utils.c:79-95 | the same for the employee map, whose bytes are the serialisation of the record's item |
| EmployeeUtils.EmployeeToCbor | components/employee_utils/employee_utils.c:97-104 | returns the encoding's size with the encoding at the front of the buffer and the rest untouched when it fits. Otherwise it returns 0 and the buffer holds only a prefix of the encoding |
| CJson.FindMember | main/rest_server.c:208 | finds a member exactly when some name matches ignoring case, and then it is the first matching member's value |
| CJson.GetObjectItem | main/rest_server.c:208-229 | only an object yields a member |
| CJson.FindMemberIgnoresCase | main/rest_server.c:208 | keys that differ only in case find the same member |
| CJson.GetObjectItemIgnoresCase | main/rest_server.c:231-247 | the same for a lookup on any value |
| CJson.FindMemberFirstWins | main/rest_server.c:208 | members after the first match, duplicates included, are never seen |
| CJson.GetObjectItemNonObject | main/rest_server.c:206-209 | a lookup on a non-object, NULL included, is NULL |
| RestServer.RestContext.constructor | main/rest_server.c:332-334 | the context's base path is the argument cut by `strlcpy` to its 16-byte field, with a fresh 10240-byte scratch buffer |
| RestServer.CheckFileExtension | main/rest_server.c:44 | `CHECK_FILE_EXTENSION`: `strcasecmp` of the file name's last characters with the extension; `CheckFileExtensionIsSuffix` states it as a suffix test |
| RestServer.Lookup | main/rest_server.c:47-64 | the type is one of the table's types or "text/plain"; `LookupFirstMatch` and `LookupNoMatch` say which |
| RestServer.CheckFileExtensionIsSuffix | main/rest_server.c:44 | the extension test holds exactly when the lower-cased extension ends the lower-cased file name |
| RestServer.TailIgnoresCase | main/rest_server.c:44 | the extension test gives the same answer for names equal up to case |
| RestServer.LookupFirstMatch | main/rest_server.c:49-62 | the first row of the table whose extension matches decides the type |
| RestServer.LookupNoMatch | main/rest_server.c:49 | with no matching row the type is "text/plain" |
| RestServer.LookupIgnoresCase | main/rest_server.c:44-62 | paths equal up to case get the same type from a table |
| RestServer.ContentTypeIgnoresCase | main/rest_server.c:47-64 | paths equal up to case get the same content type |
| RestServer.ContentTypeOfEachExtension | main/rest_server.c:50-61 | ".html", ".js", ".css", ".png", ".ico" and ".svg" give text/html, application/javascript, text/css, image/png, image/x-icon and text/xml |
| RestServer.OwnRow | main/rest_server.c:50-61 | a path ending in a row's extension gets that row's type |
| RestServer.PathSuffix | main/rest_server.c:73-77 | what is appended to the base path: "/index.html" for a URI ending in '/', else the URI |
| RestServer.FilePath | main/rest_server.c:72-77 | the path has fewer than 143 characters and is a prefix of base path + suffix: "/index.html" for a URI ending in '/', else the URI. It is all of it when it fits; otherwise 142 characters |
| RestServer.DirectoryUriServesIndex | main/rest_server.c:73-74 | every URI ending in '/' gives base path + "/index.html", whatever precedes the '/' |
| RestServer.FilePathNotTruncated | main/rest_server.c:69-77 | a base path that fits its field and a URI under 128 characters are never cut |
| RestServer.StaticTarget | main/rest_server.c:72-86 | the file read is the built path, and its type is the content type of that path |
| RestServer.RecvLoop | main/rest_server.c:128-137 | a body is exactly `total_len` bytes and a prefix of what was received; the loop never reports too long |
| RestServer.Receive | main/rest_server.c:119-137 | with the guard on the unsigned length, a body of 10240 bytes or more is refused before any read. An accepted body has `content_len` bytes, so the terminator is inside the buffer |
| RestServer.ReceiveAsWritten | main/rest_server.c:119-137 | as written, lengths from 10240 up to 2^31 - 1 are refused, and every length of 2^31 or more passes the guard and writes the terminator outside the buffer |
| RestServer.BodyGuardWrapsAsWritten | main/rest_server.c:119-127 | as written, `content_len` 0xFFFFFFFF becomes `total_len` -1, passes the guard, and the terminator is written before the buffer |
| RestServer.ReceiveAsWrittenBelow2To31 | main/rest_server.c:119-127 | below 2^31 the guard as written and the corrected guard agree |
| RestServer.NoOverrunWhenRepliesFit | main/rest_server.c:128-136 | if each receive returns at most the remaining content, the loop stays in the buffer and the body is exactly the bytes received |
| RestServer.OverrunWithRequestedLength | main/rest_server.c:129 | two receives that each honour the requested `total_len` can run past the buffer |
| RestServer.ReceiveBody | main/rest_server.c:119-137 | the outcome is that of `Receive`, the corrected guard. On a body, the scratch buffer starts with the body followed by the NUL |
| RestServer.WriteAt | main/rest_server.c:129 | one receive writes its bytes at the offset and nothing else |
| RestServer.ReceiveError | main/rest_server.c:125-132 | a failed receipt is answered with status 500 |
| RestServer.NameBuffer | main/rest_server.c:207-211 | the 256-byte name buffer always ends in NUL |
| RestServer.NameBufferTerminated | main/rest_server.c:207-211 | the name buffer always ends in NUL, and its C string is the first at most 255 characters of the JSON string |
| RestServer.ValidateEmployee | main/rest_server.c:206-259 | only an object is accepted, and then with a terminated 256-byte name. A rejection carries one of the five messages of the code |
| RestServer.ValidationOrder | main/rest_server.c:208-259 | each message holds exactly when the checks before it passed and its own failed, in the order name, salary, birthdate, day, month, year. Acceptance holds exactly when all pass |
| RestServer.ValidationAccepted | main/rest_server.c:209-254 | an accepted request carries the JSON values and a terminated name of at most 255 characters |
| RestServer.ValidationNonObject | main/rest_server.c:206-215 | a document that is not an object, an unparsable one included, is "Wrong format" |
| RestServer.EmployeePostHandler | main/rest_server.c:183-268 | with the corrected guard, a failed receipt gives `ESP_FAIL` and its 500 response. Otherwise an accepted request gives `ESP_OK` and the acknowledgement, and a rejected one gives `ESP_FAIL` and 400 with its message |
| RestServer.EmployeeCborPostHandler | main/rest_server.c:149-181 | with the corrected guard and name copy, after a body arrives, the record is what the decoder leaves and the acknowledgement is always sent. `ESP_OK` is returned exactly when decoding gave `NoError` |
| RestServer.ExampleEmployee | main/rest_server.c:301-306 | the example name buffer holds a NUL |
| RestServer.ExampleEncodingSize | main/rest_server.c:302-308 | the example's name is "John Doe" and its encoding is 62 bytes, whatever follows the name's NUL |
| RestServer.ExampleEmployeeCborGetHandler | main/rest_server.c:298-311 | the handler sends the full 62-byte encoding of the example as application/cbor |

## Left out

- `employee_toJSON` (components/employee_utils/employee_utils.c:54-59) is not modelled: it is floating-point formatting with `%.2f`. The CBOR POST handler's call to it (main/rest_server.c:176-178) feeds only a log line.
- Logging with `ESP_LOGI`/`ESP_LOGE` is not modelled: it is I/O with no effect on results.
- TinyCBOR's byte-level parser (`cbor_parser_init`) and cJSON's parser (`cJSON_Parse`) are not modelled. Their source is not part of this model, so they are function parameters of the handlers.
- In this model items are parsed values, so lookups cannot fail. TinyCBOR parses lazily and its lookup can report decoding errors such as an unexpected end of input; those errors, and the `CBOR_MAP_ERR` around each lookup, are not modelled.
- A typed getter on a missing or wrong-type value is `IllegalType` in this model. TinyCBOR asserts the type instead.
- The result of `cbor_value_advance` is ignored by the source and cannot fail here.
- The HTTP server lifecycle and routing (main/rest_server.c:330-420) are not modelled beyond the context allocation: it is framework glue.
- Static file I/O and chunked sending (main/rest_server.c:78-112) are not modelled: they are I/O. Only the path and the content type are.
- The system-info and temperature handlers (main/rest_server.c:270-328) are not modelled: they are hardware calls, randomness and float arithmetic.
- The JSON reads of `light_brightness_post_handler` (main/rest_server.c:139-146) are not modelled: they dereference cJSON results without NULL checks, so their behaviour depends on the unseen library. Its guard and receive loop are the shared `ReceiveBody`.
- RestServer.FilePath: `strlcpy`/`strlcat` are stated on string values, not on the 143-byte stack array.
- RestServer.ContentType has no contract of its own. It is stated against the table of extensions through the lemmas above.
- RestServer.ReceiveBody: a reply that would write past the scratch buffer stops the model with `Overrun` instead of corrupting memory.
- RestServer.ReceiveBody: runs the corrected guard on the unsigned `content_len` (`Receive`, see Findings). The code tests the signed `int total_len` (main/rest_server.c:119-127, 151-159 and 186-194): a `content_len` of 2^31 or more, 0x80000000 for instance, becomes negative, passes the guard, skips the loop and writes the terminator before the buffer, where the model answers `TooLong`.
- RestServer.EmployeePostHandler: uses the corrected guard through `ReceiveBody`, so its `body != Overrun` and its 500 "content too long" for a `content_len` of 2^31 or more hold for the corrected program only. The code writes out of bounds there (`ReceiveAsWritten`).
- RestServer.EmployeePostHandler: requires each receive to return at most the remaining content, as `httpd_req_recv` caps its reads. Without that the loop can overrun (`OverrunWithRequestedLength`).
- RestServer.EmployeeCborPostHandler: uses the corrected guard through `ReceiveBody`, with the same difference as `EmployeePostHandler` for a `content_len` of 2^31 or more.
- RestServer.EmployeeCborPostHandler: requires each receive to return at most the remaining content, as `EmployeePostHandler` does.
- RestServer.EmployeeCborPostHandler: decodes with the corrected name copy (`GetEmployee`), so the record it leaves has a terminated name and a name of 256 bytes or more is refused. The code copies any name without a terminator and writes one of more than 256 bytes past `employee.name`.
- EmployeeUtils.EmployeeToCbor and EmployeeUtils.EncodeEmployee require a NUL in the name buffer, because `cbor_encode_text_stringz` runs `strlen` on it.
- EmployeeUtils.EncodeBirthdate and EmployeeUtils.EncodeEmployee do not say which prefix of the encoding is in the buffer after a failure, only that it is some prefix.
- EmployeeUtils.GetEmployee: uses the corrected name copy (see Findings). The code copies every text name and never writes a NUL after it: a name under 256 bytes is left unterminated in `emp->name`, one of exactly 256 bytes fills it with no NUL, and one of more than 256 bytes is written past it. The corrected copy always writes the NUL and refuses names of 256 bytes or more with `OutOfMemory`.
- EmployeeUtils.GetName: the corrected name copy, with the same difference as `GetEmployee`. The code's step (`CopyNameAsWritten`) never returns `OutOfMemory` and never terminates the name.
- EmployeeUtils.DecodeName: states the corrected step, which refuses 256 bytes or more and writes the NUL. The code's step never refuses a text name, never terminates it and overflows above 256 bytes (`CopyNameAsWritten`).
- EmployeeUtils.DecodeEmployeeSucceeds: the shape it names has a text name under 256 bytes, which holds for the corrected copy. As written, any text name passes the name step.
- EmployeeUtils.DecodeEmployeeFields: that the name's C string is the text holds for the corrected copy only. As written no NUL is written, and the C string runs into what the buffer held before (`NameCopyUnterminatedAsWritten`).
- EmployeeUtils.NameFailureWritesNothing: states the corrected name step, where a text name of 256 bytes or more fails with `OutOfMemory` and leaves the record untouched. As written (`CopyNameAsWritten`) a text name never fails: 256 bytes fill `emp->name` with no NUL, more than 256 run past it, and decoding goes on to the salary. Only a non-text name fails there, with `IllegalType`, in both versions.
- EmployeeUtils.SalaryFailureKeepsName: the kept name is the corrected copy, terminated by a NUL at the text's length, and the lemma covers names under 256 bytes only. As written the name is the text over the old bytes with no NUL, and names of 256 bytes or more reach the salary step as well.
- EmployeeUtils.BirthdateFailureKeepsEarlierFields: the same difference as `SalaryFailureKeepsName` for the kept name.
- RestServer.NameBufferTerminated: "at most 255 characters" counts bytes, under the one-`char`-per-byte convention above. A multi-byte UTF-8 character may be cut at byte 255, which the model represents as its first bytes.
- EmployeeUtils.DecodeEmployeeAccepted: the name in the record is what the corrected copy leaves, a terminated copy. As written it is the text over the old bytes with no NUL.
- EmployeeUtils.EmployeeRoundTrip: the name round-trips through the corrected copy only. As written the decoded name is unterminated unless the old buffer held a NUL after it (`NameCopyUnterminatedAsWritten`).
- The salary is an opaque 64-bit pattern: no floating-point value or arithmetic is modelled.

## Findings

| source | as written | input that shows it | evidently intended | confidence | as-written member | corrected member |
|---|---|---|---|---|---|---|
| components/employee_utils/employee_utils.c:37-39 | `cbor_value_copy_text_string(&name_it, emp->name, &name_len, NULL)` passes the text's own length as the capacity. A text of more than 256 bytes is written past the 256-byte `name`, and a text that fits is never NUL-terminated | a name of 300 bytes; or "Bob" over a name buffer with no NUL | a capacity of 256, refusing names of 256 bytes or more, and a terminated name | not executed | EmployeeUtils.CopyNameAsWritten | EmployeeUtils.CopyName |
| main/rest_server.c:119-127 | `int total_len = req->content_len` wraps a length of 2^31 or more to a negative `int`. That passes `total_len >= SCRATCH_BUFSIZE`, the loop is skipped, and `buf[total_len] = '\0'` writes before the scratch buffer. The same guard is at main/rest_server.c:151-159 and 186-194 | `content_len` = 0xFFFFFFFF gives `total_len` = -1 | the guard on the unsigned `content_len` | not executed | RestServer.ReceiveAsWritten | RestServer.Receive |
