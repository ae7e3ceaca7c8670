/**
  The request-handling logic of the REST server (main/rest_server.c) that does
  not depend on the HTTP framework: choosing a content type from a file name,
  building the path of a static file, receiving a request body into the
  context's scratch buffer, validating a JSON employee request, and turning the
  result of the CBOR employee decoder into a response. What `httpd_req_recv`
  returns, what cJSON's parser makes of a body and which items TinyCBOR's parser
  finds in it are parameters.
 */
module RestServer {
  import opened CTypes
  import opened Cbor
  import opened TinyCbor
  import opened EmployeeUtils
  import opened CJson

  /** ESP-IDF's `ESP_VFS_PATH_MAX`. */
  const ESP_VFS_PATH_MAX := 15
  const FILE_PATH_MAX := ESP_VFS_PATH_MAX + 128
  const SCRATCH_BUFSIZE := 10240

  datatype EspErr = EspOk | EspFail

  /** What a handler sends: a string with `httpd_resp_sendstr` (status 200),
      an error with `httpd_resp_send_err`, or bytes of a given content type
      with `httpd_resp_send`. */
  datatype Response =
    | Sent(body: string)
    | SentError(status: nat, message: string)
    | SentBytes(contentType: string, bytes: seq<byte>)

  /** `rest_server_context_t`: the `base_path` string and the scratch buffer
      every handler receives into. */
  class RestContext {
    const basePath: string
    const scratch: array<byte>

    predicate Valid()
      reads this
    {
      |basePath| <= ESP_VFS_PATH_MAX && scratch.Length == SCRATCH_BUFSIZE
    }

    /** The context `start_rest_server` allocates: `base_path` is the argument
        cut down by `strlcpy` to the 16-byte field. */
    constructor (basePath: string)
      ensures Valid() && fresh(scratch)
      ensures this.basePath == StrlCpy(basePath, ESP_VFS_PATH_MAX + 1)
    {
      this.basePath := StrlCpy(basePath, ESP_VFS_PATH_MAX + 1);
      scratch := new byte[SCRATCH_BUFSIZE];
    }
  }

  // ---- content type -----------------------------------------------------------

  /** `CHECK_FILE_EXTENSION(filename, ext)`: `strcasecmp` on the last `|ext|`
      characters. The start of that tail is `strlen(filename) - strlen(ext)`,
      computed without a guard, so the filename must be at least as long. */
  predicate CheckFileExtension(filename: string, ext: string)
    requires |ext| <= |filename|
  {
    EqualIgnoreCase(filename[|filename| - |ext|..], ext)
  }

  /** The extension test is a suffix test on the lower-cased strings. */
  lemma CheckFileExtensionIsSuffix(filename: string, ext: string)
    requires |ext| <= |filename|
    ensures CheckFileExtension(filename, ext)
        <==> LowerString(filename)[|filename| - |ext|..] == LowerString(ext)
  {
    var k := |filename| - |ext|;
    EqualIgnoreCaseLower(filename[k..], ext);
    assert LowerString(filename)[k..] == LowerString(filename[k..]);
  }

  /** The extension table of `set_content_type_from_file`, in the order its
      `if`/`else if` chain tries it. */
  const CONTENT_TYPES: seq<(string, string)> :=
    [(".html", "text/html"), (".js", "application/javascript"), (".css", "text/css"),
     (".png", "image/png"), (".ico", "image/x-icon"), (".svg", "text/xml")]

  /** The type of the first row whose extension ends `filepath` (ignoring
      case), and "text/plain" when no row does. */
  function Lookup(filepath: string, table: seq<(string, string)>): (r: string)
    requires forall i :: 0 <= i < |table| ==> |table[i].0| <= |filepath|
    ensures r == "text/plain" || exists i :: 0 <= i < |table| && r == table[i].1
  {
    if table == [] then "text/plain"
    else if CheckFileExtension(filepath, table[0].0) then table[0].1
    else Lookup(filepath, table[1..])
  }

  lemma ExtensionLengths()
    ensures forall i :: 0 <= i < |CONTENT_TYPES| ==> |CONTENT_TYPES[i].0| <= 5
  {
  }

  /** `set_content_type_from_file`: the type sent for `filepath`. The first
      test is for ".html", so the path must have at least five characters. */
  function ContentType(filepath: string): string
    requires |filepath| >= 5
  {
    ExtensionLengths();
    Lookup(filepath, CONTENT_TYPES)
  }

  /** The first row that matches decides, whatever follows it. */
  lemma {:induction false} LookupFirstMatch(filepath: string, table: seq<(string, string)>, i: nat)
    requires forall j :: 0 <= j < |table| ==> |table[j].0| <= |filepath|
    requires i < |table| && CheckFileExtension(filepath, table[i].0)
    requires forall j :: 0 <= j < i ==> !CheckFileExtension(filepath, table[j].0)
    ensures Lookup(filepath, table) == table[i].1
  {
    if i > 0 {
      LookupFirstMatch(filepath, table[1..], i - 1);
    }
  }

  /** Without a matching row the type is "text/plain". */
  lemma {:induction false} LookupNoMatch(filepath: string, table: seq<(string, string)>)
    requires forall j :: 0 <= j < |table| ==> |table[j].0| <= |filepath|
    requires forall j :: 0 <= j < |table| ==> !CheckFileExtension(filepath, table[j].0)
    ensures Lookup(filepath, table) == "text/plain"
  {
    if table != [] {
      assert !CheckFileExtension(filepath, table[0].0);
      LookupNoMatch(filepath, table[1..]);
    }
  }

  /** Paths that differ only in case get the same type. */
  lemma {:induction false} LookupIgnoresCase(p: string, q: string, table: seq<(string, string)>)
    requires forall j :: 0 <= j < |table| ==> |table[j].0| <= |p|
    requires EqualIgnoreCase(p, q)
    ensures Lookup(p, table) == Lookup(q, table)
  {
    if table != [] {
      TailIgnoresCase(p, q, table[0].0);
      LookupIgnoresCase(p, q, table[1..]);
    }
  }

  lemma ContentTypeIgnoresCase(p: string, q: string)
    requires |p| >= 5 && EqualIgnoreCase(p, q)
    ensures ContentType(p) == ContentType(q)
  {
    ExtensionLengths();
    LookupIgnoresCase(p, q, CONTENT_TYPES);
  }

  lemma TailIgnoresCase(p: string, q: string, ext: string)
    requires |ext| <= |p| && EqualIgnoreCase(p, q)
    ensures CheckFileExtension(p, ext) <==> CheckFileExtension(q, ext)
  {
    var k := |p| - |ext|;
    assert EqualIgnoreCase(p[k..], q[k..]) by {
      assert forall i :: 0 <= i < |ext| ==> p[k..][i] == p[k + i] && q[k..][i] == q[k + i];
    }
    if CheckFileExtension(p, ext) {
      EqualIgnoreCaseSym(p[k..], q[k..]);
      EqualIgnoreCaseTrans(q[k..], p[k..], ext);
    }
    if CheckFileExtension(q, ext) {
      EqualIgnoreCaseTrans(p[k..], q[k..], ext);
    }
  }

  /** One character that differs (ignoring case) rules an extension out. */
  lemma MismatchAt(p: string, ext: string, k: nat)
    requires |ext| <= |p| && k < |ext| && ToLower(p[|p| - |ext| + k]) != ToLower(ext[k])
    ensures !CheckFileExtension(p, ext)
  {
    assert p[|p| - |ext|..][k] == p[|p| - |ext| + k];
  }

  /** Each extension of the table, in lower case after a stem long enough for
      the ".html" test, selects its own row: no earlier row matches it. */
  lemma ContentTypeOfEachExtension(stem: string)
    requires |stem| >= 2
    ensures ContentType(stem + ".html") == "text/html"
    ensures ContentType(stem + ".js") == "application/javascript"
    ensures ContentType(stem + ".css") == "text/css"
    ensures ContentType(stem + ".png") == "image/png"
    ensures ContentType(stem + ".ico") == "image/x-icon"
    ensures ContentType(stem + ".svg") == "text/xml"
  {
    ExtensionLengths();
    var t := CONTENT_TYPES;
    forall i | 0 <= i < 6
      ensures ContentType(stem + t[i].0) == t[i].1
    {
      OwnRow(stem, i);
    }
    assert t[0] == (".html", "text/html") && t[1] == (".js", "application/javascript");
    assert t[2] == (".css", "text/css") && t[3] == (".png", "image/png");
    assert t[4] == (".ico", "image/x-icon") && t[5] == (".svg", "text/xml");
  }

  lemma OwnRow(stem: string, i: nat)
    requires |stem| >= 2 && i < 6
    ensures ContentType(stem + CONTENT_TYPES[i].0) == CONTENT_TYPES[i].1
  {
    ExtensionLengths();
    var t := CONTENT_TYPES;
    var ext := t[i].0;
    var p := stem + ext;
    assert p[|p| - |ext|..] == ext;
    assert CheckFileExtension(p, ext);
    forall j | 0 <= j < i
      ensures !CheckFileExtension(p, t[j].0)
    {
      NoEarlierRow(stem, i, j);
    }
    LookupFirstMatch(p, t, i);
  }

  /** The last character of a later extension, or the one before it, differs
      from the same position of every earlier one. */
  lemma NoEarlierRow(stem: string, i: nat, j: nat)
    requires |stem| >= 2 && j < i < 6
    ensures |CONTENT_TYPES[j].0| <= |stem + CONTENT_TYPES[i].0|
    ensures !CheckFileExtension(stem + CONTENT_TYPES[i].0, CONTENT_TYPES[j].0)
  {
    ExtensionLengths();
    var a := CONTENT_TYPES[i].0;
    var b := CONTENT_TYPES[j].0;
    var p := stem + a;
    assert p[|p| - 1] == a[|a| - 1] && p[|p| - 2] == a[|a| - 2];
    if (i, j) == (2, 1) || (i, j) == (5, 3) {
      MismatchAt(p, b, |b| - 2);
    } else {
      MismatchAt(p, b, |b| - 1);
    }
  }

  // ---- static file path ---------------------------------------------------------

  /** What the handler appends to `base_path`: "/index.html" for a URI ending
      in '/', which then replaces the whole URI, or else the URI itself. */
  function PathSuffix(uri: string): string
    requires |uri| > 0
  {
    if uri[|uri| - 1] == '/' then "/index.html" else uri
  }

  /** The path `rest_common_get_handler` builds with `strlcpy` and `strlcat`
      into `char filepath[FILE_PATH_MAX]`. It reads `uri[strlen(uri) - 1]`, so
      the URI must not be empty. */
  function FilePath(basePath: string, uri: string): (r: string)
    requires |uri| > 0
    ensures |r| < FILE_PATH_MAX && |r| <= |basePath| + |PathSuffix(uri)|
    ensures r == (basePath + PathSuffix(uri))[..|r|]
    ensures |basePath| + |PathSuffix(uri)| < FILE_PATH_MAX ==> r == basePath + PathSuffix(uri)
    ensures |basePath| + |PathSuffix(uri)| >= FILE_PATH_MAX ==> |r| == FILE_PATH_MAX - 1
  {
    var dst := StrlCpy(basePath, FILE_PATH_MAX);
    var r := StrlCat(dst, PathSuffix(uri), FILE_PATH_MAX);
    assert r == (basePath + PathSuffix(uri))[..|r|] by {
      if |basePath| >= FILE_PATH_MAX {
        assert |r| == |dst| == FILE_PATH_MAX - 1;
      }
    }
    r
  }

  /** Every URI ending in '/' is served the same file. */
  lemma DirectoryUriServesIndex(basePath: string, uri: string)
    requires |uri| > 0 && uri[|uri| - 1] == '/'
    ensures FilePath(basePath, uri) == FilePath(basePath, "/")
    ensures |basePath| <= ESP_VFS_PATH_MAX ==> FilePath(basePath, uri) == basePath + "/index.html"
  {
  }

  /** A `base_path` that fits its field and a URI of fewer than 128 characters
      are never cut. */
  lemma FilePathNotTruncated(basePath: string, uri: string)
    requires |basePath| <= ESP_VFS_PATH_MAX && 0 < |uri| < 128
    ensures FilePath(basePath, uri) == basePath + PathSuffix(uri)
  {
  }

  /** `rest_common_get_handler` once the file has opened: the path it reads
      and the content type it sets. */
  function StaticTarget(basePath: string, uri: string): (r: (string, string))
    requires |uri| > 0 && |FilePath(basePath, uri)| >= 5
    ensures r.0 == FilePath(basePath, uri) && r.1 == ContentType(r.0)
  {
    var path := FilePath(basePath, uri);
    (path, ContentType(path))
  }

  // ---- receiving a body ---------------------------------------------------------

  /** The outcome of the guard and receive loop: the body is the first
      `total_len` bytes received; `Overrun` is a write outside the scratch
      buffer. */
  datatype Received = TooLong | RecvFailed | Overrun | Body(bytes: seq<byte>)

  /** Everything `httpd_req_recv` delivers, in order. */
  function Flatten(replies: seq<seq<byte>>): seq<byte>
  {
    if replies == [] then [] else replies[0] + Flatten(replies[1..])
  }

  /** The loop `while (cur_len < total_len)` after `got` has arrived.
      `replies` lists what the remaining calls of `httpd_req_recv` write:
      `[]` stands for a return value <= 0, and calls beyond the list fail. */
  function RecvLoop(total: nat, got: seq<byte>, replies: seq<seq<byte>>): (r: Received)
    ensures r != TooLong
    ensures r.Body? ==> |r.bytes| == total && r.bytes <= got + Flatten(replies)
    decreases |replies|
  {
    if |got| >= total then Body(got[..total])
    else if replies == [] || replies[0] == [] then RecvFailed
    else if |got| + |replies[0]| > SCRATCH_BUFSIZE then Overrun
    else
      var r := RecvLoop(total, got + replies[0], replies[1..]);
      assert got + replies[0] + Flatten(replies[1..]) == got + Flatten(replies);
      r
  }

  /** The body guard and loop with the guard on the unsigned `content_len`. */
  function Receive(contentLen: uint32, replies: seq<seq<byte>>): (r: Received)
    ensures r == TooLong <==> contentLen >= SCRATCH_BUFSIZE
    ensures r.Body? ==> |r.bytes| == contentLen < SCRATCH_BUFSIZE && r.bytes <= Flatten(replies)
  {
    if contentLen >= SCRATCH_BUFSIZE then TooLong else RecvLoop(contentLen, [], replies)
  }

  /** The guard as written: `int total_len = req->content_len` wraps a length of
      2^31 or more to a negative `int`, which passes `total_len >= SCRATCH_BUFSIZE`;
      the loop does not run and `buf[total_len] = '\0'` writes before the buffer. */
  function ReceiveAsWritten(contentLen: uint32, replies: seq<seq<byte>>): (r: Received)
    ensures r == TooLong <==> SCRATCH_BUFSIZE <= contentLen < 0x8000_0000
    ensures contentLen >= 0x8000_0000 ==> r == Overrun
  {
    assert Wrap32(contentLen) == if contentLen < 0x8000_0000 then contentLen else contentLen - 0x1_0000_0000;
    var totalLen := Wrap32(contentLen);
    if totalLen >= SCRATCH_BUFSIZE then TooLong
    else if totalLen < 0 then Overrun
    else RecvLoop(totalLen, [], replies)
  }

  lemma BodyGuardWrapsAsWritten(replies: seq<seq<byte>>)
    ensures Wrap32(0xFFFF_FFFF) == -1
    ensures ReceiveAsWritten(0xFFFF_FFFF, replies) == Overrun
    ensures Receive(0xFFFF_FFFF, replies) == TooLong
  {
  }

  /** Below 2^31 the two guards agree. */
  lemma ReceiveAsWrittenBelow2To31(contentLen: uint32, replies: seq<seq<byte>>)
    requires contentLen < 0x8000_0000
    ensures ReceiveAsWritten(contentLen, replies) == Receive(contentLen, replies)
  {
    Wrap32InRange(contentLen);
  }

  /** Each call returns at most what is left of the content, as
      `httpd_req_recv` does when it caps a read at the remaining length. */
  predicate FitsRemaining(total: nat, cur: nat, replies: seq<seq<byte>>)
    decreases |replies|
  {
    replies == [] || replies[0] == []
    || (cur + |replies[0]| <= total && FitsRemaining(total, cur + |replies[0]|, replies[1..]))
  }

  /** With such replies the loop never leaves the buffer, and the bytes it
      received are exactly the body. */
  lemma {:induction false} NoOverrunWhenRepliesFit(total: nat, got: seq<byte>, replies: seq<seq<byte>>)
    requires total < SCRATCH_BUFSIZE && |got| <= total && FitsRemaining(total, |got|, replies)
    ensures RecvLoop(total, got, replies) != Overrun
    ensures RecvLoop(total, got, replies).Body? ==> RecvLoop(total, got, replies).bytes == got + Flatten(replies)[..total - |got|]
    decreases |replies|
  {
    if |got| < total && replies != [] && replies[0] != [] {
      NoOverrunWhenRepliesFit(total, got + replies[0], replies[1..]);
      assert got + replies[0] + Flatten(replies[1..]) == got + Flatten(replies);
    }
  }

  /** Each call asks for `total_len` bytes, not for what is left: two replies
      that each honour that request run past the end of the scratch buffer. */
  lemma OverrunWithRequestedLength()
    ensures RecvLoop(10000, [], [seq(9000, _ => 0), seq(9000, _ => 0)]) == Overrun
  {
    var replies: seq<seq<byte>> := [seq(9000, _ => 0), seq(9000, _ => 0)];
    assert replies[1..] == [seq(9000, _ => 0)];
  }

  /** The guard, the receive loop and `buf[total_len] = '\0'`, shared by the
      POST handlers. Received bytes go into `ctx.scratch` from the start; a
      reply that would go past its end stops the model with `Overrun`. */
  method ReceiveBody(ctx: RestContext, contentLen: uint32, replies: seq<seq<byte>>) returns (r: Received)
    requires ctx.Valid()
    modifies ctx.scratch
    ensures r == Receive(contentLen, replies)
    ensures r.Body? ==> ctx.scratch[..|r.bytes|] == r.bytes && ctx.scratch[|r.bytes|] == 0
  {
    var buf := ctx.scratch;
    if contentLen >= SCRATCH_BUFSIZE {
      return TooLong;
    }
    var totalLen: nat := contentLen;
    var curLen: nat := 0;
    var i := 0;
    while curLen < totalLen
      invariant i <= |replies| && curLen <= SCRATCH_BUFSIZE
      invariant RecvLoop(totalLen, buf[..curLen], replies[i..]) == RecvLoop(totalLen, [], replies)
      decreases totalLen - curLen
    {
      var received := if i < |replies| then replies[i] else [];
      if received == [] {
        return RecvFailed;
      }
      if curLen + |received| > SCRATCH_BUFSIZE {
        return Overrun;
      }
      ghost var before := buf[..curLen];
      WriteAt(buf, curLen, received);
      assert buf[..curLen + |received|] == before + received;
      assert replies[i..][1..] == replies[i + 1..];
      curLen := curLen + |received|;
      i := i + 1;
    }
    assert RecvLoop(totalLen, buf[..curLen], replies[i..]) == Body(buf[..totalLen]);
    buf[totalLen] := 0;
    r := Body(buf[..totalLen]);
  }

  /** What one successful `httpd_req_recv(req, buf + at, ...)` writes. */
  method WriteAt(buf: array<byte>, at: nat, data: seq<byte>)
    requires at + |data| <= buf.Length
    modifies buf
    ensures buf[..at] == old(buf[..at]) && buf[at..at + |data|] == data
    ensures buf[at + |data|..] == old(buf[at + |data|..])
  {
    forall j | 0 <= j < |data| {
      buf[at + j] := data[j];
    }
  }

  /** The response to a body that did not arrive. */
  function ReceiveError(r: Received): (resp: Response)
    requires r == TooLong || r == RecvFailed
    ensures resp.SentError? && resp.status == 500
  {
    if r == TooLong then SentError(500, "content too long") else SentError(500, "Failed to post control value")
  }

  // ---- the JSON employee request --------------------------------------------------

  datatype Validation =
    | Accepted(name: string, salary: uint64, day: int32, month: int32, year: int32)
    | Rejected(message: string)

  /** The name buffer: `calloc(256)`, `strncpy(name, valuestring, 256)`, then
      `name[255] = '\0'`. `strncpy` stops at the NUL that ends `valuestring`. */
  function NameBuffer(valuestring: string): (r: string)
    ensures |r| == 256 && r[255] == '\0'
  {
    StrNCpy(TakeUntil(valuestring, '\0'), 256)[..255] + ['\0']
  }

  /** The name is always terminated, holds at most 255 characters, and those
      are the first characters of the JSON string. */
  lemma NameBufferTerminated(valuestring: string)
    ensures var name := NameBuffer(valuestring); var s := TakeUntil(valuestring, '\0');
      && |name| == 256 && name[255] == '\0'
      && |TakeUntil(name, '\0')| <= 255
      && TakeUntil(name, '\0') == s[..if |s| < 255 then |s| else 255]
  {
    var name := NameBuffer(valuestring);
    var s := TakeUntil(valuestring, '\0');
    var n := if |s| < 255 then |s| else 255;
    assert name == s[..n] + ['\0'] + name[n + 1..] by {
      assert name[..n] == s[..n];
    }
    TakeUntilTerminated(s[..n], name[n + 1..], '\0');
    assert '\0' !in s[..n];
    TakeUntilNoStop(s[..n], '\0');
  }

  /** `employee_post_handler` from `cJSON_Parse` to the response: the first
      check that fails decides the message. */
  function ValidateEmployee(root: Option<Json>): (r: Validation)
    ensures r.Accepted? ==> IsObject(root) && |r.name| == 256 && r.name[255] == '\0'
    ensures r.Rejected? ==> r.message in ["Wrong format", "Wrong birthdate format", "Wrong day format",
                                          "Wrong month format", "Wrong year format"]
  {
    var nameJson := GetObjectItem(root, "name");
    if !IsString(nameJson) then Rejected("Wrong format")
    else
      var salaryJson := GetObjectItem(root, "salary");
      if !IsNumber(salaryJson) then Rejected("Wrong format")
      else
        var birthdateJson := GetObjectItem(root, "birthdate");
        if !IsObject(birthdateJson) then Rejected("Wrong birthdate format")
        else
          var dayJson := GetObjectItem(birthdateJson, "day");
          if !IsNumber(dayJson) then Rejected("Wrong day format")
          else
            var monthJson := GetObjectItem(birthdateJson, "month");
            if !IsNumber(monthJson) then Rejected("Wrong month format")
            else
              var yearJson := GetObjectItem(birthdateJson, "year");
              if !IsNumber(yearJson) then Rejected("Wrong year format")
              else
                Accepted(NameBuffer(nameJson.value.valuestring), salaryJson.value.valuedouble,
                         dayJson.value.valueint, monthJson.value.valueint, yearJson.value.valueint)
  }

  /** The checks run in order and the first failure decides: each message
      holds exactly when the checks before it passed and its own failed. */
  lemma ValidationOrder(root: Option<Json>)
    ensures var v := ValidateEmployee(root);
      var nameJson := GetObjectItem(root, "name");
      var salaryJson := GetObjectItem(root, "salary");
      var bd := GetObjectItem(root, "birthdate");
      var dayJson := GetObjectItem(bd, "day");
      var monthJson := GetObjectItem(bd, "month");
      var yearJson := GetObjectItem(bd, "year");
      && (v == Rejected("Wrong format") <==> !IsString(nameJson) || !IsNumber(salaryJson))
      && (v == Rejected("Wrong birthdate format") <==> IsString(nameJson) && IsNumber(salaryJson) && !IsObject(bd))
      && (v == Rejected("Wrong day format")
          <==> IsString(nameJson) && IsNumber(salaryJson) && IsObject(bd) && !IsNumber(dayJson))
      && (v == Rejected("Wrong month format")
          <==> IsString(nameJson) && IsNumber(salaryJson) && IsObject(bd) && IsNumber(dayJson) && !IsNumber(monthJson))
      && (v == Rejected("Wrong year format")
          <==> IsString(nameJson) && IsNumber(salaryJson) && IsObject(bd) && IsNumber(dayJson) && IsNumber(monthJson)
               && !IsNumber(yearJson))
      && (v.Accepted?
          <==> IsString(nameJson) && IsNumber(salaryJson) && IsObject(bd) && IsNumber(dayJson) && IsNumber(monthJson)
               && IsNumber(yearJson))
  {
  }

  /** An accepted request carries the values of its members and a terminated
      name of at most 255 characters taken from the JSON string. */
  lemma ValidationAccepted(root: Option<Json>)
    requires ValidateEmployee(root).Accepted?
    ensures var v := ValidateEmployee(root);
      var nameJson := GetObjectItem(root, "name");
      var bd := GetObjectItem(root, "birthdate");
      && nameJson.Some? && nameJson.value.JString?
      && v.name == NameBuffer(nameJson.value.valuestring)
      && |v.name| == 256 && v.name[255] == '\0' && |TakeUntil(v.name, '\0')| <= 255
      && GetObjectItem(root, "salary") == Some(JNumber(v.salary, GetObjectItem(root, "salary").value.valueint))
      && GetObjectItem(bd, "day").value.valueint == v.day
      && GetObjectItem(bd, "month").value.valueint == v.month
      && GetObjectItem(bd, "year").value.valueint == v.year
  {
    NameBufferTerminated(GetObjectItem(root, "name").value.valuestring);
  }

  /** A document that is not an object, including one cJSON could not parse,
      fails the first check. */
  lemma ValidationNonObject(root: Option<Json>)
    requires !IsObject(root)
    ensures ValidateEmployee(root) == Rejected("Wrong format")
  {
  }

  /** `employee_post_handler`. `parse` is `cJSON_Parse`, applied to the C string
      in the scratch buffer; the server caps every read at the remaining content. */
  method EmployeePostHandler(ctx: RestContext, contentLen: uint32, replies: seq<seq<byte>>,
                             parse: seq<byte> -> Option<Json>)
    returns (ret: EspErr, resp: Response)
    requires ctx.Valid()
    requires contentLen < SCRATCH_BUFSIZE ==> FitsRemaining(contentLen, 0, replies)
    modifies ctx.scratch
    ensures var body := Receive(contentLen, replies);
      && body != Overrun
      && (!body.Body? ==> ret == EspFail && resp == ReceiveError(body))
      && (body.Body? ==>
            var v := ValidateEmployee(parse(TakeUntil(body.bytes, 0)));
            && (v.Accepted? ==> ret == EspOk && resp == Sent("Request to add employee received"))
            && (v.Rejected? ==> ret == EspFail && resp == SentError(400, v.message)))
  {
    if contentLen < SCRATCH_BUFSIZE {
      NoOverrunWhenRepliesFit(contentLen, [], replies);
    }
    var body := ReceiveBody(ctx, contentLen, replies);
    if !body.Body? {
      return EspFail, ReceiveError(body);
    }
    var root := parse(TakeUntil(body.bytes, 0));
    var v := ValidateEmployee(root);
    if v.Accepted? {
      ret, resp := EspOk, Sent("Request to add employee received");
    } else {
      ret, resp := EspFail, SentError(400, v.message);
    }
  }

  // ---- the CBOR employee request --------------------------------------------------

  /** `employee_cbor_post_handler`. `parse` gives the items TinyCBOR's parser
      finds in the `total_len` bytes received; `emp` is the uninitialised
      `struct employee` on the stack. The reply is the same whatever the decoder
      returned; only the return value tells the two apart. */
  method EmployeeCborPostHandler(ctx: RestContext, contentLen: uint32, replies: seq<seq<byte>>,
                                 parse: seq<byte> -> seq<Item>, emp: EmployeeRecord)
    returns (ret: EspErr, resp: Response)
    requires ctx.Valid() && emp.Valid()
    requires contentLen < SCRATCH_BUFSIZE ==> FitsRemaining(contentLen, 0, replies)
    modifies ctx.scratch, emp, emp.name, emp.birthdate
    ensures var body := Receive(contentLen, replies);
      && body != Overrun
      && (!body.Body? ==> ret == EspFail && resp == ReceiveError(body) && emp.Value() == old(emp.Value()))
      && (body.Body? ==>
            var items := parse(body.bytes);
            var d := DecodeEmployee(if items == [] then None else Some(items[0]), old(emp.Value()));
            && emp.Value() == d.out
            && resp == Sent("Request to add employee received")
            && (ret == EspOk <==> d.err == NoError))
  {
    if contentLen < SCRATCH_BUFSIZE {
      NoOverrunWhenRepliesFit(contentLen, [], replies);
    }
    var body := ReceiveBody(ctx, contentLen, replies);
    if !body.Body? {
      return EspFail, ReceiveError(body);
    }
    var it := new CborValue(parse(body.bytes));
    var err := GetEmployee(it, emp);
    resp := Sent("Request to add employee received");
    ret := if err == NoError then EspOk else EspFail;
  }

  // ---- the example employee -------------------------------------------------------

  /** "John Doe" */
  const JOHN_DOE: seq<byte> := [0x4A, 0x6F, 0x68, 0x6E, 0x20, 0x44, 0x6F, 0x65]
  /** The bit pattern of the `double` 1200.0. */
  const SALARY_1200: uint64 := 0x4092_C000_0000_0000

  /** The record `example_employee_cbor_get_handler` fills: `strcpy` writes the
      name and its NUL, and the other 247 bytes of the stack array are whatever
      was there. */
  function ExampleEmployee(rest: seq<byte>): (e: Employee)
    requires |rest| == 247
    ensures |e.name| == NAME_SIZE && 0 in e.name
  {
    assert (JOHN_DOE + [0] + rest)[8] == 0;
    Employee(JOHN_DOE + [0] + rest, SALARY_1200, Birthdate(1, 1, 2000))
  }

  /** The example encodes to 62 bytes whatever follows the name's NUL. */
  lemma ExampleEncodingSize(rest: seq<byte>)
    requires |rest| == 247
    ensures CString(ExampleEmployee(rest).name) == JOHN_DOE
    ensures |EmployeeEncoding(ExampleEmployee(rest))| == 62
  {
    TakeUntilTerminated(JOHN_DOE, rest, 0);
    TakeUntilNoStop(JOHN_DOE, 0);
    var b := Birthdate(1, 1, 2000);
    assert |Head(MAJOR_UINT, ToUint64(b.year))| == 3;
    assert |BirthdateEncoding(b)| == 21;
  }

  /** `example_employee_cbor_get_handler`: the whole encoding fits the 256-byte
      buffer and is sent as "application/cbor". */
  method ExampleEmployeeCborGetHandler(rest: seq<byte>) returns (ret: EspErr, resp: Response)
    requires |rest| == 247
    ensures ret == EspOk
    ensures resp == SentBytes("application/cbor", EmployeeEncoding(ExampleEmployee(rest)))
    ensures |resp.bytes| == 62
  {
    var e := ExampleEmployee(rest);
    ExampleEncodingSize(rest);
    var buf := new byte[256];
    var len := EmployeeToCbor(e, buf, 256);
    ret, resp := EspOk, SentBytes("application/cbor", buf[..len]);
  }
}
