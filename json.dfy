/**
  The part of cJSON the REST handlers rely on, over a JSON value in the sense
  of RFC 8259: `cJSON_GetObjectItem` (a case-insensitive lookup that returns
  the first member whose name matches, and NULL for anything but an object) and
  the type tests `cJSON_IsString`, `cJSON_IsNumber` and `cJSON_IsObject`, all of
  which are false on NULL. A NULL `cJSON *` is `None`.
 */
module CJson {
  import opened CTypes

  /** A parsed JSON value. A number carries the bit pattern of its
      `valuedouble` and the `int` cJSON stores beside it in `valueint` (the
      double saturated to the `int` range); neither is interpreted here. A
      string is its `valuestring`, one `char` per byte of its UTF-8 encoding. */
  datatype Json =
    | JNull
    | JFalse
    | JTrue
    | JNumber(valuedouble: uint64, valueint: int32)
    | JString(valuestring: string)
    | JArray(items: seq<Json>)
    | JObject(members: seq<Member>)

  datatype Member = Member(name: string, value: Json)

  /** The first member whose name equals `key` ignoring ASCII case. */
  function FindMember(ms: seq<Member>, key: string): (r: Option<Json>)
    ensures r.None? <==> forall i :: 0 <= i < |ms| ==> !EqualIgnoreCase(ms[i].name, key)
    ensures r.Some? ==> exists i :: 0 <= i < |ms| && EqualIgnoreCase(ms[i].name, key) && r.value == ms[i].value
                                    && forall j :: 0 <= j < i ==> !EqualIgnoreCase(ms[j].name, key)
  {
    if ms == [] then None
    else if EqualIgnoreCase(ms[0].name, key) then Some(ms[0].value)
    else
      var r := FindMember(ms[1..], key);
      assert forall i :: 1 <= i < |ms| ==> ms[i] == ms[1..][i - 1];
      r
  }

  /** `cJSON_GetObjectItem(obj, key)`. */
  function GetObjectItem(obj: Option<Json>, key: string): (r: Option<Json>)
    ensures r.Some? ==> obj.Some? && obj.value.JObject?
  {
    if obj.Some? && obj.value.JObject? then FindMember(obj.value.members, key) else None
  }

  predicate IsString(item: Option<Json>)
  {
    item.Some? && item.value.JString?
  }

  predicate IsNumber(item: Option<Json>)
  {
    item.Some? && item.value.JNumber?
  }

  predicate IsObject(item: Option<Json>)
  {
    item.Some? && item.value.JObject?
  }

  lemma EqualIgnoreCaseTrans(a: string, b: string, c: string)
    requires EqualIgnoreCase(a, b) && EqualIgnoreCase(b, c)
    ensures EqualIgnoreCase(a, c)
  {
  }

  lemma EqualIgnoreCaseSym(a: string, b: string)
    requires EqualIgnoreCase(a, b)
    ensures EqualIgnoreCase(b, a)
  {
  }

  /** Keys that differ only in ASCII case find the same member. */
  lemma {:induction false} FindMemberIgnoresCase(ms: seq<Member>, k1: string, k2: string)
    requires EqualIgnoreCase(k1, k2)
    ensures FindMember(ms, k1) == FindMember(ms, k2)
  {
    if ms != [] {
      if EqualIgnoreCase(ms[0].name, k1) {
        EqualIgnoreCaseTrans(ms[0].name, k1, k2);
      } else {
        if EqualIgnoreCase(ms[0].name, k2) {
          EqualIgnoreCaseSym(k1, k2);
          EqualIgnoreCaseTrans(ms[0].name, k2, k1);
        }
        FindMemberIgnoresCase(ms[1..], k1, k2);
      }
    }
  }

  lemma GetObjectItemIgnoresCase(obj: Option<Json>, k1: string, k2: string)
    requires EqualIgnoreCase(k1, k2)
    ensures GetObjectItem(obj, k1) == GetObjectItem(obj, k2)
  {
    if obj.Some? && obj.value.JObject? {
      FindMemberIgnoresCase(obj.value.members, k1, k2);
    }
  }

  /** The first match wins: members after it, including duplicates of its
      name, are never seen. */
  lemma {:induction false} FindMemberFirstWins(ms: seq<Member>, later: seq<Member>, key: string)
    requires FindMember(ms, key).Some?
    ensures FindMember(ms + later, key) == FindMember(ms, key)
  {
    if !EqualIgnoreCase(ms[0].name, key) {
      assert (ms + later)[1..] == ms[1..] + later;
      FindMemberFirstWins(ms[1..], later, key);
    }
  }

  /** A value that is not an object has no members: every lookup is NULL. */
  lemma GetObjectItemNonObject(obj: Option<Json>, key: string)
    requires !IsObject(obj)
    ensures GetObjectItem(obj, key).None?
  {
  }
}
