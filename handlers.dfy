/**
 * The request handlers of the service, with the object store, the hash and
 * the JSON codec passed in as parameters: the listing `get_values`, the
 * single read `get_value` and the write `set_value`.
 */
module Handlers {
  import opened Wrappers
  import opened Native
  import opened Text
  import opened Json
  import opened Auth
  import opened Mask
  import opened Listing

  /** The query parameters of `GET /`. */
  datatype IndexQuery = IndexQuery(
    prefix: Option<string>,
    limit: Option<Usize>,
    skip: Option<Usize>,
    reverse: Option<bool>,
    values: Option<bool>,
    mask: Option<string>)

  /** What the store's `get` answers: a status code and the stored text (`{}` on error). */
  datatype StoreReply = StoreReply(code: nat, text: string)

  /** The object handed to the store's `put` by `set_value`. */
  datatype PutRequest = PutRequest(key: string, text: string, cacheMaxAge: int)

  /**
   * A stored text that can be served: it parses as JSON, and when a mask is
   * applied its value is either a container or a scalar that re-parses.
   * These are the conditions under which `to_value`'s `unwrap` succeeds.
   */
  predicate Readable(codec: Codec, text: string, mask: Option<string>)
  {
    codec.parse(text).Some? && (mask.Some? ==> Reparses(codec, codec.parse(text).value))
  }

  /** Parse a stored text and apply the mask if there is one (shared by both read handlers). */
  function ReadBody(codec: Codec, text: string, mask: Option<string>): (v: Value)
    requires Readable(codec, text, mask)
    ensures mask.None? ==> codec.parse(text) == Some(v)
    ensures mask.Some? ==> v == FilterValue(codec.parse(text).value, mask.value, codec)
  {
    var val := ToValue(codec, text);
    if mask.Some? then FilterValue(val, mask.value, codec) else val
  }

  /** `get_value`: the store's status code and the (masked) stored value. */
  function GetValue(authorization: string, objectId: string, mask: Option<string>,
                    hash: string -> string, get: string -> StoreReply, codec: Codec): (reply: (nat, Value))
    requires Readable(codec, get(GetId(authorization, objectId, hash)).text, mask)
    ensures reply.0 == get(GetId(authorization, objectId, hash)).code
    ensures reply.1 == ReadBody(codec, get(GetId(authorization, objectId, hash)).text, mask)
  {
    var r := get(GetId(authorization, objectId, hash));
    (r.code, ReadBody(codec, r.text, mask))
  }

  /** The keys a listing reports: the store's list, reversed if asked, then paginated. */
  function Selected(keys: seq<string>, q: IndexQuery): (page: seq<string>)
    ensures |page| <= |keys|
    ensures q.limit.GetOr(0) > 0 ==> |page| <= q.limit.GetOr(0)
    ensures forall k :: k in page ==> k in keys
  {
    ReversedPermutes(keys);
    var r := if q.reverse == Some(true) then Reversed(keys) else keys;
    var page := Page(r, q.skip.GetOr(0), q.limit.GetOr(0));
    assert forall k :: k in page ==> k in multiset(r) by {
      forall k | k in page
        ensures k in multiset(r)
      {
        var i :| 0 <= i < |page| && page[i] == k;
        assert r[q.skip.GetOr(0) + i] == k;
      }
    }
    page
  }

  /** The keys the store lists for this caller's scan prefix. */
  function Listed(authorization: string, q: IndexQuery, hash: string -> string,
                  list: string -> seq<string>): (keys: seq<string>)
    ensures q.prefix.Some? ==> keys == list(GetId(authorization, q.prefix.value, hash))
    ensures q.prefix.None? ==> keys == list(GetId(authorization, "", hash))
  {
    ScanPrefixIsKeyPrefix(authorization, q.prefix.GetOr(""), hash);
    list(ScanPrefix(GetId(authorization, "", hash), q.prefix))
  }

  /** Listing with prefix `p` scans exactly the keys `get_id` gives object ids starting with `p`. */
  lemma ScanPrefixIsKeyPrefix(authorization: string, p: string, hash: string -> string)
    ensures ScanPrefix(GetId(authorization, "", hash), Some(p)) == GetId(authorization, p, hash)
    ensures ScanPrefix(GetId(authorization, "", hash), None) == GetId(authorization, "", hash)
  {
    GetIdExtendsRoot(authorization, p, hash);
  }

  /** Every value a listing fetches can be served. */
  predicate ListingReadable(page: seq<string>, q: IndexQuery, get: string -> StoreReply, codec: Codec)
  {
    q.values == Some(true) ==> forall k | k in page :: Readable(codec, get(k).text, q.mask)
  }

  /** One entry of a listing with values: the singleton object `{local key: value}`. */
  function Entry(k: string, idKey: string, q: IndexQuery, get: string -> StoreReply, codec: Codec): (e: Value)
    requires Readable(codec, get(k).text, q.mask)
    ensures e.Obj? && e.obj.Keys == {LocalKey(k, idKey)}
  {
    Obj(map[LocalKey(k, idKey) := ReadBody(codec, get(k).text, q.mask)])
  }

  /** The entries of a listing over `page`: singleton objects with values, local keys without. */
  function Entries(page: seq<string>, idKey: string, q: IndexQuery, get: string -> StoreReply, codec: Codec): (entries: seq<Value>)
    requires ListingReadable(page, q, get, codec)
    ensures |entries| == |page|
  {
    if q.values == Some(true) then
      seq(|page|, i requires 0 <= i < |page| => Entry(page[i], idKey, q, get, codec))
    else
      seq(|page|, i requires 0 <= i < |page| => Str(LocalKey(page[i], idKey)))
  }

  /** The body of the listing response, as a JSON array. */
  function ListBody(authorization: string, q: IndexQuery, hash: string -> string,
                    list: string -> seq<string>, get: string -> StoreReply, codec: Codec): (body: Value)
    requires ListingReadable(Selected(Listed(authorization, q, hash, list), q), q, get, codec)
    ensures body.Arr? && |body.arr| == |Selected(Listed(authorization, q, hash, list), q)|
  {
    var idKey := GetId(authorization, "", hash);
    Arr(Entries(Selected(Listed(authorization, q, hash, list), q), idKey, q, get, codec))
  }

  /**
   * The key-list stages of `get_values`: the store's list is held in a
   * buffer, reversed in place if asked, then paginated.
   */
  method SelectKeys(listed: seq<string>, q: IndexQuery) returns (page: seq<string>)
    ensures page == Selected(listed, q)
  {
    var keys := new string[|listed|](i requires 0 <= i < |listed| => listed[i]);
    assert keys[..] == listed;
    if q.reverse == Some(true) {
      ReverseInPlace(keys);
    }
    var skip := if q.skip.Some? then q.skip.value else 0;
    var limit := if q.limit.Some? then q.limit.value else 0;
    page := Paginate(keys[..], skip, limit);
  }

  /**
   * The two result loops of `get_values`: with values, each key's stored
   * text is fetched, parsed and masked and pushed as `{local key: value}`;
   * otherwise each local key is pushed.
   */
  method ListEntries(page: seq<string>, idKey: string, q: IndexQuery, get: string -> StoreReply, codec: Codec)
    returns (values: seq<Value>)
    requires ListingReadable(page, q, get, codec)
    ensures values == Entries(page, idKey, q, get, codec)
  {
    values := [];
    if q.values == Some(true) {
      for i := 0 to |page|
        invariant |values| == i
        invariant forall j :: 0 <= j < i ==> values[j] == Entry(page[j], idKey, q, get, codec)
      {
        var k := page[i];
        var localKey := LocalKey(k, idKey);
        var reply := get(k);
        var val := ToValue(codec, reply.text);
        if q.mask.Some? {
          val := FilterValue(val, q.mask.value, codec);
        }
        values := values + [Obj(map[localKey := val])];
      }
    } else {
      for i := 0 to |page|
        invariant |values| == i
        invariant forall j :: 0 <= j < i ==> values[j] == Str(LocalKey(page[j], idKey))
      {
        values := values + [Str(LocalKey(page[i], idKey))];
      }
    }
  }

  /**
   * `get_values`: list the keys under the scan prefix, select and page
   * them, and report local keys or singleton `{local key: value}` objects;
   * the status is always 200.
   */
  method GetValues(authorization: string, q: IndexQuery, hash: string -> string,
                   list: string -> seq<string>, get: string -> StoreReply, codec: Codec)
    returns (status: nat, body: Value)
    requires ListingReadable(Selected(Listed(authorization, q, hash, list), q), q, get, codec)
    ensures status == 200
    ensures body == ListBody(authorization, q, hash, list, get, codec)
  {
    var idKey := GetId(authorization, "", hash);
    var prefix := ScanPrefix(idKey, q.prefix);
    var listed := list(prefix);
    var page := SelectKeys(listed, q);
    var values := ListEntries(page, idKey, q, get, codec);
    status, body := 200, Arr(values);
  }

  /**
   * The shape of a listing: one entry per selected key, in order; with
   * values, entry `i` is an object whose only key is the local key of key
   * `i` and whose value is what `get_value` would serve for that key;
   * without, entry `i` is that local key.
   */
  lemma ListBodyShape(authorization: string, q: IndexQuery, hash: string -> string,
                      list: string -> seq<string>, get: string -> StoreReply, codec: Codec, i: nat)
    requires ListingReadable(Selected(Listed(authorization, q, hash, list), q), q, get, codec)
    requires i < |Selected(Listed(authorization, q, hash, list), q)|
    ensures var body := ListBody(authorization, q, hash, list, get, codec);
            var k := Selected(Listed(authorization, q, hash, list), q)[i];
            var local := LocalKey(k, GetId(authorization, "", hash));
            && body.Arr? && |body.arr| == |Selected(Listed(authorization, q, hash, list), q)|
            && (q.values == Some(true) ==>
                  && body.arr[i].Obj? && body.arr[i].obj.Keys == {local}
                  && Readable(codec, get(k).text, q.mask)
                  && body.arr[i].obj[local] == ReadBody(codec, get(k).text, q.mask))
            && (q.values != Some(true) ==> body.arr[i] == Str(local))
  {
  }

  /**
   * A listed key that was written as `get_id(a, o)` for a plain object id
   * `o` (no `/`) lists under `o`, with the value `GET /o` serves.
   */
  lemma ListedEntryMatchesRead(authorization: string, q: IndexQuery, hash: string -> string,
                               list: string -> seq<string>, get: string -> StoreReply, codec: Codec,
                               i: nat, o: string)
    requires q.values == Some(true)
    requires ListingReadable(Selected(Listed(authorization, q, hash, list), q), q, get, codec)
    requires i < |Selected(Listed(authorization, q, hash, list), q)|
    requires Selected(Listed(authorization, q, hash, list), q)[i] == GetId(authorization, o, hash)
    requires '/' !in o
    ensures Readable(codec, get(GetId(authorization, o, hash)).text, q.mask)
    ensures ListBody(authorization, q, hash, list, get, codec).arr[i]
         == Obj(map[o := GetValue(authorization, o, q.mask, hash, get, codec).1])
  {
    var idKey := GetId(authorization, "", hash);
    GetIdExtendsRoot(authorization, o, hash);
    LocalKeyOfPlainId(idKey, o);
  }

  /**
   * `GET /?values=true&mask=x` over a tenant holding only `widget1` with
   * value `{"x":5,"y":9}` answers `[{"widget1":{"x":5}}]`.
   */
  lemma ListingExample(authorization: string, hash: string -> string,
                       list: string -> seq<string>, get: string -> StoreReply, codec: Codec)
    requires list(GetId(authorization, "", hash)) == [GetId(authorization, "widget1", hash)]
    requires codec.parse(get(GetId(authorization, "widget1", hash)).text)
          == Some(Obj(map["x" := Num(5), "y" := Num(9)]))
    ensures var q := IndexQuery(None, None, None, None, Some(true), Some("x"));
            && ListingReadable(Selected(Listed(authorization, q, hash, list), q), q, get, codec)
            && ListBody(authorization, q, hash, list, get, codec)
               == Arr([Obj(map["widget1" := Obj(map["x" := Num(5)])])])
  {
    var q := IndexQuery(None, None, None, None, Some(true), Some("x"));
    var idKey := GetId(authorization, "", hash);
    var key := GetId(authorization, "widget1", hash);
    GetIdExtendsRoot(authorization, "widget1", hash);
    assert Selected(Listed(authorization, q, hash, list), q) == [key];
    LocalKeyOfPlainId(idKey, "widget1");
    SplitJoin(["x"], ',');
    assert Split("x", ',') == ["x"];
    var stored := Obj(map["x" := Num(5), "y" := Num(9)]);
    assert Masked(stored, ["x"]) == Obj(map["x" := Num(5)]);
    assert ReadBody(codec, get(key).text, q.mask) == Masked(stored, ["x"]);
    assert LocalKey(key, idKey) == "widget1";
    assert Entry(key, idKey, q, get, codec) == Obj(map["widget1" := Obj(map["x" := Num(5)])]);
  }

  /**
   * `set_value`: the key, the serialised body and the cache lifetime, whose
   * default is 0 and which goes through Rust's `as i64` cast, are handed to
   * the store's `set` (the parameter `put`), and its status code is the response status.
   */
  method SetValue(authorization: string, objectId: string, cacheMaxAge: Option<Usize>,
                  value: Value, hash: string -> string, codec: Codec, put: PutRequest -> nat)
    returns (status: nat, req: PutRequest)
    ensures status == put(req)
    ensures req.key == GetId(authorization, objectId, hash)
    ensures req.text == codec.serialize(value)
    ensures cacheMaxAge.None? ==> req.cacheMaxAge == 0
    ensures cacheMaxAge.Some? ==> req.cacheMaxAge == UsizeAsI64(cacheMaxAge.value)
    ensures req.cacheMaxAge > 0 <==> cacheMaxAge.Some? && 0 < cacheMaxAge.value < 0x8000_0000_0000_0000
  {
    var key := GetId(authorization, objectId, hash);
    var cacheMaxAgeValue := 0;
    if cacheMaxAge.Some? {
      cacheMaxAgeValue := UsizeAsI64(cacheMaxAge.value);
    }
    var valueString := codec.serialize(value);
    req := PutRequest(key, valueString, cacheMaxAgeValue);
    status := put(req);
  }

  /**
   * Write then read: when the store holds, at the key `set_value` writes
   * to, the text it writes for `v`, then `GET /o` under the same
   * `Authorization` header serves `v` itself, or `v` masked.
   */
  lemma WriteThenRead(authorization: string, objectId: string, v: Value, mask: Option<string>,
                      hash: string -> string, get: string -> StoreReply, codec: Codec)
    requires Lossless(codec)
    requires get(GetId(authorization, objectId, hash)).text == codec.serialize(v)
    ensures Readable(codec, get(GetId(authorization, objectId, hash)).text, mask)
    ensures GetValue(authorization, objectId, mask, hash, get, codec).1
         == if mask.Some? then FilterValue(v, mask.value, codec) else v
  {
    ToValueOfSerialized(codec, v);
  }
}
