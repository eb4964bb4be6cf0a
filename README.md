# kvs3 core in Dafny

kvs3 is a multi-tenant key-value store served over HTTP and kept in an
object-storage bucket. A caller is identified by the bearer token in its
`Authorization` header. The token has its `=` characters removed and is then
hashed (BLAKE3, hex). That hash is the caller's namespace; the namespace
followed by `/` is the tenant root, and every object key is the root followed
by the object id, `<hash>/<object id>`. This project models the logic of
`src/main.rs` and proves properties of it:

- **Namespace derivation** (`Auth`): `get_token` splits the header on a single
  space, and `get_id` builds the key. `Text` models the two string
  operations involved: Rust's `split` on one character, and `replace(pat, "")`,
  which deletes every non-overlapping occurrence of a pattern from left to right.
- **Listing pipeline** (`Listing`, `Handlers`): the `get_values` handler. It
  builds the scan prefix, reverses the store's key list in place when asked,
  paginates with skip-then-limit (a limit of 0 means no limit), turns full
  keys into local keys by deleting the tenant root, and builds either the list
  of local keys or one singleton object `{local key: value}` per key.
- **Field masking** (`Mask`): `filter` restricts an object to the listed
  fields that are present. `filter_value` splits the mask on `,`, maps
  `filter` over the elements of an array, and re-parses the serialisation of
  a scalar.
- **The read and write handlers** (`Handlers`): `get_value` (parse, then
  mask), and `set_value`, which derives the key, serialises the body, and
  sets the cache lifetime to 0 when none is given, and otherwise to the given
  `usize` converted with `as i64`.

Key derivation is a plain function of the header and the object id, with
no salt and no state, so it is the same on every call and in every process.

Some collaborators are parameters of the model, not code in it:
- the BLAKE3 hash is `hash: string -> string`;
- JSON text parsing and serialisation are the two functions of a
  `Json.Codec`. The ghost predicate `Json.Lossless` is the round-trip property
  (`parse(serialize(v)) == Some(v)`), taken as a hypothesis wherever it is used;
- the bucket is a `list: string -> seq<string>` from a prefix to keys, and a
  `get: string -> StoreReply` from a key to a status code and text;
- the store's write `set` is `put: PutRequest -> nat`, from the key, text and
  cache lifetime of a write to the status code it returns.

The handlers parse stored JSON text in one place, `to_value`
(src/main.rs:189-192), and `unwrap` the result there, so a stored text that
is not JSON panics. It is
reached from `get_value` (src/main.rs:160), from the listing loop
(src/main.rs:111) and from the scalar branch of `filter_value`
(src/main.rs:145). The model turns that panic into preconditions that the
text parses: `Handlers.Readable` for a stored text, `Handlers.ListingReadable`
for the stored text of every paged key of a listing with values, and
`Mask.Reparses` for the re-parsed scalar. JSON is the datatype
`Json.Value`: `Null | Bool | Num(int) | Str | Arr(seq) | Obj(map)`.

Three behaviours of the code are easy to misread:
- a scalar passed through masking is serialised and parsed back, so under a
  lossless codec it is unchanged (`Mask.FilterValueScalar`). It is not turned
  into a JSON string;
- a local key is the full key with EVERY occurrence of the tenant root
  deleted, not only the leading one. So the local key is the object id only
  when the id contains no copy of the root (`Listing.LocalKeyOfOwnKey`,
  `Listing.LocalKeyOfPlainId`). An id that starts with the root loses it
  too (`Listing.LocalKeyDropsEmbeddedRoot`);
- the header is split on the single character `' '`, not on whitespace. A
  header with no space, or with two or more spaces, gives the empty token
  (`Auth.GetToken`).

## Model

| member | source | states |
|---|---|---|
| `Text.Split` | src/main.rs:10 | splitting on a character gives one more piece than there are separators, and no piece contains the separator |
| `Text.JoinSplit` | src/main.rs:10 | joining the pieces of a split with the separator gives back the original string |
| `Text.SplitJoin` | src/main.rs:137 | splitting separator-free pieces joined by the separator gives back exactly those pieces (so `"a,c"` splits into `a`, `c`) |
| `Text.RemoveAll` | src/main.rs:107 | `s.replace(pat, "")` for a non-empty `pat`: scanning left to right, each match is deleted and the scan resumes after it; an empty pattern leaves `s`; the result is never longer than `s` |
| `Text.RemoveAllAbsent` | src/main.rs:107 | `replace(pat, "")` leaves a string in which `pat` does not occur unchanged |
| `Text.RemoveAllLeading` | src/main.rs:125 | a leading occurrence of the pattern is deleted and the scan continues right after it |
| `Text.RemoveCharGone` | src/main.rs:229 | after `token.replace("=", "")` no `=` is left |
| `Text.RemoveCharIdempotent` | src/main.rs:229 | removing `=` twice is the same as removing it once |
| `Text.RemoveCharInserted` | src/main.rs:229 | an extra `=` anywhere in the token makes no difference after removal |
| `Native.UsizeAsI64` | src/main.rs:206 | `usize as i64` stays in the i64 range, is congruent to the input modulo 2^64, is the identity below 2^63 and is negative from 2^63 on |
| `Json.ToValue` | src/main.rs:189-192 | `to_value` returns the value that parsing the text yields; it needs text that parses |
| `Json.ToValueOfSerialized` | src/main.rs:145 | under a lossless codec, parsing serialised text gives back the serialised value |
| `Auth.GetToken` | src/main.rs:9-16 | the token contains no space; it is empty unless the header has exactly one space; with one space it is exactly the text after it |
| `Auth.GetTokenOfBearer` | src/main.rs:9-16 | a header `<scheme> <token>` with space-free parts yields exactly `<token>` |
| `Auth.Namespace` | src/main.rs:228-230 | the namespace is the hash of the token with every `=` deleted (a definition; its properties are the `GetId*` rows) |
| `Auth.GetId` | src/main.rs:227-233 | the key consists of the root (namespace followed by `/`) and then exactly the object id, and its length is the sum of the two |
| `Auth.GetIdExtendsRoot` | src/main.rs:227-233 | every key of a tenant is its listing root `get_id(a, "")` followed by the object id, and the root is the namespace followed by `/` |
| `Auth.GetIdIgnoresScheme` | src/main.rs:227-230 | two well-formed headers with the same token and different scheme words get the same key |
| `Auth.GetIdIgnoresPadding` | src/main.rs:229-230 | two headers whose tokens differ by an inserted `=` get the same key for every object id |
| `Auth.GetIdInjective` | src/main.rs:231 | when the hashes have one fixed length, two keys are equal exactly when the namespaces and the object ids are equal |
| `Auth.TenantsIsolated` | src/main.rs:222-233 | tenants whose hashes have one fixed length and differ (no collision) never share a key |
| `Auth.TenantsCollideWithoutFixedLength` | src/main.rs:227-233 | the fixed length is needed: hashes `a` and `a/b` give the same key `a/b/c` for the object ids `b/c` and `c` |
| `Mask.Masked` | src/main.rs:18-32 | on an object, the result's key set is the listed fields that the object has, and each value is the object's; a non-object is returned unchanged |
| `Mask.Filter` | src/main.rs:18-32 | the insertion loop over the fields builds exactly `Masked(val, fields)` |
| `Mask.MaskedIdempotent` | src/main.rs:18-32 | masking twice with the same fields equals masking once |
| `Mask.MaskedByFieldSet` | src/main.rs:22-27 | the result depends only on the set of listed fields, not on their order or repetition |
| `Mask.MaskedTwice` | src/main.rs:18-32 | masking with `f1` and then `f2` keeps the fields listed in both |
| `Mask.FilterValue` | src/main.rs:136-147 | with the fields `split(mask, ',')`, an array keeps its length and each element is masked, an object is masked, and a scalar becomes what parsing its serialisation yields |
| `Mask.FilterValueKeepsNonObjectElements` | src/main.rs:139-141 | array elements that are not objects, nested arrays included, come back unchanged |
| `Mask.FilterValueScalar` | src/main.rs:144-146 | under a lossless codec, masking a scalar returns the scalar itself |
| `Mask.FilterValueIdempotent` | src/main.rs:136-147 | under a lossless codec, applying `filter_value` twice with the same mask equals applying it once |
| `Mask.MaskExampleBothPresent` | src/main.rs:136-147 | `{"a":1,"b":2,"c":3}` masked with `a,c` is `{"a":1,"c":3}` |
| `Mask.MaskExampleOneAbsent` | src/main.rs:136-147 | `{"a":1,"b":2,"c":3}` masked with `a,z` is `{"a":1}` |
| `Listing.ScanPrefix` | src/main.rs:62-66 | the scan prefix starts with the tenant root and is the root followed by the query prefix, or the root alone |
| `Handlers.ScanPrefixIsKeyPrefix` | src/main.rs:59-66 | the scan prefix for prefix `p` is `get_id(a, p)`, and without a prefix it is `get_id(a, "")` |
| `Listing.Reversed` | src/main.rs:77-79 | reversal keeps the length |
| `Listing.ReversedAt` | src/main.rs:77-79 | position `k` of the reversal holds position `n - 1 - k` of the original |
| `Listing.ReversedTwice` | src/main.rs:77-79 | reversing twice gives back the original list |
| `Listing.ReversedPermutes` | src/main.rs:77-79 | reversal is a permutation: the multiset of keys is unchanged |
| `Listing.ReverseInPlace` | src/main.rs:78 | the array after the in-place swap loop is the reversal of the array before it |
| `Listing.Page` | src/main.rs:81-101 | the page holds `0` entries if `skip >= n`, otherwise `min(limit, n - skip)` entries when `limit > 0` and `n - skip` when it is 0; entry `i` is entry `skip + i` of the input (a contiguous, order-preserving slice) |
| `Listing.Paginate` | src/main.rs:92-101 | the push loop that breaks once `limit` entries are pushed computes exactly `Page(keys, skip, limit)`, including when `skip` is past the end |
| `Listing.PageBounded` | src/main.rs:96-98 | with a positive limit the page has at most `limit` entries |
| `Listing.PagePastEnd` | src/main.rs:94 | a skip at or past the end gives an empty page |
| `Listing.PageUnpaged` | src/main.rs:92 | with skip and limit both 0, the list is untouched |
| `Listing.PageSkipThenLimit` | src/main.rs:94-99 | skip is applied before limit: limiting the skipped list gives the same page |
| `Listing.PageExample` | src/main.rs:81-101 | ten keys with skip 3 and limit 2 give keys 3 and 4 |
| `Listing.PageReversedExample` | src/main.rs:77-101 | ten keys reversed with limit 2 give keys 9 and 8 |
| `Listing.LocalKey` | src/main.rs:107 | the local key is the full key with every occurrence of the tenant root deleted, so never longer than the full key |
| `Listing.LocalKeyOfOwnKey` | src/main.rs:107 | the key `root + o` lists as `o` when the root does not occur in `o` |
| `Listing.LocalKeyOfPlainId` | src/main.rs:125 | since the root ends in `/`, an object id without `/` always lists as itself |
| `Listing.LocalKeyDropsEmbeddedRoot` | src/main.rs:107 | an object id `root + x` lists as `x`, not as itself, because every occurrence of the root is deleted |
| `Handlers.Listed` | src/main.rs:59-72 | the store is asked for the keys under `get_id(a, p)` for the query prefix `p`, or under the root `get_id(a, "")` without one |
| `Handlers.Selected` | src/main.rs:72-101 | the reported keys are the listed ones, reversed if `reverse` is true, then paged with skip and limit defaulting to 0; there are at most as many as listed, at most `limit` for a positive limit, and each is a listed key |
| `Handlers.SelectKeys` | src/main.rs:72-101 | copying the store's list into a buffer, reversing it in place when `reverse` is true, and paginating with the defaulted skip and limit gives exactly `Selected(listed, q)` |
| `Handlers.ReadBody` | src/main.rs:111-114 | a stored text read without a mask is the value it parses to; with a mask it is that value passed through `filter_value` |
| `Handlers.Entry` | src/main.rs:108-118 | one listing entry with values is an object whose only key is the local key |
| `Handlers.Entries` | src/main.rs:103-129 | the entries have one element per selected key |
| `Handlers.ListBody` | src/main.rs:103-129 | the listing body is a JSON array with one element per selected key |
| `Handlers.ListEntries` | src/main.rs:103-129 | the two result loops produce exactly the specified entries: `{local key: parsed and masked value}` objects with values, local keys without |
| `Handlers.GetValues` | src/main.rs:54-134 | the listing handler answers status 200 with exactly the body `ListBody` specifies for this header, query and store |
| `Handlers.ListBodyShape` | src/main.rs:103-129 | the body is an array with one entry per selected key, in order; with values, entry `i` is an object whose only key is the local key of key `i` and whose value is the parsed, optionally masked stored value; without, it is that local key |
| `Handlers.ListedEntryMatchesRead` | src/main.rs:110-114 | a listed key written as `get_id(a, o)` for an object id `o` without `/` lists under `o` with the value that `GET /o` serves |
| `Handlers.ListingExample` | src/main.rs:54-134 | `values=true&mask=x` over a tenant holding only `widget1 = {"x":5,"y":9}` answers `[{"widget1":{"x":5}}]` |
| `Handlers.GetValue` | src/main.rs:149-172 | `get_value` answers with the store's status code for `get_id(a, o)` and the stored text, parsed and masked if a mask is given |
| `Handlers.SetValue` | src/main.rs:194-220 | the write goes to `get_id(a, o)` with the serialised body, and the response status is the code the store's `set` returns; the cache lifetime is 0 when absent and `n as i64` otherwise; it is positive exactly for `0 < n < 2^63` |
| `Handlers.WriteThenRead` | src/main.rs:155-164 | under a lossless codec, when the store holds the serialised value at `get_id(a, o)`, `get_value` under the same header serves exactly that value, or that value masked |

## Left out

- `src/lib.rs`, the object-store adapter, is not part of this model. Bucket
  and credential setup, `list`, `get_object`, `put_object` and
  `delete_object` belong to the storage library. The model passes in the
  key list (`list`) and the per-key reply (`get`). Error mapping to `500` or
  `"{}"` is whatever those functions return.
- The Cache-Control header is written by `src/lib.rs` when the lifetime is
  positive. Only that condition is modelled, in `Handlers.SetValue`'s last
  `ensures`.
- `delete_key` is not modelled: it derives the key with `get_id` and passes
  the store's status through, with no further logic.
- `main`: argument parsing, CORS, route wiring and socket binding. In the
  routes, `warp::header("authorization")` makes the header mandatory. So a
  missing header is rejected by the HTTP layer, not mapped to the empty token.
  Likewise the POST route decodes the request body with `warp::body::json()`
  (src/main.rs:298), so a body that is not JSON is rejected by the HTTP layer
  before `set_value` runs; `Handlers.SetValue` starts from the decoded value.
- The BLAKE3 algorithm is the parameter `hash`. Its 64-character hex output
  enters only as the equal-length hypothesis of `Auth.GetIdInjective` and
  `Auth.TenantsIsolated`.
- JSON parsing and serialisation algorithms are the `Json.Codec` parameter.
  The round trip is the hypothesis `Json.Lossless`, which is assumed and not
  shown for `serde_json`. Numbers are integers of any size: floating-point
  JSON numbers are not modelled, and neither is `serde_json` reading an
  integer outside the i64/u64 range as a float.
- `Mask.Masked`: makes no claim about the field order of the result object,
  because objects are maps here. The `serde_json` map ordering depends on
  build configuration that is not visible.
- Asynchrony and concurrency: the store is a fixed function during one
  request, so values overwritten or deleted between the list and the
  per-key reads are not modelled.
- `StatusCode::from_u16(..).unwrap()`, the `debug!` logging and
  `String::from_utf8(..).unwrap()` in the store adapter are not modelled.
- `Native.UsizeAsI64`: `usize` is taken to be 64 bits wide, which is the only
  width where the cast can wrap.
