/**
 * The key-list stages of the listing handler `get_values`: the scan prefix,
 * reversal of the store's key list in place, skip-then-limit pagination and
 * the translation of full keys into caller-visible local keys.
 */
module Listing {
  import opened Wrappers
  import opened Text

  /** The prefix handed to the store: the tenant root, followed by the query's prefix if any. */
  function ScanPrefix(idKey: string, prefix: Option<string>): (r: string)
    ensures idKey <= r
    ensures r == idKey + prefix.GetOr("")
  {
    if prefix.Some? then idKey + prefix.value else idKey
  }

  /** The elements of `s` in the opposite order. */
  function Reversed<T>(s: seq<T>): (r: seq<T>)
    ensures |r| == |s|
  {
    if s == [] then [] else [s[|s| - 1]] + Reversed(s[..|s| - 1])
  }

  /** Position `k` of the reversal holds position `|s| - 1 - k` of the original. */
  lemma {:induction false} ReversedAt<T>(s: seq<T>, k: nat)
    requires k < |s|
    ensures Reversed(s)[k] == s[|s| - 1 - k]
  {
    if k > 0 {
      ReversedAt(s[..|s| - 1], k - 1);
    }
  }

  /** Reversing twice gives back the original sequence. */
  lemma ReversedTwice<T>(s: seq<T>)
    ensures Reversed(Reversed(s)) == s
  {
    forall k | 0 <= k < |s|
      ensures Reversed(Reversed(s))[k] == s[k]
    {
      ReversedAt(Reversed(s), k);
      ReversedAt(s, |s| - 1 - k);
    }
  }

  /** Reversal is a permutation: every element keeps its number of occurrences. */
  lemma {:induction false} ReversedPermutes<T>(s: seq<T>)
    ensures multiset(Reversed(s)) == multiset(s)
  {
    if s != [] {
      var init := s[..|s| - 1];
      ReversedPermutes(init);
      assert s == init + [s[|s| - 1]];
    }
  }

  /** `keys.reverse()`: swap the ends, moving inwards. */
  method ReverseInPlace(a: array<string>)
    modifies a
    ensures a[..] == Reversed(old(a[..]))
  {
    var lo, hi := 0, a.Length;
    while lo + 1 < hi
      invariant 0 <= lo <= hi <= a.Length && lo + hi == a.Length
      invariant forall k :: 0 <= k < lo ==> a[k] == old(a[a.Length - 1 - k])
      invariant forall k :: hi <= k < a.Length ==> a[k] == old(a[a.Length - 1 - k])
      invariant forall k :: lo <= k < hi ==> a[k] == old(a[k])
    {
      hi := hi - 1;
      a[lo], a[hi] := a[hi], a[lo];
      lo := lo + 1;
    }
    forall k | 0 <= k < a.Length
      ensures a[..][k] == Reversed(old(a[..]))[k]
    {
      ReversedAt(old(a[..]), k);
    }
  }

  function Min(x: int, y: int): (m: int) { if x <= y then x else y }

  /**
   * Skip-then-limit pagination: drop the first `skip` entries, then keep at
   * most `limit` of the rest, where a limit of 0 means no limit.
   */
  function Page<T>(r: seq<T>, skip: nat, limit: nat): (p: seq<T>)
    ensures |p| == if skip >= |r| then 0
                   else if limit > 0 then Min(limit, |r| - skip)
                   else |r| - skip
    ensures forall i :: 0 <= i < |p| ==> p[i] == r[skip + i]
  {
    r[Min(skip, |r|)..if limit > 0 then Min(skip + limit, |r|) else |r|]
  }

  /**
   * The pagination loop of `get_values`: only when a skip or a limit is
   * given, the entries after the first `skip` are pushed one by one, and the
   * loop breaks as soon as `limit` of them have been pushed.
   */
  method Paginate(keys: seq<string>, skip: nat, limit: nat) returns (page: seq<string>)
    ensures page == Page(keys, skip, limit)
  {
    page := keys;
    if skip > 0 || limit > 0 {
      var keys2: seq<string> := [];
      var i := skip;
      while i < |keys|
        invariant skip <= i
        invariant i == skip || i <= |keys|
        invariant keys2 == keys[Min(skip, |keys|)..Min(i, |keys|)]
        invariant limit > 0 ==> |keys2| < limit
      {
        keys2 := keys2 + [keys[i]];
        i := i + 1;
        if limit > 0 && |keys2| >= limit {
          break;
        }
      }
      page := keys2;
    }
  }

  /** A page never holds more entries than a positive limit. */
  lemma PageBounded<T>(r: seq<T>, skip: nat, limit: nat)
    requires limit > 0
    ensures |Page(r, skip, limit)| <= limit
  {
  }

  /** Skipping past the end leaves nothing. */
  lemma PagePastEnd<T>(r: seq<T>, skip: nat, limit: nat)
    requires skip >= |r|
    ensures Page(r, skip, limit) == []
  {
  }

  /** Neither skip nor limit: the list is untouched. */
  lemma PageUnpaged<T>(r: seq<T>)
    ensures Page(r, 0, 0) == r
  {
  }

  /** Skip is applied before limit: limiting a skipped list is one page. */
  lemma PageSkipThenLimit<T>(r: seq<T>, skip: nat, limit: nat)
    ensures Page(Page(r, skip, 0), 0, limit) == Page(r, skip, limit)
  {
  }

  /** Ten keys, skip 3, limit 2: keys 3 and 4. */
  lemma PageExample<T>(r: seq<T>)
    requires |r| == 10
    ensures Page(r, 3, 2) == [r[3], r[4]]
  {
  }

  /** Ten keys reversed, limit 2: the last two keys, last first. */
  lemma PageReversedExample<T>(r: seq<T>)
    requires |r| == 10
    ensures Page(Reversed(r), 0, 2) == [r[9], r[8]]
  {
    ReversedAt(r, 0);
    ReversedAt(r, 1);
  }

  /** The caller-visible key: `k.replace(id_key, "")`, every occurrence of the tenant root deleted. */
  function LocalKey(k: string, idKey: string): (local: string)
    ensures |local| <= |k|
  {
    RemoveAll(k, idKey)
  }

  /** A key written for object id `o` lists as `o` when `o` holds no copy of the tenant root. */
  lemma LocalKeyOfOwnKey(idKey: string, o: string)
    requires idKey != [] && !Occurs(idKey, o)
    ensures LocalKey(idKey + o, idKey) == o
  {
    RemoveAllLeading(idKey, o);
    RemoveAllAbsent(o, idKey);
  }

  /**
   * Since the tenant root ends in `/`, an object id without `/` always
   * lists as itself.
   */
  lemma LocalKeyOfPlainId(idKey: string, o: string)
    requires idKey != [] && idKey[|idKey| - 1] == '/' && '/' !in o
    ensures LocalKey(idKey + o, idKey) == o
  {
    OccursHasLastChar(idKey, o);
    LocalKeyOfOwnKey(idKey, o);
  }

  /**
   * An object id that itself starts with the tenant root loses that copy
   * too: the id `<root>x` lists as `x`, not as itself.
   */
  lemma LocalKeyDropsEmbeddedRoot(idKey: string, x: string)
    requires idKey != [] && !Occurs(idKey, x)
    ensures LocalKey(idKey + (idKey + x), idKey) == x
    ensures x != idKey + x
  {
    RemoveAllLeading(idKey, idKey + x);
    RemoveAllLeading(idKey, x);
    RemoveAllAbsent(x, idKey);
  }
}
