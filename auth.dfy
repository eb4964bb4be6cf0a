/**
 * Tenant namespace derivation: the bearer token of an `Authorization`
 * header, stripped of `=` characters and hashed, prefixes every object key.
 * The hash (BLAKE3, hex-encoded) is a parameter `hash`.
 */
module Auth {
  import opened Text

  /**
   * `get_token`: the second piece when the header splits on `' '` into
   * exactly two pieces, otherwise the empty string.
   */
  function GetToken(authorization: string): (token: string)
    ensures ' ' !in token
    ensures CountChar(authorization, ' ') != 1 ==> token == []
    ensures CountChar(authorization, ' ') == 1 ==>
      var n := |authorization| - |token|;
      n >= 1 && authorization[n - 1] == ' ' && authorization[n..] == token
  {
    var items := Split(authorization, ' ');
    if |items| == 2 then
      JoinSplit(authorization, ' ');
      assert authorization == items[0] + [' '] + items[1];
      items[1]
    else
      []
  }

  /** A well-formed `<scheme> <token>` header yields exactly its token. */
  lemma GetTokenOfBearer(scheme: string, token: string)
    requires ' ' !in scheme && ' ' !in token
    ensures GetToken(scheme + " " + token) == token
  {
    SplitJoin([scheme, token], ' ');
    assert Join([scheme, token], ' ') == scheme + " " + token;
  }

  /** The tenant namespace: `b3_hash` of the token with every `=` removed. */
  function Namespace(authorization: string, hash: string -> string): string
  {
    hash(RemoveAll(GetToken(authorization), "="))
  }

  /** `get_id`: the full object key `<namespace>/<object id>`. */
  function GetId(authorization: string, objectId: string, hash: string -> string): (key: string)
    ensures var root := Namespace(authorization, hash) + "/";
            |key| == |root| + |objectId| && key[..|root|] == root && key[|root|..] == objectId
  {
    Namespace(authorization, hash) + "/" + objectId
  }

  /** Every key of a tenant is its listing root `get_id(a, "")` followed by the object id. */
  lemma GetIdExtendsRoot(authorization: string, objectId: string, hash: string -> string)
    ensures GetId(authorization, objectId, hash) == GetId(authorization, "", hash) + objectId
    ensures GetId(authorization, "", hash) == Namespace(authorization, hash) + "/"
  {
  }

  /** The scheme word is discarded: two headers with the same token get the same key. */
  lemma GetIdIgnoresScheme(scheme1: string, scheme2: string, token: string, objectId: string, hash: string -> string)
    requires ' ' !in scheme1 && ' ' !in scheme2 && ' ' !in token
    ensures GetId(scheme1 + " " + token, objectId, hash) == GetId(scheme2 + " " + token, objectId, hash)
  {
    GetTokenOfBearer(scheme1, token);
    GetTokenOfBearer(scheme2, token);
  }

  /** Padding: two tokens that differ by an inserted `=` give the same key. */
  lemma GetIdIgnoresPadding(scheme: string, front: string, back: string, objectId: string, hash: string -> string)
    requires ' ' !in scheme && ' ' !in front && ' ' !in back
    ensures GetId(scheme + " " + (front + "=" + back), objectId, hash)
         == GetId(scheme + " " + (front + back), objectId, hash)
  {
    var padded, token := front + "=" + back, front + back;
    assert ' ' !in padded && ' ' !in token;
    GetTokenOfBearer(scheme, padded);
    GetTokenOfBearer(scheme, token);
    RemoveCharInserted(front, back, '=');
  }

  /**
   * With hashes of one fixed length (BLAKE3 hex digests are 64 characters),
   * a key determines its namespace and its object id, and conversely.
   */
  lemma GetIdInjective(a1: string, o1: string, a2: string, o2: string, hash: string -> string)
    requires |Namespace(a1, hash)| == |Namespace(a2, hash)|
    ensures GetId(a1, o1, hash) == GetId(a2, o2, hash)
        <==> Namespace(a1, hash) == Namespace(a2, hash) && o1 == o2
  {
    var n1, n2 := Namespace(a1, hash), Namespace(a2, hash);
    if GetId(a1, o1, hash) == GetId(a2, o2, hash) {
      var k := GetId(a1, o1, hash);
      assert n1 == k[..|n1|] == n2;
      assert o1 == k[|n1| + 1..] == o2;
    }
  }

  /** Tenants whose namespaces have one length and differ (no hash collision) never share a key. */
  lemma TenantsIsolated(a1: string, o1: string, a2: string, o2: string, hash: string -> string)
    requires |Namespace(a1, hash)| == |Namespace(a2, hash)|
    requires Namespace(a1, hash) != Namespace(a2, hash)
    ensures GetId(a1, o1, hash) != GetId(a2, o2, hash)
  {
    GetIdInjective(a1, o1, a2, o2, hash);
  }

  /**
   * The equal-length hypothesis is needed: with namespaces `a` and `a/b`,
   * the object ids `b/c` and `c` of the two tenants share the key `a/b/c`.
   */
  lemma TenantsCollideWithoutFixedLength(hash: string -> string)
    requires hash("p") == "a" && hash("q") == "a/b"
    ensures Namespace("x p", hash) != Namespace("x q", hash)
    ensures GetId("x p", "b/c", hash) == GetId("x q", "c", hash) == "a/b/c"
  {
    GetTokenOfBearer("x", "p");
    GetTokenOfBearer("x", "q");
    assert "x" + " " + "p" == "x p" && "x" + " " + "q" == "x q";
    OccursChar('=', "p");
    OccursChar('=', "q");
    RemoveAllAbsent("p", "=");
    RemoveAllAbsent("q", "=");
  }
}
