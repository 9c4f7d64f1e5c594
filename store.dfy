/**
 * The write side of the server: POST `/`, POST `/generated-passwords` and
 * DELETE `/:id` over the two MongoDB collections, held as sequences in
 * natural (insertion) order. The store's own failure is a boolean input.
 */
module Store {
  import opened Wrappers
  import opened Hex
  import opened JsValues
  import opened CryptoCodec
  import opened Listing

  /** Length in bytes of a MongoDB ObjectId (24 hex characters). */
  const ObjectIdLength: nat := 12

  datatype Reply = Created | Deleted(deletedCount: nat) | ServerError(message: string)

  /** The HTTP status each handler sends with a reply. */
  function Status(r: Reply): (s: nat)
    ensures s == 500 <==> r.ServerError?
    ensures s == 201 <==> r == Created
    ensures s == 200 <==> r.Deleted?
  {
    match r
    case Created => 201
    case Deleted(_) => 200
    case ServerError(_) => 500
  }

  /** The document POST `/` inserts: site, username, the payload and id from the body. */
  function PasswordDoc(body: Doc, p: Payload): (d: Doc)
    ensures d.Keys == {"site", "username", "password", "id"}
    ensures d["site"] == Get(body, "site") && d["username"] == Get(body, "username") && d["id"] == Get(body, "id")
    ensures d["password"] == PayloadValue(p)
  {
    map["site" := Get(body, "site"), "username" := Get(body, "username"),
        "password" := PayloadValue(p), "id" := Get(body, "id")]
  }

  /** The document POST `/generated-passwords` inserts: only the payload and id, no site or username. */
  function GeneratedDoc(body: Doc, p: Payload): (d: Doc)
    ensures d.Keys == {"password", "id"}
    ensures "site" !in d && "username" !in d
    ensures d["password"] == PayloadValue(p) && d["id"] == Get(body, "id")
  {
    map["password" := PayloadValue(p), "id" := Get(body, "id")]
  }

  /** `insertOne` adds the storage identifier `_id` to the document it stores. */
  function WithStorageId(d: Doc, oid: seq<Byte>): (r: Doc)
    requires "_id" !in d
    ensures r.Keys == d.Keys + {"_id"} && r["_id"] == Oid(oid)
    ensures forall k :: k in d ==> r[k] == d[k]
  {
    d["_id" := Oid(oid)]
  }

  /** `new ObjectId(id)`: 24 hex digits of either case give its 12 bytes, anything else throws. */
  function ParseObjectId(id: string): (r: Option<seq<Byte>>)
    ensures r.Some? <==> |id| == 2 * ObjectIdLength && forall i :: 0 <= i < |id| ==> IsHexDigit(id[i])
    ensures r.Some? ==> |r.value| == ObjectIdLength
  {
    FromHexAccepts(id);
    if |id| == 2 * ObjectIdLength then FromHex(id) else None
  }

  /** For well-formed ids the parse inverts the lower-case form `toHexString` prints. */
  lemma ParseObjectIdOfHex(oid: seq<Byte>)
    requires |oid| == ObjectIdLength
    ensures ParseObjectId(ToHex(oid)) == Some(oid)
  {
    FromHexToHex(oid);
  }

  class Collections {
    /** The `passwords` collection. */
    var passwords: seq<Doc>
    /** The `generated_passwords` collection. */
    var generatedPasswords: seq<Doc>

    constructor ()
      ensures passwords == [] && generatedPasswords == []
    {
      passwords, generatedPasswords := [], [];
    }

    /**
     * POST `/`: encrypt the body's password with the supplied IV, then
     * insert `{site, username, password: {iv, encryptedData}, id}` under the
     * fresh storage id. A throwing encrypt or insert stores nothing.
     */
    method PostPassword(body: Doc, ivBytes: seq<Byte>, seal: Cipher, newId: seq<Byte>, insertOk: bool)
      returns (reply: Reply)
      requires |ivBytes| == IvLength && |newId| == ObjectIdLength
      modifies this
      ensures var enc := Encrypt(Get(body, "password"), ivBytes, seal);
        if enc.Some? && insertOk then
          passwords == old(passwords) + [WithStorageId(PasswordDoc(body, enc.value), newId)] && reply == Created
        else
          passwords == old(passwords) && reply == ServerError("Error saving password")
      ensures generatedPasswords == old(generatedPasswords)
    {
      var enc := Encrypt(Get(body, "password"), ivBytes, seal);
      if enc.None? || !insertOk {
        return ServerError("Error saving password");
      }
      passwords := passwords + [WithStorageId(PasswordDoc(body, enc.value), newId)];
      reply := Created;
    }

    /** POST `/generated-passwords`: the same encryption path, into the other collection. */
    method PostGeneratedPassword(body: Doc, ivBytes: seq<Byte>, seal: Cipher, newId: seq<Byte>, insertOk: bool)
      returns (reply: Reply)
      requires |ivBytes| == IvLength && |newId| == ObjectIdLength
      modifies this
      ensures var enc := Encrypt(Get(body, "password"), ivBytes, seal);
        if enc.Some? && insertOk then
          generatedPasswords == old(generatedPasswords) + [WithStorageId(GeneratedDoc(body, enc.value), newId)]
          && reply == Created
        else
          generatedPasswords == old(generatedPasswords) && reply == ServerError("Error saving generated password")
      ensures passwords == old(passwords)
    {
      var enc := Encrypt(Get(body, "password"), ivBytes, seal);
      if enc.None? || !insertOk {
        return ServerError("Error saving generated password");
      }
      generatedPasswords := generatedPasswords + [WithStorageId(GeneratedDoc(body, enc.value), newId)];
      reply := Created;
    }

    /**
     * DELETE `/:id`: `deleteOne({ _id: new ObjectId(id) })` removes the first
     * document whose storage id matches, and nothing when none does. An id
     * that is not an ObjectId, or a failing store, removes nothing.
     */
    method DeletePassword(id: string, deleteOk: bool) returns (reply: Reply)
      modifies this
      ensures var oid := ParseObjectId(id);
        if oid.None? || !deleteOk then
          passwords == old(passwords) && reply == ServerError("Error deleting password")
        else match FirstIndex(old(passwords), "_id", Oid(oid.value))
          case None => passwords == old(passwords) && reply == Deleted(0)
          case Some(k) => passwords == old(passwords)[..k] + old(passwords)[k + 1..] && reply == Deleted(1)
      ensures generatedPasswords == old(generatedPasswords)
    {
      var oid := ParseObjectId(id);
      if oid.None? || !deleteOk {
        return ServerError("Error deleting password");
      }
      var found := FirstIndex(passwords, "_id", Oid(oid.value));
      if found.None? {
        return Deleted(0);
      }
      var k := found.value;
      passwords := passwords[..k] + passwords[k + 1..];
      reply := Deleted(1);
    }
  }

  /**
   * A record stored by POST `/` after any existing documents comes back
   * from GET `/` as the last record, with the body's site, username and id
   * and with the password the decipher recovers from the stored payload,
   * while the earlier records list as before. Whether the decipher does
   * recover the sealed plaintext is the cipher's business and is taken
   * here as a hypothesis.
   */
  lemma PostedPasswordIsListed(existing: seq<Doc>, body: Doc, ivBytes: seq<Byte>, seal: Cipher, newId: seq<Byte>,
                               open: Decipher, plain: string)
    requires |ivBytes| == IvLength && |newId| == ObjectIdLength
    requires Encrypt(Get(body, "password"), ivBytes, seal).Some?
    requires var p := Encrypt(Get(body, "password"), ivBytes, seal).value;
      p.encryptedData != "" && open(p.encryptedData, p.iv) == Some(plain)
    ensures var p := Encrypt(Get(body, "password"), ivBytes, seal).value;
      var out := DecryptedResults(existing + [WithStorageId(PasswordDoc(body, p), newId)], open);
      var last := out[|existing|];
      && |out| == |existing| + 1
      && out[..|existing|] == DecryptedResults(existing, open)
      && last["password"] == Str(plain)
      && last["site"] == Get(body, "site") && last["username"] == Get(body, "username")
      && last["id"] == Get(body, "id") && last["_id"] == Oid(newId)
  {
    var p := Encrypt(Get(body, "password"), ivBytes, seal).value;
    var stored := WithStorageId(PasswordDoc(body, p), newId);
    assert Get(stored, "password") == PayloadValue(p);
    assert p.iv != "" by { assert |p.iv| == 2 * IvLength; }
    DecryptedKeepsFields(stored, open, p.encryptedData, p.iv, plain);
    ListingAppend(existing, [stored], open);
    var before := DecryptedResults(existing, open);
    var out := DecryptedResults(existing + [stored], open);
    assert out == before + DecryptedResults([stored], open);
    assert out[..|existing|] == before;
    assert out[|existing|] == DecryptItem(stored, open);
  }
}
