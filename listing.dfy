/**
 * The GET `/` handler: every document found in the `passwords` collection
 * is mapped to an output record whose `password` field is replaced by the
 * plaintext or by one of three sentinel strings, all other fields copied.
 */
module Listing {
  import opened Wrappers
  import opened JsValues
  import opened CryptoCodec

  const HashedSentinel: string := "Decryption failed: password is hashed"
  const MissingSentinel: string := "Decryption failed: missing fields"
  const FailedSentinel: string := "Decryption failed"

  /** The four ways a document's password can come out of the listing. */
  datatype Verdict = Hashed | MissingFields | Decrypted(plain: string) | Failed

  predicate HasEncryptedFields(password: JsValue) {
    Truthy(password) && Truthy(Member(password, "encryptedData")) && Truthy(Member(password, "iv"))
  }

  /**
   * The branch the per-item callback of `findResult.map` takes on the value
   * of `item.password`: a string first, then a missing or falsy value or
   * field, then `decrypt`, whose every error is caught.
   */
  function Classify(password: JsValue, open: Decipher): (v: Verdict)
    ensures v == Hashed <==> password.Str?
    ensures v == MissingFields <==> !password.Str? && !HasEncryptedFields(password)
    ensures v.Decrypted? <==>
      && !password.Str? && HasEncryptedFields(password)
      && Member(password, "encryptedData").Str? && Member(password, "iv").Str?
      && open(Member(password, "encryptedData").s, Member(password, "iv").s).Some?
    ensures v.Decrypted? ==>
      v.plain == open(Member(password, "encryptedData").s, Member(password, "iv").s).value
  {
    if password.Str? then Hashed
    else if !HasEncryptedFields(password) then MissingFields
    else match Decrypt(Member(password, "encryptedData"), Member(password, "iv"), open)
      case Success(plain) => Decrypted(plain)
      case Failure(_) => Failed
  }

  /** The string the record carries for each verdict. */
  function VerdictText(v: Verdict): (r: string)
    ensures v.Decrypted? ==> r == v.plain
    ensures v == Failed ==> r == FailedSentinel
    ensures !v.Decrypted? ==> |FailedSentinel| <= |r| && r[..|FailedSentinel|] == FailedSentinel
    ensures !v.Decrypted? ==> (r == HashedSentinel <==> v == Hashed) && (r == MissingSentinel <==> v == MissingFields)
  {
    match v
    case Hashed => HashedSentinel
    case MissingFields => MissingSentinel
    case Decrypted(plain) => plain
    case Failed => FailedSentinel
  }

  /** `{ ...item, password: ... }` for one document. */
  function DecryptItem(item: Doc, open: Decipher): (r: Doc)
    ensures r.Keys == item.Keys + {"password"}
    ensures forall k :: k in item && k != "password" ==> r[k] == item[k]
    ensures r["password"] == Str(VerdictText(Classify(Get(item, "password"), open)))
  {
    item["password" := Str(VerdictText(Classify(Get(item, "password"), open)))]
  }

  /** `Array.prototype.map` with a callback that never throws. */
  function MapEach<A, B>(f: A -> B, docs: seq<A>): (r: seq<B>)
    ensures |r| == |docs|
    ensures forall i :: 0 <= i < |r| ==> r[i] == f(docs[i])
  {
    if docs == [] then [] else [f(docs[0])] + MapEach(f, docs[1..])
  }

  /** Mapping a concatenation is concatenating the mapped parts. */
  lemma MapEachAppend<A, B>(f: A -> B, a: seq<A>, b: seq<A>)
    ensures MapEach(f, a + b) == MapEach(f, a) + MapEach(f, b)
  {
    var whole, left, right := MapEach(f, a + b), MapEach(f, a), MapEach(f, b);
    forall i | 0 <= i < |a|
      ensures whole[i] == left[i]
    {
      assert (a + b)[i] == a[i];
    }
    forall i | 0 <= i < |b|
      ensures whole[|a| + i] == right[i]
    {
      assert (a + b)[|a| + i] == b[i];
    }
    assert whole == left + right;
  }

  /** `findResult.map(item => ...)`: one output record per document, in order. */
  function DecryptedResults(findResult: seq<Doc>, open: Decipher): (r: seq<Doc>)
    ensures |r| == |findResult|
    ensures forall i :: 0 <= i < |r| ==> r[i] == DecryptItem(findResult[i], open)
  {
    MapEach(item => DecryptItem(item, open), findResult)
  }

  datatype GetReply = Listed(records: seq<Doc>) | GetError(message: string)

  /**
   * The whole handler, with `collection.find({}).toArray()` given as its
   * outcome: None when the store rejects; the mapping itself never throws.
   */
  function GetRoot(found: Option<seq<Doc>>, open: Decipher): (r: GetReply)
    ensures found.None? <==> r == GetError("Error retrieving passwords")
    ensures found.Some? ==> r == Listed(DecryptedResults(found.value, open))
  {
    match found
    case None => GetError("Error retrieving passwords")
    case Some(docs) => Listed(DecryptedResults(docs, open))
  }

  /** A document whose password is a bare string comes out hashed, whatever the cipher would do. */
  lemma HashedSkipsDecrypt(item: Doc, open1: Decipher, open2: Decipher)
    requires Get(item, "password").Str?
    ensures DecryptItem(item, open1) == DecryptItem(item, open2) == item["password" := Str(HashedSentinel)]
  {
  }

  /** Missing or falsy password, `encryptedData` or `iv` gives the missing-fields sentinel, whatever the cipher. */
  lemma MissingFieldsSkipsDecrypt(item: Doc, open1: Decipher, open2: Decipher)
    requires !Get(item, "password").Str? && !HasEncryptedFields(Get(item, "password"))
    ensures DecryptItem(item, open1) == DecryptItem(item, open2) == item["password" := Str(MissingSentinel)]
  {
  }

  /** A payload whose decrypt throws gives exactly 'Decryption failed', every other field kept. */
  lemma DecryptFailureGivesSentinel(item: Doc, open: Decipher)
    requires var pw := Get(item, "password");
      !pw.Str? && HasEncryptedFields(pw) && Decrypt(Member(pw, "encryptedData"), Member(pw, "iv"), open).Failure?
    ensures DecryptItem(item, open) == item["password" := Str(FailedSentinel)]
  {
  }

  /** When the decipher succeeds the record carries the plaintext and every other field verbatim. */
  lemma DecryptedKeepsFields(item: Doc, open: Decipher, data: string, iv: string, plain: string)
    requires "password" in item && item["password"].Obj?
    requires Member(item["password"], "encryptedData") == Str(data) && Member(item["password"], "iv") == Str(iv)
    requires data != "" && iv != "" && open(data, iv) == Some(plain)
    ensures DecryptItem(item, open) == item["password" := Str(plain)]
    ensures forall k :: k in item && k != "password" ==> DecryptItem(item, open)[k] == item[k]
  {
  }

  /** Per-record isolation: changing one document, however broken, changes no other record's output. */
  lemma ListingIsolated(findResult: seq<Doc>, i: nat, other: Doc, open: Decipher)
    requires i < |findResult|
    ensures var before, after := DecryptedResults(findResult, open), DecryptedResults(findResult[i := other], open);
      |after| == |before| && forall j :: 0 <= j < |before| && j != i ==> after[j] == before[j]
  {
  }

  /**
   * Per-record isolation with respect to the cipher: two deciphers that
   * agree on one record's inputs give that record the same output,
   * whatever they do on the others.
   */
  lemma ListingDependsOnOwnRecord(findResult: seq<Doc>, j: nat, open1: Decipher, open2: Decipher)
    requires j < |findResult|
    requires var pw := Get(findResult[j], "password");
      Member(pw, "encryptedData").Str? && Member(pw, "iv").Str? ==>
        open1(Member(pw, "encryptedData").s, Member(pw, "iv").s) == open2(Member(pw, "encryptedData").s, Member(pw, "iv").s)
    ensures DecryptedResults(findResult, open1)[j] == DecryptedResults(findResult, open2)[j]
  {
    var item := findResult[j];
    var pw := Get(item, "password");
    assert Decrypt(Member(pw, "encryptedData"), Member(pw, "iv"), open1)
        == Decrypt(Member(pw, "encryptedData"), Member(pw, "iv"), open2);
    assert Classify(pw, open1) == Classify(pw, open2);
    assert DecryptItem(item, open1) == DecryptItem(item, open2);
  }

  /** The listing distributes over concatenation of the collection. */
  lemma ListingAppend(a: seq<Doc>, b: seq<Doc>, open: Decipher)
    ensures DecryptedResults(a + b, open) == DecryptedResults(a, open) + DecryptedResults(b, open)
  {
    MapEachAppend(item => DecryptItem(item, open), a, b);
  }
}
