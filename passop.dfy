/**
 * The state of the client's `Manager` component and its handlers. The
 * network calls are abstracted to whether `fetch` resolved, `uuidv4()` to
 * ids passed in, `window.confirm` to a boolean and
 * `Math.floor(Math.random() * charset.length)` to supplied indices.
 */
module Passop {
  import opened Wrappers
  import opened JsValues

  /** `{ site: "", username: "", password: "" }`. */
  const EmptyForm: Doc := map["site" := Str(""), "username" := Str(""), "password" := Str("")]

  /** The alphabet `generatePassword` draws from. */
  const Charset: string := "abcdefghijklmnopqrstuvwxyzABCDEFGHIJKLMNOPQRSTUVWXYZ0123456789!@#$%^&*()"

  const PasswordLength: nat := 12

  lemma CharsetLength()
    ensures |Charset| == 72
  {
  }

  /** `entries.filter(item => item.id !== id)`. */
  function FilterOut(entries: seq<Doc>, id: JsValue): (r: seq<Doc>)
    ensures |r| <= |entries|
    ensures forall e :: e in r <==> e in entries && Get(e, "id") != id
  {
    if entries == [] then []
    else (if Get(entries[0], "id") != id then [entries[0]] else []) + FilterOut(entries[1..], id)
  }

  /** The filter keeps order: filtering a concatenation is concatenating the filtered parts. */
  lemma {:induction false} FilterOutAppend(a: seq<Doc>, b: seq<Doc>, id: JsValue)
    ensures FilterOut(a + b, id) == FilterOut(a, id) + FilterOut(b, id)
  {
    if a == [] {
      assert a + b == b;
    } else {
      assert (a + b)[1..] == a[1..] + b;
      FilterOutAppend(a[1..], b, id);
    }
  }

  /** With no entry carrying the id, the filter changes nothing. */
  lemma {:induction false} FilterOutNoMatch(entries: seq<Doc>, id: JsValue)
    requires forall j :: 0 <= j < |entries| ==> Get(entries[j], "id") != id
    ensures FilterOut(entries, id) == entries
  {
    if entries != [] {
      FilterOutNoMatch(entries[1..], id);
    }
  }

  /** How many entries carry the id. */
  function CountId(entries: seq<Doc>, id: JsValue): nat {
    if entries == [] then 0 else (if Get(entries[0], "id") == id then 1 else 0) + CountId(entries[1..], id)
  }

  /** Every entry carrying the id is removed: the length drops by exactly the number of matches. */
  lemma {:induction false} FilterOutLength(entries: seq<Doc>, id: JsValue)
    ensures |FilterOut(entries, id)| == |entries| - CountId(entries, id)
  {
    if entries != [] {
      FilterOutLength(entries[1..], id);
    }
  }

  /** The masked password cell, `"*".repeat(item.password.length)`: one asterisk per character. */
  function MaskedCell(password: string): (r: string)
    ensures |r| == |password|
    ensures forall i :: 0 <= i < |r| ==> r[i] == '*'
  {
    if password == "" then "" else "*" + MaskedCell(password[1..])
  }

  /** The loop of `generatePassword`: one charset character per supplied index. */
  method BuildPassword(draws: seq<nat>) returns (password: string)
    requires |draws| == PasswordLength
    requires forall i :: 0 <= i < |draws| ==> draws[i] < |Charset|
    ensures |password| == PasswordLength
    ensures forall i :: 0 <= i < |password| ==> password[i] == Charset[draws[i]]
    ensures forall i :: 0 <= i < |password| ==> password[i] in Charset
  {
    password := "";
    for i := 0 to PasswordLength
      invariant |password| == i
      invariant forall k :: 0 <= k < i ==> password[k] == Charset[draws[k]]
    {
      password := password + [Charset[draws[i]]];
    }
  }

  /** The position of a character in a string that contains it. */
  function IndexOf(s: string, c: char): (r: nat)
    requires c in s
    ensures r < |s| && s[r] == c
  {
    if s[0] == c then 0 else 1 + IndexOf(s[1..], c)
  }

  /**
   * Every twelve-character string over the charset is produced by some
   * choice of indices, so the generator's range is exactly those strings.
   */
  lemma GeneratorReachesEvery(target: string)
    requires |target| == PasswordLength
    requires forall i :: 0 <= i < |target| ==> target[i] in Charset
    ensures exists draws: seq<nat> ::
      && |draws| == PasswordLength
      && (forall i :: 0 <= i < |draws| ==> draws[i] < |Charset|)
      && (forall i :: 0 <= i < |draws| ==> Charset[draws[i]] == target[i])
  {
    var draws := seq(PasswordLength, i requires 0 <= i < PasswordLength => IndexOf(Charset, target[i]));
    assert forall i :: 0 <= i < |draws| ==> Charset[draws[i]] == target[i];
  }

  class Manager {
    var form: Doc
    var passwordsArray: seq<Doc>
    var loading: bool

    /** `useState` initial values. */
    constructor ()
      ensures form == EmptyForm && passwordsArray == [] && !loading
    {
      form, passwordsArray, loading := EmptyForm, [], false;
    }

    /** `getPasswords`: the fetched listing replaces the list; a failed fetch leaves it. */
    method GetPasswords(fetched: Option<seq<Doc>>)
      modifies this
      ensures passwordsArray == if fetched.Some? then fetched.value else old(passwordsArray)
      ensures form == old(form) && !loading
    {
      loading := true;
      if fetched.Some? {
        passwordsArray := fetched.value;
      }
      loading := false;
    }

    /**
     * `savePassword`: posts `{ ...form, id: sentId }`; once the request
     * resolves, appends `{ ...form, id: keptId }` (a second, separate uuid)
     * and clears the form. A rejected request changes neither.
     */
    method SavePassword(fetchOk: bool, sentId: string, keptId: string) returns (sent: Doc)
      modifies this
      ensures sent == old(form)["id" := Str(sentId)]
      ensures fetchOk ==> passwordsArray == old(passwordsArray) + [old(form)["id" := Str(keptId)]] && form == EmptyForm
      ensures !fetchOk ==> passwordsArray == old(passwordsArray) && form == old(form)
      ensures !loading
    {
      loading := true;
      sent := form["id" := Str(sentId)];
      if fetchOk {
        passwordsArray := passwordsArray + [form["id" := Str(keptId)]];
        form := EmptyForm;
      }
      loading := false;
    }

    /**
     * `deletePassword`: only a confirmed delete whose request resolves
     * filters the list; an unconfirmed one touches nothing, not even `loading`.
     */
    method DeletePassword(id: JsValue, confirmed: bool, fetchOk: bool)
      modifies this
      ensures passwordsArray == if confirmed && fetchOk then FilterOut(old(passwordsArray), id) else old(passwordsArray)
      ensures form == old(form)
      ensures loading == if confirmed then false else old(loading)
    {
      if confirmed {
        loading := true;
        if fetchOk {
          passwordsArray := FilterOut(passwordsArray, id);
        }
        loading := false;
      }
    }

    /**
     * `editPassword`: the form becomes a copy of the first entry with the
     * id (`{ ...undefined }`, the empty object, when there is none) and
     * every entry with the id leaves the list.
     */
    method EditPassword(id: JsValue)
      modifies this
      ensures form == match FirstIndex(old(passwordsArray), "id", id)
        case Some(k) => old(passwordsArray)[k]
        case None => map[]
      ensures passwordsArray == FilterOut(old(passwordsArray), id)
      ensures loading == old(loading)
    {
      var found := FirstIndex(passwordsArray, "id", id);
      form := match found
        case Some(k) => passwordsArray[k]
        case None => map[];
      passwordsArray := FilterOut(passwordsArray, id);
    }

    /** `handleChange`: the named field takes the input's value; every other field stays. */
    method HandleChange(name: string, value: string)
      modifies this
      ensures form == old(form)[name := Str(value)]
      ensures forall k :: k in old(form) && k != name ==> k in form && form[k] == old(form)[k]
      ensures passwordsArray == old(passwordsArray) && loading == old(loading)
    {
      form := form[name := Str(value)];
    }

    /**
     * `generatePassword`: builds the password, posts `{ password, id }`
     * (whose failure is caught inside `saveGeneratedPassword`) and then
     * sets only `form.password`.
     */
    method GeneratePassword(draws: seq<nat>, generatedId: string) returns (password: string, sent: Doc)
      requires |draws| == PasswordLength
      requires forall i :: 0 <= i < |draws| ==> draws[i] < |Charset|
      modifies this
      ensures |password| == PasswordLength
      ensures forall i :: 0 <= i < |password| ==> password[i] == Charset[draws[i]]
      ensures sent == map["password" := Str(password), "id" := Str(generatedId)]
      ensures form == old(form)["password" := Str(password)]
      ensures passwordsArray == old(passwordsArray) && !loading
    {
      password := BuildPassword(draws);
      loading := true;
      sent := map["password" := Str(password), "id" := Str(generatedId)];
      loading := false;
      form := form["password" := Str(password)];
    }
  }
}
