/**
 * The decisions the shared-secret page takes from its URL parameters and
 * the fetched record: whether to send the visitor to "/404", and whether
 * to open the signed secret.
 */
module RevealGuards {
  import opened Wrappers

  /**
   * A value of `router.query`: missing, one string, or several strings
   * when the parameter is repeated in the URL.
   */
  datatype QueryValue = Absent | Single(text: string) | Multiple(texts: seq<string>)

  /** JavaScript truthiness: `undefined` and "" are falsy, every array is truthy. */
  predicate Truthy(q: QueryValue) {
    match q
    case Absent => false
    case Single(t) => t != ""
    case Multiple(_) => true
  }

  function Join(texts: seq<string>, sep: char): (s: string)
    ensures |texts| == 1 ==> s == texts[0]
    ensures texts == [] ==> s == ""
  {
    if texts == [] then ""
    else if |texts| == 1 then texts[0]
    else Join(texts[..|texts| - 1], sep) + [sep] + texts[|texts| - 1]
  }

  /** Joining from the front gives the same text: the first element, the separator, then the rest joined. */
  lemma {:induction false} JoinFromFront(texts: seq<string>, sep: char)
    requires |texts| >= 2
    ensures Join(texts, sep) == texts[0] + [sep] + Join(texts[1..], sep)
    decreases |texts|
  {
    var init, last := texts[..|texts| - 1], texts[|texts| - 1];
    assert texts[1..][..|texts| - 2] == init[1..];
    assert texts[1..][|texts| - 2] == last;
    if |texts| > 2 {
      JoinFromFront(init, sep);
      assert init[0] == texts[0];
    }
  }

  /** Two keys reach the decoder as one comma-separated string. */
  lemma TwoKeysJoined(a: string, b: string)
    ensures KeyArgument(Multiple([a, b])) == a + "," + b
  {
    JoinFromFront([a, b], ',');
  }

  /**
   * The string `decodeURIComponent` receives for the `key` parameter:
   * `undefined` converts to "undefined" and an array to its elements
   * joined with commas.
   */
  function KeyArgument(key: QueryValue): (arg: string)
    ensures key == Absent ==> arg == "undefined"
    ensures key.Single? ==> arg == key.text
    ensures key.Multiple? && |key.texts| == 1 ==> arg == key.texts[0]
    ensures key.Multiple? ==> arg == Join(key.texts, ',')
  {
    match key
    case Absent => "undefined"
    case Single(t) => t
    case Multiple(ts) => Join(ts, ',')
  }

  /** The effect's test `!id || !publicKey`, over the already decoded key. */
  predicate ShouldRedirect(id: QueryValue, publicKey: string)
    ensures ShouldRedirect(id, publicKey) <==> id == Absent || id == Single("") || publicKey == ""
  {
    !Truthy(id) || publicKey == ""
  }

  /** The navigation the page requests on mount. */
  function RedirectTarget(id: QueryValue, publicKey: string): (target: Option<string>)
    ensures target.Some? ==> target.value == "/404"
    ensures target.Some? <==> (id == Absent || id == Single("") || publicKey == "")
  {
    if ShouldRedirect(id, publicKey) then Some("/404") else None
  }

  /**
   * A missing key does not by itself redirect: it reaches
   * decodeURIComponent as the word "undefined", which has no '%' escape and
   * so decodes to itself, a non-empty key.
   */
  lemma MissingKeyAloneDoesNotRedirect(id: QueryValue)
    requires Truthy(id)
    ensures KeyArgument(Absent) == "undefined" && '%' !in KeyArgument(Absent)
    ensures RedirectTarget(id, KeyArgument(Absent)) == None
  {
  }

  /** A repeated `id` parameter is an array, which is truthy even when empty. */
  lemma RepeatedIdNeverRedirects(ids: seq<string>, publicKey: string)
    requires publicKey != ""
    ensures RedirectTarget(Multiple(ids), publicKey) == None
  {
  }

  // ---------------------------------------------------------------------
  // The decryption gate

  /** The record the fetch hook returns for an id. */
  datatype SharedSecret = SharedSecret(signedValue: string, expiresAt: string)

  /** `openSignedAssymmetric({signedMessage, publicKey})`, whose source is not part of this model. */
  type Decryptor = (string, string) -> string

  /** The test `data && data.signedValue && publicKey`. */
  predicate ReadyToOpen(data: Option<SharedSecret>, publicKey: string)
    ensures ReadyToOpen(data, publicKey) ==> data != None && |data.value.signedValue| > 0 && |publicKey| > 0
    ensures data == None || publicKey == "" ==> !ReadyToOpen(data, publicKey)
  {
    data.Some? && data.value.signedValue != "" && publicKey != ""
  }

  /** The memoised `decryptedSecret`. */
  function DecryptedSecret(data: Option<SharedSecret>, publicKey: string, open: Decryptor): (secret: string)
    ensures data.None? ==> secret == ""
    ensures data.Some? && data.value.signedValue != "" && publicKey != "" ==>
      secret == open(data.value.signedValue, publicKey)
    ensures (data.Some? && data.value.signedValue == "") || publicKey == "" ==> secret == ""
  {
    if ReadyToOpen(data, publicKey) then open(data.value.signedValue, publicKey) else ""
  }

  /**
   * The page shows an empty secret exactly when it has nothing to open or
   * when the decryptor itself returned "": the two are indistinguishable.
   */
  lemma EmptySecretIff(data: Option<SharedSecret>, publicKey: string, open: Decryptor)
    ensures DecryptedSecret(data, publicKey, open) == "" <==>
      !ReadyToOpen(data, publicKey) || open(data.value.signedValue, publicKey) == ""
  {
  }

  /** The secret depends on the record only through its signed value, never on its expiry. */
  lemma SecretIgnoresExpiry(signedValue: string, expiresAt1: string, expiresAt2: string,
                            publicKey: string, open: Decryptor)
    ensures DecryptedSecret(Some(SharedSecret(signedValue, expiresAt1)), publicKey, open) ==
            DecryptedSecret(Some(SharedSecret(signedValue, expiresAt2)), publicKey, open)
  {
  }
}
