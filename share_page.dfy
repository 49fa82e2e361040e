/**
 * The state of one mounted shared-secret page: the fetched record, the
 * memoised secret, the countdown text, the copy feedback flag, and what the
 * page asked the router and the clipboard to do.
 */
module SharePage {
  import opened Wrappers
  import opened Countdown
  import opened RevealGuards

  /** The time difference a tick computes; None stands for NaN. */
  function Difference(expirationTime: Option<int>, now: int): (d: Option<int>)
    ensures d.Some? <==> expirationTime.Some?
    ensures d.Some? ==> d.value + now == expirationTime.value
  {
    match expirationTime
    case None => None
    case Some(e) => Some(e - now)
  }

  class PublicPage {
    const id: QueryValue
    /** The `key` parameter after decodeURIComponent. */
    const publicKey: string
    const open: Decryptor
    /** `new Date(expiresAt).getTime()`; None when the string is not a date (NaN). */
    const dateTime: string -> Option<int>

    /** Every path the page pushed to the router, in order. */
    var navigations: seq<string>
    var data: Option<SharedSecret>
    var decryptedSecret: string
    /** Every (signedMessage, publicKey) handed to the decryptor, in order. */
    var decryptions: seq<(string, string)>
    var timeLeft: string
    var isUrlCopied: bool
    /** Every text the page wrote to the clipboard, in order. */
    var clipboardWrites: seq<string>

    ghost predicate Valid()
      reads this
    {
      decryptedSecret == DecryptedSecret(data, publicKey, open) &&
      IsTimeLeftDisplay(timeLeft)
    }

    /** Whether a tick does anything: `data && data.expiresAt`. */
    predicate HasExpiry()
      reads this
      ensures HasExpiry() ==> data != None && |data.value.expiresAt| > 0
      ensures data == None ==> !HasExpiry()
    {
      data.Some? && data.value.expiresAt != ""
    }

    /**
     * Mounting the page: the first render (no data yet, so the memo yields
     * "" without calling the decryptor) and the redirect effect.
     */
    constructor (id: QueryValue, publicKey: string, open: Decryptor, dateTime: string -> Option<int>)
      ensures Valid()
      ensures this.id == id && this.publicKey == publicKey
      ensures this.open == open && this.dateTime == dateTime
      ensures navigations == if ShouldRedirect(id, publicKey) then ["/404"] else []
      ensures data == None && decryptedSecret == "" && decryptions == []
      ensures timeLeft == "" && !isUrlCopied && clipboardWrites == []
    {
      this.id := id;
      this.publicKey := publicKey;
      this.open := open;
      this.dateTime := dateTime;
      data := None;
      decryptedSecret := "";
      decryptions := [];
      timeLeft := "";
      isUrlCopied := false;
      clipboardWrites := [];
      if !Truthy(id) || publicKey == "" {
        navigations := ["/404"];
      } else {
        navigations := [];
      }
    }

    /**
     * The fetch hook hands the page a new `data` value; the memo re-runs
     * and calls the decryptor only when the gate is open.
     */
    method DataArrived(d: Option<SharedSecret>)
      requires Valid()
      modifies this`data, this`decryptedSecret, this`decryptions
      ensures Valid()
      ensures data == d
      ensures decryptedSecret == DecryptedSecret(d, publicKey, open)
      ensures decryptions == old(decryptions) +
        if ReadyToOpen(d, publicKey) then [(d.value.signedValue, publicKey)] else []
    {
      data := d;
      if d.Some? && d.value.signedValue != "" && publicKey != "" {
        decryptedSecret := open(d.value.signedValue, publicKey);
        decryptions := decryptions + [(d.value.signedValue, publicKey)];
      } else {
        decryptedSecret := "";
      }
    }

    /** One run of `updateTimer` at wall-clock time `now`, in milliseconds. */
    method Tick(now: int)
      requires Valid()
      modifies this`timeLeft
      ensures Valid()
      ensures !old(HasExpiry()) ==> timeLeft == old(timeLeft)
      ensures HasExpiry() ==>
        timeLeft == TimeLeftText(Difference(dateTime(data.value.expiresAt), now))
      ensures HasExpiry() && dateTime(data.value.expiresAt).Some? ==>
        (timeLeft == ExpiredText <==> dateTime(data.value.expiresAt).value < now)
    {
      if data.Some? && data.value.expiresAt != "" {
        var expirationTime := dateTime(data.value.expiresAt);
        var timeDifference := Difference(expirationTime, now);
        if timeDifference.Some? && timeDifference.value < 0 {
          timeLeft := ExpiredText;
        } else {
          timeLeft := TimeLeftText(timeDifference);
        }
        TimeLeftTextIsDisplay(timeDifference);
        if timeDifference.Some? {
          ExpiredExactlyWhenNegative(timeDifference.value);
        }
      }
    }

    /** `copyUrlToClipboard`: writes the secret and raises the feedback flag. */
    method Copy()
      requires Valid()
      modifies this`clipboardWrites, this`isUrlCopied
      ensures Valid()
      ensures clipboardWrites == old(clipboardWrites) + [DecryptedSecret(data, publicKey, open)]
      ensures isUrlCopied
    {
      clipboardWrites := clipboardWrites + [decryptedSecret];
      isUrlCopied := true;
    }

    /** The 2000 ms timeout scheduled once the flag is up: it lowers the flag. */
    method CopiedResetFired()
      requires Valid()
      modifies this`isUrlCopied
      ensures Valid()
      ensures !isUrlCopied
    {
      isUrlCopied := false;
    }
  }

  /**
   * The scenario of a secret opened with key "pub1" that expires 3661000 ms
   * after the first tick.
   */
  method Scenario(open: Decryptor, dateTime: string -> Option<int>, now: int)
    requires dateTime("2024-01-01T01:01:01Z") == Some(now + 3661000)
  {
    var page := new PublicPage(Single("abc"), "pub1", open, dateTime);
    assert page.navigations == [];
    page.DataArrived(Some(SharedSecret("sv1", "2024-01-01T01:01:01Z")));
    assert page.decryptions == [("sv1", "pub1")];
    page.Tick(now);
    OneHourOneMinuteOneSecond();
    assert page.timeLeft == "1h 1m 1s";
    page.Copy();
    assert page.clipboardWrites == [open("sv1", "pub1")] && page.isUrlCopied;
    page.CopiedResetFired();
    assert !page.isUrlCopied;
  }
}
