# Shared-secret reveal page, modelled in Dafny

This project models the logic of the public page on which a recipient
opens a secret shared through Infisical
(`frontend/src/views/ShareSecretPublicPage/ShareSecretPublicPage.tsx`). The
page reads an `id` and a URL-encoded public `key` from the address. It sends
the visitor to "/404" when `id` is missing or empty, or when the key decodes
to the empty string. It fetches the shared-secret
record and opens its signed value with the public key. It shows a countdown
to the record's expiry, refreshed every second. A copy button writes the
secret to the clipboard and briefly raises an "URL copied" flag.

Modules:

- `Wrappers`: the `Option` type, standing for JavaScript's `undefined` and `NaN`.
- `DecimalText`: the decimal text a template literal gives a whole
  non-negative number, and the inverse reading of it.
- `Countdown`: the arithmetic and the text of `updateTimer`. It also holds
  `ParseTimeLeft`, which reads a countdown text back into hours, minutes and
  seconds. That reader is the inverse of the countdown text and shows the
  text is unambiguous.
- `RevealGuards`: the redirect test on the URL parameters and the gate in
  front of the decryptor.
- `SharePage`: the class `PublicPage`, one mounted page. Its fields are the
  ones the component updates: the fetched `data`, the memoised
  `decryptedSecret`, `timeLeft`, `isUrlCopied`, and logs of router pushes,
  decryptor calls and clipboard writes. Its methods are the events that
  update them: the fetch delivering data, a timer tick, a copy and the reset
  timeout. `Valid()` is the invariant every event keeps: the secret is
  always the gate's value for the current data, and `timeLeft` is always ""
  or one of the texts a tick can store.

External collaborators are parameters. The decryptor `openSignedAssymmetric`
is a function value `open`. Date parsing, `new Date(expiresAt).getTime()`, is
a function value `dateTime` that gives `None` for an unparseable date (`NaN`
in JavaScript). The wall clock is the `now` argument of `Tick`.

Two edge cases of the code are modelled as written:

- An `expiresAt` that is not a date makes the difference `NaN`. `NaN < 0` is
  false, so the page shows "NaNh NaNm NaNs".
- A missing `key` is converted to the string "undefined" before decoding, so
  it does not cause a redirect by itself. Only a missing or empty `id`, or a
  key that decodes to "", does.

## Model

| member | source | states |
|---|---|---|
| `Countdown.Decompose` | frontend/src/views/ShareSecretPublicPage/ShareSecretPublicPage.tsx:55-57 | for a non-negative difference, hours are in 0..23 and minutes and seconds in 0..59 |
| `Countdown.DecomposeBrackets` | frontend/src/views/ShareSecretPublicPage/ShareSecretPublicPage.tsx:41-57 | h·3600000 + m·60000 + s·1000 ≤ d mod 86400000 < that sum + 1000 |
| `Countdown.DecomposeUnique` | frontend/src/views/ShareSecretPublicPage/ShareSecretPublicPage.tsx:41-57 | any in-range triple that brackets d mod 86400000 in this way is the one displayed |
| `Countdown.HoursWrapAtOneDay` | frontend/src/views/ShareSecretPublicPage/ShareSecretPublicPage.tsx:55 | the hours shown are floor(d / 3600000) mod 24, not the total number of hours left |
| `Countdown.DecomposeDropsDays` | frontend/src/views/ShareSecretPublicPage/ShareSecretPublicPage.tsx:55-57 | adding any whole number of days leaves hours, minutes and seconds unchanged |
| `Countdown.WholeDaysDropped` | frontend/src/views/ShareSecretPublicPage/ShareSecretPublicPage.tsx:55-58 | d and d + k·86400000 show the same text |
| `Countdown.ExpiredExactlyWhenNegative` | frontend/src/views/ShareSecretPublicPage/ShareSecretPublicPage.tsx:50-58 | the text is "Expired" if and only if the difference is negative |
| `Countdown.ZeroIsNotExpired` | frontend/src/views/ShareSecretPublicPage/ShareSecretPublicPage.tsx:52-58 | a difference of exactly 0 shows "0h 0m 0s", because the test is a strict < 0 |
| `Countdown.OneHourOneMinuteOneSecond` | frontend/src/views/ShareSecretPublicPage/ShareSecretPublicPage.tsx:55-58 | a difference of 3661000 ms shows "1h 1m 1s" |
| `Countdown.Render` | frontend/src/views/ShareSecretPublicPage/ShareSecretPublicPage.tsx:58 | the template literal `<h>h <m>m <s>s`: at least 8 characters, starting with a digit and ending in "s", so never "Expired" or the NaN text |
| `Countdown.TimeLeftText` | frontend/src/views/ShareSecretPublicPage/ShareSecretPublicPage.tsx:50-58 | the text a tick stores for a difference: "NaNh NaNm NaNs" exactly when the difference is NaN, "Expired" exactly when it is negative, otherwise the rendered countdown |
| `Countdown.RenderNoLeadingZero` | frontend/src/views/ShareSecretPublicPage/ShareSecretPublicPage.tsx:58 | the hours field is written without a leading zero, so a text starting with "0" has "h" next |
| `Countdown.RenderParses` | frontend/src/views/ShareSecretPublicPage/ShareSecretPublicPage.tsx:58 | the text "<h>h <m>m <s>s" reads back as exactly the three numbers it was built from |
| `Countdown.RenderInjective` | frontend/src/views/ShareSecretPublicPage/ShareSecretPublicPage.tsx:58 | different triples never produce the same text |
| `Countdown.TimeLeftMeaning` | frontend/src/views/ShareSecretPublicPage/ShareSecretPublicPage.tsx:41-58 | for d ≥ 0 the stored text reads back as an in-range triple that is the time left within the day, truncated to whole seconds |
| `Countdown.TimeLeftTextIsDisplay` | frontend/src/views/ShareSecretPublicPage/ShareSecretPublicPage.tsx:50-58 | every tick stores "Expired", "NaNh NaNm NaNs" or exactly the rendering of an in-range triple, which excludes texts with leading zeros |
| `DecimalText.NatToText` | frontend/src/views/ShareSecretPublicPage/ShareSecretPublicPage.tsx:58 | a number is rendered as at least one digit, with no leading zero, and as "0" exactly for 0 |
| `DecimalText.NatToTextValue` | frontend/src/views/ShareSecretPublicPage/ShareSecretPublicPage.tsx:58 | the rendered digits denote the number |
| `RevealGuards.KeyArgument` | frontend/src/views/ShareSecretPublicPage/ShareSecretPublicPage.tsx:15-17 | the string `decodeURIComponent(urlEncodedPublicKey as string)` receives: "undefined" for a missing key, the text itself for one key, the comma-joined texts for a repeated key |
| `RevealGuards.TwoKeysJoined` | frontend/src/views/ShareSecretPublicPage/ShareSecretPublicPage.tsx:15-17 | a key given twice, `a` and `b`, reaches the decoder as the single string "a,b" |
| `RevealGuards.ShouldRedirect` | frontend/src/views/ShareSecretPublicPage/ShareSecretPublicPage.tsx:19 | the negated truthiness test on `id` and `publicKey`: true exactly when `id` is undefined or "" or the decoded key is "" |
| `RevealGuards.RedirectTarget` | frontend/src/views/ShareSecretPublicPage/ShareSecretPublicPage.tsx:18-22 | "/404" is requested exactly when `id` is missing or "", or the decoded key is "" |
| `RevealGuards.MissingKeyAloneDoesNotRedirect` | frontend/src/views/ShareSecretPublicPage/ShareSecretPublicPage.tsx:15-21 | a missing key reaches the decoder as "undefined", which has no escape, so with a present id there is no redirect |
| `RevealGuards.RepeatedIdNeverRedirects` | frontend/src/views/ShareSecretPublicPage/ShareSecretPublicPage.tsx:19 | an id given several times is an array, which is truthy, so only an empty key redirects |
| `RevealGuards.ReadyToOpen` | frontend/src/views/ShareSecretPublicPage/ShareSecretPublicPage.tsx:26 | the test `data && data.signedValue && publicKey`: it needs a record, a non-empty signed value and a non-empty key |
| `RevealGuards.DecryptedSecret` | frontend/src/views/ShareSecretPublicPage/ShareSecretPublicPage.tsx:25-34 | the secret is "" without data, with an empty signed value or with an empty key; otherwise it is the decryptor's result for (signedValue, publicKey) |
| `RevealGuards.EmptySecretIff` | frontend/src/views/ShareSecretPublicPage/ShareSecretPublicPage.tsx:25-34 | the secret is "" exactly when the gate is closed or the decryptor returned "" |
| `RevealGuards.SecretIgnoresExpiry` | frontend/src/views/ShareSecretPublicPage/ShareSecretPublicPage.tsx:25-34 | the secret does not depend on the record's expiry |
| `SharePage.Difference` | frontend/src/views/ShareSecretPublicPage/ShareSecretPublicPage.tsx:48-50 | the difference is NaN exactly when the expiry is NaN, and otherwise adds to `now` to give the expiry |
| `SharePage.PublicPage.constructor` | frontend/src/views/ShareSecretPublicPage/ShareSecretPublicPage.tsx:14-39 | on mount: "/404" pushed exactly when the redirect test holds, no data, secret "", no decryptor call, `timeLeft` "", flag down |
| `SharePage.PublicPage.HasExpiry` | frontend/src/views/ShareSecretPublicPage/ShareSecretPublicPage.tsx:47 | the test `data && data.expiresAt`: it needs a record with a non-empty expiry, and fails without data |
| `SharePage.PublicPage.DataArrived` | frontend/src/views/ShareSecretPublicPage/ShareSecretPublicPage.tsx:24-34 | new data re-runs the memo; the decryptor is called once, with (signedValue, publicKey), exactly when the gate is open |
| `SharePage.PublicPage.Tick` | frontend/src/views/ShareSecretPublicPage/ShareSecretPublicPage.tsx:46-61 | without data or expiry `timeLeft` is unchanged; otherwise it becomes the countdown text, "Expired" exactly when the expiry is before `now` |
| `SharePage.PublicPage.Copy` | frontend/src/views/ShareSecretPublicPage/ShareSecretPublicPage.tsx:74-77 | the secret is appended to the clipboard writes and the flag is raised |
| `SharePage.PublicPage.CopiedResetFired` | frontend/src/views/ShareSecretPublicPage/ShareSecretPublicPage.tsx:67-71 | the reset timeout lowers the flag and changes nothing else |

## Left out

- The internals of `openSignedAssymmetric`: its source is not part of this model. It is the parameter `open`. A decryption that throws would fail the render; that error path is not modelled.
- `decodeURIComponent`: the page takes the already decoded key. A malformed escape, which makes it throw, is not modelled. Only the conversion of a missing or repeated `key` to the string it receives is modelled (`KeyArgument`).
- Date parsing and the wall clock: `dateTime` and `now` are parameters.
- IEEE-754 arithmetic: the difference of two timestamps is computed exactly. Beyond 2^53 ms a JavaScript subtraction could round; real timestamps are far below that.
- Scheduling: `setInterval` with its 1000 ms period, `clearInterval` on unmount or when `expiresAt` changes, and the `setTimeout` of 2000 ms. Each timer callback is an explicit method (`Tick`, `CopiedResetFired`) that the caller invokes. So the model does not say that the first tick comes one second after the data, nor that the reset comes 2000 ms after a copy.
- `useTimedReset`: its source is not part of this model. Only the flag it holds and the setter the page calls are modelled.
- SharePage.PublicPage.constructor: `id` and `publicKey` are constants of `PublicPage`. So the model does not cover the redirect effect re-running when `[id, publicKey]` change (line 22), nor the memo re-running when `publicKey` changes (line 34). A change of URL parameters is a new page in this model.
- SharePage.PublicPage.DataArrived: every call re-runs the memo. React re-runs it only when the `data` object changes identity, which a value model cannot tell apart.
- The data-fetching hook `useGetActiveSharedSecretById`, its `isLoading` flag, and all rendering (lines 79-116): `DataArrived` stands for the hook delivering a value.
- The clipboard API: `clipboardWrites` records what the page asked to write, not whether the write succeeded.
- The settings page shell and the support-widget bootstrap: they are layout and third-party SDK calls, with no logic of their own.
