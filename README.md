# OTP input rules and launch-time session check

This project models two pieces of logic from a React Native client that signs
users in against a hosted identity provider:

- `OtpCodeInput` (module `OtpCode`, file `otp_code.dfy`), the one-time-code
  field. It cleans typed or pasted text down to digits, truncates to `length`
  (6 by default), makes Backspace drop the last character, lays the value out
  into boxes, picks the highlighted box, and does nothing while `isDisabled`
  is set. The `onChangeCode` callback is modelled as the value a handler
  emits: `Some(code)`, or `None` when the callback is not called.
- `checkAuthState` of the launch screen (module `LaunchCheck`, file
  `launch_check.dfy`). It fetches the session. If the session has an id token,
  it goes home. Otherwise it waits 200 ms, fetches once more, and goes home on
  an id token. Otherwise it calls `getCurrentUser` and goes home if that
  returns. Any throw goes to sign-in, and a `finally` block clears
  `isLoading`. The provider calls are an oracle (`Oracle`: one answer per
  call, either a value or a throw). The screen is a class, `IndexScreen`,
  holding `isLoading` and a log of `Effect`s: provider calls, the delay and
  `router.replace` calls. `CheckAuthState` is proved equal to the
  specification function `LaunchTrace`. The properties are proved about that
  function, partly against a second, independent reading of the decision:
  three probes in a row, where the first one that does not come back
  empty-handed decides.

The session fetch is retried once, after 200 ms. The code length is the
`length` prop, 6 by default.

`length` is modelled as an integer with JavaScript `slice(0, end)` semantics.
A negative `end` counts back from the end of the string. Because of that,
idempotence of the cleaning step holds only for `length >= 0`, and
`SanitizeNegativeLengthDropsFromEnd` shows the negative case. Nothing calls the
component with a negative length.

## Model

| member | source | states |
|---|---|---|
| `OtpCode.StripNonDigits` | src/components/auth/otp-code.tsx:42 | removing `\D` leaves only the characters `0`–`9` and never lengthens the text |
| `OtpCode.StripNonDigitsKeepsOrder` | src/components/auth/otp-code.tsx:42 | the digits kept are a subsequence of the input: their order is preserved |
| `OtpCode.StripNonDigitsCounts` | src/components/auth/otp-code.tsx:42 | each digit occurs in the result exactly as often as in the input; no non-digit occurs |
| `OtpCode.StripNonDigitsConcat` | src/components/auth/otp-code.tsx:42 | cleaning a concatenation is the concatenation of the cleaned parts |
| `OtpCode.StripNonDigitsFixesDigits` | src/components/auth/otp-code.tsx:42 | a string made only of digits is left unchanged |
| `OtpCode.StripNonDigitsSkipsOne` | src/components/auth/otp-code.tsx:42 | one non-digit between two runs of digits is removed and the runs are joined |
| `OtpCode.Sanitize` | src/components/auth/otp-code.tsx:42 | the cleaned code contains only digits, and for `length >= 0` has at most `length` of them |
| `OtpCode.SanitizeTakesLeadingDigits` | src/components/auth/otp-code.tsx:42 | for `length >= 0` the code is a prefix of the input's digits, of length min(`length`, number of digits) |
| `OtpCode.SanitizeFixesValidCode` | src/components/auth/otp-code.tsx:42 | an all-digit code of at most `length` characters comes back unchanged |
| `OtpCode.SanitizeIdempotent` | src/components/auth/otp-code.tsx:42 | for `length >= 0`, cleaning an already-cleaned code returns it unchanged |
| `OtpCode.SanitizeExample` | src/components/auth/otp-code.tsx:21-42 | with the default length 6, `"12a3456789"` becomes `"123456"` |
| `OtpCode.SanitizeNegativeLengthDropsFromEnd` | src/components/auth/otp-code.tsx:42 | with `length = -1` the slice drops the last digit each time, so cleaning twice differs from cleaning once |
| `OtpCode.HandleChangeText` | src/components/auth/otp-code.tsx:40-44 | nothing is emitted exactly when disabled; otherwise the emitted code is all digits and, for `length >= 0`, at most `length` long |
| `OtpCode.TypingDigitAppends` | src/components/auth/otp-code.tsx:40-44 | typing a digit into a valid code that has room emits the code with that digit appended |
| `OtpCode.TypingNonDigitIsIgnored` | src/components/auth/otp-code.tsx:40-44 | typing a non-digit after a valid code emits the code unchanged |
| `OtpCode.HandleKeyPress` | src/components/auth/otp-code.tsx:46-51 | a code is emitted exactly when the field is enabled, the key is Backspace and the value is non-empty; it is the value minus its last character |
| `OtpCode.BackspaceKeepsValidCode` | src/components/auth/otp-code.tsx:46-51 | Backspace on a valid code emits a valid code |
| `OtpCode.BackspaceThenRetype` | src/components/auth/otp-code.tsx:40-51 | Backspace and then retyping the deleted digit restores the original code |
| `OtpCode.Slots` | src/components/auth/otp-code.tsx:29-33 | the box layout has `length` boxes for `length >= 0`; box i shows `value[i]` if it exists and is empty otherwise |
| `OtpCode.Digits` | src/components/auth/otp-code.tsx:29-33 | the padding loop yields exactly `length` boxes (for `length >= 0`), box i holding `value[i]` for i < \|value\| and `''` after, and equals `Slots` |
| `OtpCode.ActiveIndex` | src/components/auth/otp-code.tsx:53 | for `length >= 1` the index lies in [0, length-1]; it is \|value\| while \|value\| < length and length-1 otherwise |
| `OtpCode.ActiveSlotIsNextToFill` | src/components/auth/otp-code.tsx:53 | with `length >= 1` the active box exists, every box before it is filled, and it is the first empty box while the code is short and the last box once full |
| `OtpCode.IsActiveSlot` | src/components/auth/otp-code.tsx:59 | a box drawn highlighted is, whenever there is at least one box, an existing box |
| `OtpCode.HighlightedBoxesFollowActiveIndex` | src/components/auth/otp-code.tsx:53-59 | the set of highlighted boxes is exactly {`activeIndex`} for an enabled field with `length >= 1`, and empty when the field is disabled or has no boxes |
| `OtpCode.ResolveLength` | src/components/auth/otp-code.tsx:21 | an omitted `length` prop is 6; a given one is used as it is |
| `OtpCode.SliceEnd` | src/components/auth/otp-code.tsx:30-42 | `slice(0, end)` keeps `end` elements when 0 <= end <= len, all of them when end > len, drops the last -end when -len <= end < 0, and keeps none below that |
| `LaunchCheck.LaunchTrace` | app/index.tsx:15-47 | every run starts with a session fetch and ends with a `router.replace` |
| `LaunchCheck.SomeProbeDecides` | app/index.tsx:19-39 | exactly one of the three probes (fetch, retried fetch, `getCurrentUser`) is the first that does not come back empty-handed |
| `LaunchCheck.TraceFollowsDecidingProbe` | app/index.tsx:19-39 | the run makes the calls of the probes up to the deciding one, with the 200 ms delay before the retry, then navigates once: home if that probe succeeded, sign-in if it failed |
| `LaunchCheck.HomeIffProbeSucceededFirst` | app/index.tsx:19-39 | the destination is home if and only if some probe succeeded before any failure |
| `LaunchCheck.FailureRoutesToSignIn` | app/index.tsx:37-39 | a failing session fetch or `getCurrentUser` sends the user to sign-in |
| `LaunchCheck.FirstTokenGoesHome` | app/index.tsx:19-23 | an id token on the first fetch goes home with no further provider call |
| `LaunchCheck.RetryOnlyAfterFirstMiss` | app/index.tsx:25-32 | at most two session fetches; the second, preceded by the 200 ms delay, happens exactly when the first fetch returned no id token |
| `LaunchCheck.UserLookupOnlyAfterTwoMisses` | app/index.tsx:33-36 | `getCurrentUser` is called at most once, exactly when both fetches returned no id token, and its normal return goes home |
| `LaunchCheck.ExactlyOneNavigation` | app/index.tsx:16-44 | every run calls `router.replace` exactly once, so the safety net never adds a second navigation and never has to supply the only one |
| `LaunchCheck.IndexScreen.constructor` | app/index.tsx:9 | the screen starts loading, with nothing done yet |
| `LaunchCheck.IndexScreen.CheckAuthState` | app/index.tsx:15-47 | the try/catch/finally body, with its `didNavigate` flag, appends exactly `LaunchTrace(o)` to the effects and always clears `isLoading`; the `finally` guard is proved never to fire |

## Left out

- Rendering, styles, `Pressable`, and `handlePress` with its `inputRef.focus()` call are left out. They are presentation only.
- The native `maxLength` prop of the hidden `TextInput` is left out. The platform text input enforces it, not this code.
- A non-integer or `NaN` `length` number is left out. `length` is an integer here.
- Characters are Unicode scalar values. A character outside the BMP, which is two UTF-16 code units in JavaScript, is one element here. This changes `Digits`, `ActiveIndex` and `HandleKeyPress` only for such a `value`, which the field's own output never contains. Only `0`–`9` count as digits, as for `\d` in JavaScript.
- The 200 ms `setTimeout` is recorded as a `Delay(200)` effect. No clock is modelled.
- `fetchAuthSession` and `getCurrentUser` are opaque oracle answers. An empty-string id token, which is falsy in JavaScript, is folded into `hasIdToken = false`.
- `router.replace` is modelled as recording its route and never throwing. A throwing `router.replace` inside the try block would reach the catch and navigate a second time. That case is not modelled.
- The two identical render branches of the launch screen are left out. Both draw the same blank view.
- The screen runs `checkAuthState` once on mount through `useEffect`. Mounting is left out; a caller invokes the method instead.
- The SDK configuration, layouts, component registration, configuration files and type declarations are left out. They contain no logic.
- Redirect and deep-link handling, nonce correlation, OTP submission and multi-attempt backoff are left out. None of these appears in the modelled files.
