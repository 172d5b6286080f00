# UTM link builder — a verified model

The MetaMask UTM generator is a single React form (`src/App.jsx`) that turns a
campaign description into a tracking link. This project models the logic
underneath the form:

- the twelve string fields of the form and the `copied` flag;
- `generateCampaignCode`: `cpm-`, an eight-digit serial, then `-afbf08`;
- the effect that regenerates the code when `campaignName`, `businessLine` or
  `utmSource` changes and all three are filled;
- `isValidUrl` and `isFormValid`;
- `generateUrl`: the two diagnostics, or the parsed URL followed by `?` or `&`
  and the `utm_source`, `utm_medium`, `utm_campaign` and optional
  `utm_content` parameters, serialized the way `URLSearchParams` does it;
- the validity guard of `copyToClipboard`, and `clearAll`.

Files:

- `strings.dfy` (module `Strings`): `Option`, JavaScript's `startsWith` and
  truthiness of strings.
- `form_urlencoded.dfy` (module `FormUrlEncoded`): the
  application/x-www-form-urlencoded serializer of section 5.2 of the WHATWG
  URL Standard, which `URLSearchParams.toString()` uses. It comes with the
  matching parser of section 5.1, written here as the serializer's partner:
  every round-trip lemma is stated against it.
- `campaign_code.dfy` (module `CampaignCodes`): the campaign code and the
  decimal form of its serial.
- `link_builder.dfy` (module `LinkBuilder`): the form record, the URL and
  form checks, and the URL composer.
- `form_state.dfy` (module `FormState`): the component state as a class
  `UtmForm` whose methods update its fields. Pure functions `Regenerate` and
  `Edit` specify the effect and one input event. A session of events is
  replayed on values to state what every reachable form satisfies.

The random draw of `generateCampaignCode` is the parameter `n`, the
already-floored serial in [10000000, 99999999]. The URL constructor
`new URL(...)` is the parameter `parse`: it returns `None` where the
constructor throws, or the URL's serialization (`href`) and its `search`.

## Behaviour worth noting

- `isValidUrl` is a prefix check only (src/App.jsx:70-73). `"ftp://bad"`
  fails it, so `isFormValid` is false and `generateUrl` returns "Please fill
  all required fields" without reaching the URL constructor
  (`LinkBuilder.SampleOtherScheme`). "Invalid URL format" is returned only
  when the URL passes the prefix check and the constructor throws
  (`LinkBuilder.SampleUnparsable`).
- The effect (src/App.jsx:63-67) sets a new code only when all three of
  `campaignName`, `businessLine` and `utmSource` are non-empty. While any
  of them is empty, the old code stays, even if it was generated for other
  values.
- A campaign code is 19 characters long: 4 for `cpm-`, 8 digits and 7 for
  `-afbf08` (src/App.jsx:56-60).
- The form has one destination field, `landingPageUrl`, taken as typed:
  there is no scheme choice, no custom-URL field and no normalisation of
  values before they are serialized.
- The parameters are appended after `url.toString()` (src/App.jsx:113).
  That string includes any fragment, so for `https://a.b/p#x` the
  parameters follow the `#x`. The lemmas state exactly this (href,
  separator, query), and nothing about where the query lands among the
  URL's components.

## Model

| member | source | states |
|---|---|---|
| `LinkBuilder.With` | src/App.jsx:5-16 | A setter changes its own field to the new value and leaves every other field as it was. |
| `LinkBuilder.IsValidUrl` | src/App.jsx:70-73 | A URL passes the check exactly when it is `http://` or `https://` followed by anything. The empty string fails. |
| `LinkBuilder.IsFormValid` | src/App.jsx:76-92 | In a valid form every field other than the tags is non-empty. |
| `LinkBuilder.FormValidIffEveryFieldAcceptable` | src/App.jsx:76-92 | The form is valid exactly when every field is acceptable: the URL passes the URL check, objective and tactic are non-empty and not `none selected`, the tags may hold anything, and every other field is non-empty. |
| `LinkBuilder.ClearingRequiredFieldInvalidates` | src/App.jsx:76-92 | Emptying any field other than the tags makes the form invalid. |
| `LinkBuilder.TagsNeverGateValidity` | src/App.jsx:76-92 | Changing the tags never changes validity. |
| `LinkBuilder.PlaceholderInvalidates` | src/App.jsx:84-87 | Choosing `none selected` for the objective or the tactic makes the form invalid. |
| `LinkBuilder.GenerateUrl` | src/App.jsx:95-117 | The result is "Please fill all required fields" exactly when the form is invalid. It is "Invalid URL format" exactly when the form is valid and the URL constructor throws. No composed URL equals either diagnostic. |
| `LinkBuilder.UtmParams` | src/App.jsx:104-110 | There are four parameters when the tags are non-empty and three otherwise. |
| `LinkBuilder.Separator` | src/App.jsx:113 | The separator is one character: `&` exactly when the parsed URL already has a query, `?` exactly when it has none. |
| `LinkBuilder.GeneratedUrlStartsWithHref` | src/App.jsx:112-113 | On success, the result starts with the parsed `href`. The next character is `&` when `search` is non-empty and `?` otherwise. The rest is the serialized parameter list. |
| `LinkBuilder.UtmKeysNeedNoEscaping` | src/App.jsx:104-109 | None of `utm_source`, `utm_medium`, `utm_campaign`, `utm_content` is changed by the serializer. |
| `LinkBuilder.GeneratedQueryPieces` | src/App.jsx:102-113 | On success, the query splits at `&` into one `key=value` piece per parameter: `utm_source`, `utm_medium`, `utm_campaign`, then `utm_content` only for non-empty tags. Each key is written as it is and each value form-urlencoded. |
| `LinkBuilder.GeneratedQueryParsesBack` | src/App.jsx:102-113 | On success, parsing the query gives back exactly the form's parameters in order, so no value can add, drop or reorder a pair. |
| `LinkBuilder.CampaignCodeEncodesAsItself` | src/App.jsx:106 | A well-shaped campaign code is serialized unchanged. |
| `LinkBuilder.GeneratedCodeAppearsVerbatim` | src/App.jsx:106 | With a generated code, the third piece of the query is `utm_campaign=` followed by the code itself. |
| `LinkBuilder.SampleOtherScheme` | src/App.jsx:95-98 | A form whose URL is `ftp://bad` produces "Please fill all required fields". |
| `LinkBuilder.SampleUnparsable` | src/App.jsx:100-116 | `http://` passes the URL check. If the constructor rejects it, the result is "Invalid URL format". |
| `FormUrlEncoded.Encode` | src/App.jsx:112 | Every output character is an unreserved character, `+` or `%`. So `&` and `=` never occur in an encoded value. |
| `FormUrlEncoded.Serialize` | src/App.jsx:112 | The serialization is empty exactly when there are no pairs. Every character of it is an unreserved character, `+`, `%`, `=` or `&`. |
| `FormUrlEncoded.EncodeConcat` | src/App.jsx:112 | Serializing a concatenation of two values gives the two serializations concatenated. |
| `FormUrlEncoded.SpaceBecomesPlus` | src/App.jsx:112 | A space inside a value is written as `+`, and the text on either side is serialized as on its own. |
| `FormUrlEncoded.DecodeEncode` | src/App.jsx:102-110 | Decoding an encoded value gives back the value. |
| `FormUrlEncoded.EncodeInjective` | src/App.jsx:102-110 | Different values encode differently. |
| `FormUrlEncoded.EncodeUnreserved` | src/App.jsx:102-110 | A value made only of ASCII alphanumerics and `*-._` is serialized unchanged. |
| `FormUrlEncoded.SerializePieces` | src/App.jsx:102-110 | A serialized list splits at `&` into exactly one `name=value` piece per pair, in order. |
| `FormUrlEncoded.ParseSerialize` | src/App.jsx:102-110 | Parsing a serialized list gives back the same pairs in the same order. |
| `CampaignCodes.DecimalString` | src/App.jsx:59 | A number is written as a non-empty string of decimal digits. Its first digit is `0` only for the number zero. |
| `CampaignCodes.SerialRangeIsEightDigits` | src/App.jsx:58 | The serial range [10000000, 99999999] is exactly the numbers from 10^7 up to, but not including, 10^8. |
| `CampaignCodes.GenerateCampaignCode` | src/App.jsx:56-60 | The code is 19 characters: `cpm-`, eight decimal digits that read back as the serial, then `-afbf08`. The first digit is never `0`. |
| `CampaignCodes.DigitsOfDecimal` | src/App.jsx:59 | Reading back the digits written for a number gives the number. |
| `CampaignCodes.DecimalOfDigits` | src/App.jsx:59 | Writing out the value of a digit string with no leading zero gives the string back. |
| `CampaignCodes.CodeInjective` | src/App.jsx:56-60 | Different serials give different codes. |
| `CampaignCodes.EveryShapedCodeIsGenerated` | src/App.jsx:56-60 | Every code of the right shape whose serial has no leading zero is produced by exactly its own serial, and that serial is in range. |
| `FormState.Regenerate` | src/App.jsx:63-67 | The effect changes only the code. When the three dependencies are filled, the code becomes the code of the serial. Otherwise the form is returned unchanged. A shaped code stays shaped. |
| `FormState.Edit` | src/App.jsx:63-67 | An input event sets its field and keeps every other input field. The code changes only when a dependency took a new value and all three dependencies are then filled, and then to the code of the serial. A shaped code stays shaped. |
| `FormState.UtmForm.constructor` | src/App.jsx:5-17 | Every field starts empty and `copied` starts false. |
| `FormState.UtmForm.Set` | src/App.jsx:5-16 | The setter updates one field, as `With` describes, and leaves `copied` alone. |
| `FormState.UtmForm.RunEffect` | src/App.jsx:63-67 | The fields become `Regenerate` of the old fields. `copied` is kept and the code invariant is preserved. |
| `FormState.UtmForm.Input` | src/App.jsx:63-67 | The fields become `Edit` of the old fields. `copied` is kept and the code invariant is preserved. |
| `FormState.UtmForm.ClearAll` | src/App.jsx:130-143 | All twelve fields, the code included, become empty. `copied` is unchanged. |
| `FormState.UtmForm.CopyToClipboard` | src/App.jsx:121-128 | The generated URL is written only when the form is valid, and nothing is written otherwise. Whenever something is written, the code field holds exactly the code of some in-range serial. `copied` turns on only for a valid form whose write succeeded. The fields do not change. |
| `FormState.UtmForm.CopiedTimeout` | src/App.jsx:125 | The timer turns `copied` off and changes nothing else. |
| `FormState.ReplayKeepsCodeShaped` | src/App.jsx:63-67 | No sequence of inputs and clears leaves anything in the code field but a generated code or nothing. |
| `FormState.ValidSessionCarriesGeneratedCode` | src/App.jsx:76-92 | After any session from the empty form, a valid form's code is exactly the code of some in-range serial. |
| `FormState.NonTriggerEditKeepsCode` | src/App.jsx:63-67 | Editing a field that is not one of the three dependencies keeps the code. |
| `FormState.EmptyingTriggerKeepsCode` | src/App.jsx:63-67 | Emptying a dependency keeps the old code, and the form is then invalid. |
| `FormState.IncompleteDependenciesKeepCode` | src/App.jsx:63-67 | Editing a dependency so that one of the three is empty keeps the code. |
| `FormState.ValidFormCarriesGeneratedCode` | src/App.jsx:76-92 | A valid form whose code field holds a generated code or nothing holds exactly the code of some in-range serial. |
| `FormState.ChangedTriggerRegenerates` | src/App.jsx:63-67 | Changing a dependency to a new value, with all three then filled, sets the code to the serial's code. |
| `FormState.ClearedFormIsIdle` | src/App.jsx:130-143 | The cleared form is invalid, and the effect leaves it as it is. |

## Left out

- The JSX markup and the dropdown option arrays (src/App.jsx:20-53, 145 onward) are presentation only. Validation depends only on the literal `none selected`.
- `Math.random()` and the floating-point arithmetic of `generateCampaignCode` are not modelled. The floored serial is a parameter with its range as a precondition.
- The URL constructor is not modelled: its parsing, normalisation (such as the trailing slash it adds) and serialization. It is a parameter that either fails or yields `href` and `search`.
- React's rendering and effect scheduling are not modelled. An input event is written out as the setter followed by the effect when a dependency's value changed. The effect's run on mount is not modelled; the empty initial form makes it a no-op (`FormState.ClearedFormIsIdle`).
- FormState.UtmForm.CopyToClipboard: does not model the asynchronous clipboard promise. Its outcome is the parameter `writeSucceeds`, applied in the same call.
- FormState.UtmForm.CopiedTimeout: does not model the two-second delay, or several pending timers. It is the timer's callback alone.
- Strings are sequences of Unicode scalar values. Lone UTF-16 surrogates, which `URLSearchParams` replaces with U+FFFD before encoding, cannot occur in the model.
- The form-urlencoded parser rejects malformed UTF-8 instead of substituting U+FFFD. It is used only as the serializer's partner, and serializer output is always well-formed.
