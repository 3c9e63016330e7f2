# UUSwiftUX link taps and text-field chains, in Dafny

A model of the two components of UUSwiftUX that carry behaviour beyond UIKit
glue:

- **`UULinkTapGestureHandler`** (module `LinkTap`): a registry of
  phrase -> action bindings with an optional default action, `setup`, which
  rebuilds the registry from the link runs of an attributed string, and the
  tap rule. A tap on a word fires the first registered phrase that matches
  the word and stops; if nothing matches, the default action fires. A phrase
  matches when, after each of `@ . : /` becomes a space and the phrase is
  split on single spaces, one of its pieces equals the word, ignoring case.
  The model proves that this split-and-compare loop (`DidTapOnPhrase`)
  decides exactly `TapMatches`. `TapMatches` says that the word equals one
  separator-delimited token of the original phrase.
- **`UUTextFieldDelegate`** and its `Configuration` (module `TextFields`):
  an ordered list of managed fields. Each field holds a text (`String?`) and
  a first-responder flag. The module covers the completeness test, the
  first-responder search, moving focus on with wrap-around, resigning every
  field, the decision taken when return is pressed, the maximum-length check
  on an edit and the rewrite applied after each edit.

Module `Strings` holds the character helpers both modules use: ASCII case
mapping and the whitespace test. Module `Wrappers` holds `Option`.

The model takes inputs where the source relies on UIKit:

- The tapped word arrives as an `Option<string>`. `None` stands for a failed
  hit test, position lookup or word lookup.
- The link runs of the attributed string arrive as a list of
  `(url, location, length)` spans over its text.
- The field that presses return is `Some(k)` for managed field `k`, or
  `None` for a field that still has this delegate but was dropped from the
  managed list by a later `addManagedTextFields`.
- The edited field is the index of a managed field (`TextFieldChanged`), or
  the field value itself for any field (`RewriteField`).

Closures are opaque `Action` values. The closure that `setup` registers is
`OpenLink(url)`.

The post-edit rewrite calls `trimmingCharacters(in: allowedCharacterSet.inverted)`,
which removes disallowed characters only at the two ends: with digits allowed,
`"a1b2"` gives `"1b2"`, as `TrimKeepsInterior` proves.

`allFieldsHaveText` is true for an empty field list, as the code's loop
gives.

## Model

| member | source | states |
|---|---|---|
| `LinkTap.LinkTapGestureHandler.constructor` | UUSwiftUX/UULinkTapGestureHandler.swift:45-54 | a new handler has no phrase bindings and no default action |
| `LinkTap.LinkTapGestureHandler.AddAction` | UUSwiftUX/UULinkTapGestureHandler.swift:56-59 | afterwards the phrase maps to the new action, overwriting any earlier binding; every other key and its action, and the default action, are unchanged |
| `LinkTap.LinkTapGestureHandler.Reset` | UUSwiftUX/UULinkTapGestureHandler.swift:61-64 | the phrase map is empty and the default action is unchanged |
| `LinkTap.LinkTapGestureHandler.SetupDefaultAction` | UUSwiftUX/UULinkTapGestureHandler.swift:66-69 | the default action is the one given and the phrase map is unchanged |
| `LinkTap.LinkTapGestureHandler.Setup` | UUSwiftUX/UULinkTapGestureHandler.swift:71-96 | the map is rebuilt from empty: a missing attributed string leaves it empty; otherwise it is `LinkActions` of the runs, taken in order; the default action is unchanged |
| `LinkTap.LinkActionsKeys` | UUSwiftUX/UULinkTapGestureHandler.swift:73-92 | after `setup` the keys are exactly the texts of the runs that carry a URL, have length > 0 and are not whitespace only |
| `LinkTap.LinkActionsValue` | UUSwiftUX/UULinkTapGestureHandler.swift:83-91 | each key maps to `OpenLink` of the URL of the last run registering it; later runs overwrite earlier ones |
| `LinkTap.SetupExamples` | UUSwiftUX/UULinkTapGestureHandler.swift:80-92 | a link over whitespace only registers nothing; a link over `" a@b.c"` is registered under the untrimmed `" a@b.c"` |
| `LinkTap.LinkTapGestureHandler.HandleTapGesture` | UUSwiftUX/UULinkTapGestureHandler.swift:98-124 | if a word was resolved and some registered phrase matches it, exactly one matching phrase's action fires and the default does not; otherwise the default action fires when set and nothing fires when it is not |
| `LinkTap.DidTapOnPhrase` | UUSwiftUX/UULinkTapGestureHandler.swift:126-145 | the split-and-compare loop answers true iff the word equals, ignoring case, some token of the target delimited by `@ . : /` or space (`TapMatches`) |
| `LinkTap.ReplacingOccurrences` | UUSwiftUX/UULinkTapGestureHandler.swift:130-133 | every occurrence of the character becomes the replacement; all other characters and the length are kept |
| `LinkTap.SpacedTarget` | UUSwiftUX/UULinkTapGestureHandler.swift:130-133 | the four rewrites put a space exactly where the target has one of `@ . : /` or a space, and keep every other character |
| `LinkTap.Components` | UUSwiftUX/UULinkTapGestureHandler.swift:135 | splitting on single spaces gives at least one piece |
| `LinkTap.JoinComponents` | UUSwiftUX/UULinkTapGestureHandler.swift:135 | joining the pieces with single spaces gives back the string, and no piece contains a space |
| `LinkTap.ComponentIsDelimited` | UUSwiftUX/UULinkTapGestureHandler.swift:135 | every piece is a maximal space-free run of the string |
| `LinkTap.DelimitedIsComponent` | UUSwiftUX/UULinkTapGestureHandler.swift:135 | every maximal space-free run of the string, empty runs included, is a piece |
| `LinkTap.SpacedTargetDelimited` | UUSwiftUX/UULinkTapGestureHandler.swift:130-135 | rewriting separators to spaces moves no token boundary and leaves each token's text intact |
| `LinkTap.PlainPhraseMatches` | UUSwiftUX/UULinkTapGestureHandler.swift:130-142 | a target with none of `@ . : /` or space matches exactly the words equal to it, ignoring case |
| `LinkTap.EmailDomainMatches` | UUSwiftUX/UULinkTapGestureHandler.swift:128-142 | `"Example"` matches the phrase `"user@example.com"` |
| `Strings.Lowercased` | UUSwiftUX/UULinkTapGestureHandler.swift:138 | lower-casing keeps the length and leaves no upper-case letter; every character is kept except upper-case letters, each of which becomes its lower-case partner |
| `Strings.LowercasedIdempotent` | UUSwiftUX/UULinkTapGestureHandler.swift:138 | lower-casing an already lower-cased string changes nothing |
| `TextFields.DefaultConfigurationIsPermissive` | UUSwiftUX/UUTextField.swift:93-107 | under the default configuration every edit is allowed and the text after an edit is left exactly as typed |
| `TextFields.TextFieldDelegate.constructor` | UUSwiftUX/UUTextField.swift:110-129 | the delegate holds the given configuration and field list |
| `TextFields.TextFieldDelegate.AddManagedTextFields` | UUSwiftUX/UUTextField.swift:131-140 | the managed list becomes the given list, in order; the configuration is unchanged |
| `TextFields.TextFieldDelegate.AllFieldsHaveText` | UUSwiftUX/UUTextField.swift:142-154 | true iff every field's text is present and non-empty (a missing text counts as length 0); true for an empty list |
| `TextFields.TextFieldDelegate.FirstResponder` | UUSwiftUX/UUTextField.swift:156-169 | returns the first focused field in list order, or none when no field is focused |
| `TextFields.FirstFocused` | UUSwiftUX/UUTextField.swift:156-169 | the specification of the search: a focused index with no focused field before it, or none when no field is focused |
| `TextFields.FocusedOn` | UUSwiftUX/UUTextField.swift:179-183 | after `becomeFirstResponder` on field j, only field j is focused and no text changes |
| `TextFields.TextFieldDelegate.BecomeFirstResponder` | UUSwiftUX/UUTextField.swift:179-183 | the field list becomes `FocusedOn` of field j |
| `TextFields.Advanced` | UUSwiftUX/UUTextField.swift:171-186 | focus moves from the first focused index i to i+1, or to 0 when i is the last index; with no focused field nothing changes; texts never change |
| `TextFields.TextFieldDelegate.AdvanceToNextField` | UUSwiftUX/UUTextField.swift:171-186 | the field list becomes `Advanced` of the old list |
| `TextFields.TextFieldDelegate.ResignFirstResponder` | UUSwiftUX/UUTextField.swift:188-194 | no managed field is focused afterwards and no text changes |
| `TextFields.Resigned` | UUSwiftUX/UUTextField.swift:201 | only the submitting field loses focus; every other field is unchanged |
| `TextFields.ResignedSubmitting` | UUSwiftUX/UUTextField.swift:199-210 | a managed submitting field loses focus and every other field is unchanged; an unmanaged one leaves the managed list unchanged |
| `TextFields.ReturnOutcome` | UUSwiftUX/UUTextField.swift:196-215 | the return rule as a function of configuration, fields and submitting field (managed or not); no text ever changes |
| `TextFields.TextFieldDelegate.TextFieldShouldReturn` | UUSwiftUX/UUTextField.swift:196-215 | always answers false; the field list becomes `ReturnOutcome`: resign the submitting field when complete and dismiss-when-complete is set, else resign it when there are fewer than 2 fields and auto-dismiss is set, else advance |
| `TextFields.ReturnKeepsSingleFocus` | UUSwiftUX/UUTextField.swift:199-212 | resigning, advancing and the whole return rule, for a managed or unmanaged submitting field, keep at most one field focused |
| `TextFields.UnmanagedFieldReturn` | UUSwiftUX/UUTextField.swift:196-215 | return in a field dropped from the managed list leaves the managed list unchanged in the two resign branches and advances focus among the managed fields otherwise |
| `TextFields.CompleteFormDismissesKeyboard` | UUSwiftUX/UUTextField.swift:199-203 | return on the focused field of a complete form with dismiss-when-complete set leaves no field focused |
| `TextFields.IncompleteFormAdvances` | UUSwiftUX/UUTextField.swift:205-212 | with two or more fields and the dismiss-when-complete branch not taken, return advances focus, whichever field submits |
| `TextFields.ThirdFieldGetsFocus` | UUSwiftUX/UUTextField.swift:199-212 | three fields, only the first two filled, dismiss-when-complete set: return on the second field focuses the third |
| `TextFields.FocusWrapsToFirstField` | UUSwiftUX/UUTextField.swift:176-180 | three filled fields, dismiss-when-complete off: return on the last field focuses the first |
| `TextFields.ReplacingCharacters` | UUSwiftUX/UUTextField.swift:223 | the replaced text has length `|text| - length + |replacement|`, the length the maximum is checked against |
| `TextFields.ReplacingCharactersUndo` | UUSwiftUX/UUTextField.swift:223 | a replacement is undone by replacing the inserted text with what the range held before: the original text comes back |
| `TextFields.ShouldChangeCharacters` | UUSwiftUX/UUTextField.swift:217-228 | with a text, an in-bounds range and a maximum, the edit is allowed iff `|text| - length + |replacement| <= maximum`; with no text, an out-of-bounds range or no maximum it is always allowed |
| `TextFields.TrimLeading` | UUSwiftUX/UUTextField.swift:238 | the result is a suffix of the input; every dropped character is disallowed; a non-empty result starts with an allowed character |
| `TextFields.TrimTrailing` | UUSwiftUX/UUTextField.swift:238 | the result is a prefix of the input; every dropped character is disallowed; a non-empty result ends with an allowed character |
| `TextFields.TrimmingDisallowed` | UUSwiftUX/UUTextField.swift:238 | the result is a contiguous slice of the input, with its interior kept in order; only disallowed characters lie outside it; it starts and ends with an allowed character when non-empty |
| `TextFields.TrimmedAtUnique` | UUSwiftUX/UUTextField.swift:238 | that characterisation determines the trimmed text uniquely |
| `TextFields.TrimmingIdempotent` | UUSwiftUX/UUTextField.swift:238 | trimming an already trimmed text changes nothing |
| `TextFields.TrimmingKeepsAllowedText` | UUSwiftUX/UUTextField.swift:238 | a text made only of allowed characters is not changed by the trim |
| `TextFields.TrimKeepsInterior` | UUSwiftUX/UUTextField.swift:236-239 | with digits allowed, `"a1b2"` becomes `"1b2"`: only the ends are trimmed |
| `Strings.Uppercased` | UUSwiftUX/UUTextField.swift:243 | upper-casing keeps the length and leaves no lower-case letter; every character is kept except lower-case letters, each of which becomes its upper-case partner |
| `Strings.UppercasedIdempotent` | UUSwiftUX/UUTextField.swift:243 | upper-casing an already upper-cased string changes nothing, so a second `textFieldChanged` does not re-case the text |
| `Strings.UppercasedEqualsIgnoringCase` | UUSwiftUX/UUTextField.swift:243 | the upper-cased text equals the original ignoring case |
| `TextFields.TextAfterChange` | UUSwiftUX/UUTextField.swift:232-244 | with no allowed set and no forced capitalization the text is unchanged; with an allowed set it is the two-ended trim, upper-cased when capitalization is forced (trim first, then upper-case); the result is never longer; under forced capitalization no lower-case letter remains |
| `TextFields.AllowedTextKept` | UUSwiftUX/UUTextField.swift:236-244 | a text made only of allowed characters is written back as it is, or upper-cased when capitalization is forced |
| `TextFields.LettersUpperCased` | UUSwiftUX/UUTextField.swift:236-244 | with `a`, `b`, `c` allowed and capitalization forced, `"abc"` becomes `"ABC"` |
| `TextFields.TextFieldDelegate.TextFieldChanged` | UUSwiftUX/UUTextField.swift:230-248 | a missing text is left alone; otherwise only the edited field's text changes, to `TextAfterChange` of the old text; focus and all other fields are unchanged |
| `TextFields.TextFieldDelegate.RewriteField` | UUSwiftUX/UUTextField.swift:230-248 | for any field, managed or not, a missing text is left alone and a present one becomes `TextAfterChange` of it; focus is kept |

## Left out

- Gesture recognition, hit-testing and word tokenizing (`UITapGestureRecognizer`, `closestPosition`, `rangeEnclosingPosition`, `text(in:)`): their result, the tapped word, is an input.
- `enumerateAttribute`: the link runs are an input list, assumed to lie inside the text as NSAttributedString guarantees. A `.link` value that is not a `URL` (a plain string, say) is given as a span with no URL.
- `uuSubString` and `uuTrimWhitespace` come from UUSwiftCore, which is not part of this model. Substring is sequence slicing. "Trimmed is empty" is "every character is whitespace", with whitespace taken as the Unicode `White_Space` characters: tab, LF, VT, FF, CR, space, NEL, NBSP, U+1680, U+2000-U+200A, U+2028, U+2029, U+202F, U+205F and U+3000.
- Unicode: strings are sequences of characters. Grapheme-cluster `count` versus UTF-16 `NSRange` offsets is not modelled. `lowercased()` and `uppercased()` are ASCII case mappings, so locale rules and length-changing mappings (`ß` to `SS`) are not captured.
- Closures are opaque `Action` values. What a callback does when it runs is not modelled.
- Dictionary iteration order is unspecified. `HandleTapGesture` picks keys by arbitrary choice, and its contract says only that some matching phrase fires.
- Fields are values inside the delegate, not shared `UITextField` objects. Aliasing is not captured: the same field listed twice, or a field also managed elsewhere. `firstIndex(of:)` is taken to be the index of the first responder.
- Installing the delegate and the `editingChanged` target on each field in `addManagedTextFields` is UIKit work. A later `addManagedTextFields` does not remove them from fields it drops, so those fields still call back: their return is `TextFieldShouldReturn(None)`, and their post-edit rewrite is `RewriteField`, whose result goes back to a field the model does not hold.
- `becomeFirstResponder` is taken to succeed. UIKit can refuse focus (`canBecomeFirstResponder`), and that is not modelled.
- `Configuration` is a mutable class in Swift. Here it is a value, so a change made through another reference after the delegate is built is not captured.
- `UUTextField` padding, insets and placeholder colour (UUSwiftUX/UUTextField.swift:15-85), `UUCircularImageView`, `UUSwitch` and `Package.swift` are float geometry, drawing or build configuration, with no behaviour to state.
