# Thousands-separator watcher, modelled in Dafny

The application binds a `CustomTextWatcher` to a numeric text field. After
every change of the field's text, the watcher does the following:

1. It splits the text at the first decimal separator.
2. It removes every thousands separator from the integer part.
3. It parses what is left with `toLong()`.
4. It prints the value again with `DecimalFormat("#,###,###")`, using the
   configured thousands separator between groups of three digits.
5. It appends the fractional part unchanged, writes the result back, and
   puts the caret at a computed offset.
6. It remembers the text it just handled as `prevString` for the next call.

If the integer part does not parse, the field is left untouched and
`prevString` keeps its old value.

This project models that callback as one pure function, `Watcher.Step`. It
takes the watcher state (the two separators and `prevString`), the current
text and the caret offset. It returns the new state and either `Unchanged`
or `Rewritten(text, caret)`. The library calls are written out in Dafny:

- `String.indexOf`, `String.replace` and `substring` are in module `Text`.
- `Long.parseLong` (what Kotlin's `toLong()` calls) is in module `Numbers`.
  It keeps the JVM's digit loop: the value is accumulated as a negative
  number, and `multmin` and `limit` catch overflow.
- `DecimalFormat.format` for the pattern `#,###,###` with grouping size 3
  is in module `Grouping`.

Modules:

- `wrappers.dfy`: `Option`.
- `text.dfy`: first and last index of a character, splitting at the first
  occurrence, removing a character, and splitting at every occurrence.
- `numbers.dfy`: ASCII digits, the value of a digit string, the digits of
  a number, and `ParseLong`.
- `grouping.dfy`: grouping by three and `Render`. It also defines what a
  well-grouped string is: split at the separators, the first group has one
  to three digits and every later group has exactly three.
- `watcher.dfy`: the state, `Step`, the caret rule, and the properties that
  relate several calls. It also holds the corrected caret rule described
  under Findings.

Three details of the caret rule are easy to misread. The model follows the
code for all three:

- The "text grew" test compares the length of the whole current text with
  the length of the whole `prevString`. It does not compare the old and new
  integer parts.
- The "one more digit" test counts the characters of the stripped integer
  part, and those may include a sign or leading zeros.
- `prevString` is the text the watcher was handed, before reformatting, not
  the text it wrote into the field. It lacks the separators the watcher
  inserted, so a deletion can still count as growth.

`Step` keeps this rule as written. `StepIntended` counts digits instead of
characters, which fixes the sign case, and `StepShown` also remembers the
text the field shows (see Findings).

## Model

| member | source | states |
|---|---|---|
| Watcher.Step | app/src/main/java/com/quantuminventions/customkeyboard/app/CustomTextWatcher.kt:33-93 | The field is left alone exactly when the stripped integer part fails to parse, and then `prevString` keeps its old value. On success `prevString` becomes the current text. A caret at the end moves to the end of the new text. For an interior edit the caret moves one place right exactly when the text grew, the stripped integer part's length is not 1 and is 1 modulo 3, and the caret is not on the decimal separator. Otherwise it stays put. |
| Text.IndexOf | app/src/main/java/com/quantuminventions/customkeyboard/app/CustomTextWatcher.kt:47 | The result is the first index holding the character, or none exactly when the character does not occur. |
| Text.SplitAtFirst | app/src/main/java/com/quantuminventions/customkeyboard/app/CustomTextWatcher.kt:45-51 | The two parts concatenate to the text. The first part holds no decimal separator. The second part is empty or starts with the separator, and it is empty exactly when there is no separator. |
| Text.SplitAtFirstUnique | app/src/main/java/com/quantuminventions/customkeyboard/app/CustomTextWatcher.kt:45-51 | Any prefix without the separator, followed by a rest that is empty or starts with it, is the split. |
| Text.Strip | app/src/main/java/com/quantuminventions/customkeyboard/app/CustomTextWatcher.kt:52-54 | No thousands separator remains. The length drops by the number of separators. A text without separators is returned as it is. |
| Text.StripKeepsOthers | app/src/main/java/com/quantuminventions/customkeyboard/app/CustomTextWatcher.kt:52-54 | Every other character survives as often as it occurred. |
| Text.StripAppend | app/src/main/java/com/quantuminventions/customkeyboard/app/CustomTextWatcher.kt:52-54 | Removal works piece by piece over a concatenation, so the surviving characters keep their order. |
| Numbers.ParseLong | app/src/main/java/com/quantuminventions/customkeyboard/app/CustomTextWatcher.kt:55 | `toLong()` succeeds exactly on an optional `+` or `-` followed by at least one ASCII digit and nothing else, with a value in [-2^63, 2^63-1]. The result is that signed value. |
| Numbers.Accumulate | app/src/main/java/com/quantuminventions/customkeyboard/app/CustomTextWatcher.kt:55 | The overflow-checked digit loop of `parseLong` succeeds exactly when all characters are digits and the negated value stays at or above the limit. It then returns the negated value. |
| Numbers.ToDigits | app/src/main/java/com/quantuminventions/customkeyboard/app/CustomTextWatcher.kt:64 | The printed magnitude is a nonempty digit string that denotes the number and has no leading zero. Zero is printed as `0`. |
| Numbers.ToDigitsOfValue | app/src/main/java/com/quantuminventions/customkeyboard/app/CustomTextWatcher.kt:55-64 | A digit string without a leading zero is printed back exactly as it was. |
| Grouping.Render | app/src/main/java/com/quantuminventions/customkeyboard/app/CustomTextWatcher.kt:58-64 | The formatted value is nonempty. It starts with `-` exactly when the value is negative, and otherwise holds only digits and the grouping separator. |
| Grouping.GroupDigitsShape | app/src/main/java/com/quantuminventions/customkeyboard/app/CustomTextWatcher.kt:62-64 | Grouping D digits is well grouped: the first group has 1 to 3 digits and every later group has 3. It has exactly (D-1)/3 separators, (D-1)/3+1 groups, and D+(D-1)/3 characters. |
| Grouping.GroupDigitsStrip | app/src/main/java/com/quantuminventions/customkeyboard/app/CustomTextWatcher.kt:52-64 | Removing the separators from a grouping gives back the digits. |
| Grouping.WellGroupedIsGrouping | app/src/main/java/com/quantuminventions/customkeyboard/app/CustomTextWatcher.kt:62-64 | Every well-grouped string is the grouping of its own digits, so the grouping is the only well-grouped spelling. |
| Grouping.RenderRoundTrip | app/src/main/java/com/quantuminventions/customkeyboard/app/CustomTextWatcher.kt:52-64 | For every `Long`, removing the separators from its rendering and parsing the result gives the value back. With `-` as separator this holds for every non-negative `Long`. |
| Watcher.StepKeepsFraction | app/src/main/java/com/quantuminventions/customkeyboard/app/CustomTextWatcher.kt:45-66 | The new text splits at its first decimal separator into the rendering of the parsed value and the old fractional part, character for character. That fractional part is empty when the old text had no separator. |
| Watcher.StepPreservesValue | app/src/main/java/com/quantuminventions/customkeyboard/app/CustomTextWatcher.kt:52-66 | The rewritten text parses to the same value as the text it replaced. |
| Watcher.StepIdempotent | app/src/main/java/com/quantuminventions/customkeyboard/app/CustomTextWatcher.kt:41-69 | A canonical text with the caret at the end is written back unchanged, and the caret stays at the end. Canonical means: no `+`, no leading zero, no `-0`, correct groups of three, and inside the `Long` range. |
| Watcher.StepOutputCanonical | app/src/main/java/com/quantuminventions/customkeyboard/app/CustomTextWatcher.kt:58-66 | Every rewritten text is canonical. |
| Watcher.StepOutputIsFixedPoint | app/src/main/java/com/quantuminventions/customkeyboard/app/CustomTextWatcher.kt:33-93 | Feeding a rewritten text back in with the caret at the end changes nothing. |
| Watcher.ThousandExample | app/src/main/java/com/quantuminventions/customkeyboard/app/CustomTextWatcher.kt:41-84 | `1000` typed at the end becomes `1,000`, the caret goes to 5, and `prevString` becomes `1000`. |
| Watcher.UnparsableExamples | app/src/main/java/com/quantuminventions/customkeyboard/app/CustomTextWatcher.kt:55-89 | `--`, `.5` (empty integer part) and `1a` leave the field and `prevString` unchanged. |
| Watcher.GainsSeparatorDigits | app/src/main/java/com/quantuminventions/customkeyboard/app/CustomTextWatcher.kt:70-80 | A value's grouping has one more separator than that of the value without its last digit exactly when its digit count D is not 1 and is 1 modulo 3. |
| Watcher.StepIntended | app/src/main/java/com/quantuminventions/customkeyboard/app/CustomTextWatcher.kt:70-80 | It gives the same text and state as `Step`. On an interior edit the caret moves one place right exactly when the text is longer than `prevString`, the value's grouping has one separator more than the grouping of the value without its last digit, and the caret is not on the decimal separator. Only the digit count is corrected; the comparison with `prevString` is the one `Step` makes. |
| Watcher.StepsAgreeOnPlainDigits | app/src/main/java/com/quantuminventions/customkeyboard/app/CustomTextWatcher.kt:70-80 | When the stripped integer part is plain digits without a leading zero, the as-written rule and the corrected rule agree. |
| Watcher.NewWatcherFirstEdit | app/src/main/java/com/quantuminventions/customkeyboard/app/CustomTextWatcher.kt:25-30 | A new watcher remembers the empty text, so on its first change any nonempty text counts as grown: an interior caret moves one place right exactly when the stripped integer part's length is not 1 and is 1 modulo 3 and the caret is not on the decimal separator. |
| Watcher.StepShown | app/src/main/java/com/quantuminventions/customkeyboard/app/CustomTextWatcher.kt:84 | The field gets the same outcome as from `StepIntended`. After every change the watcher remembers what the field shows: on success the text `Step` writes, and otherwise the unparsable text the field keeps. |
| Watcher.ShownDeletionKeepsCaret | app/src/main/java/com/quantuminventions/customkeyboard/app/CustomTextWatcher.kt:71-84 | When the remembered text is what the field shows, as `StepShown` arranges after every rewrite, deleting any character but the last leaves the caret where the deletion put it. |
| Watcher.PasteDeletionCounterexample | app/src/main/java/com/quantuminventions/customkeyboard/app/CustomTextWatcher.kt:71-84 | Pasting `12345678` writes `12,345,678` but remembers `12345678`. Deleting the `4` (text `12,35,678`, caret 4) then moves the caret to 5 although nothing was inserted. A new watcher given `12,35,678` at caret 4 does the same. |
| Watcher.PasteDeletionShown | app/src/main/java/com/quantuminventions/customkeyboard/app/CustomTextWatcher.kt:71-84 | Remembering the written text, the same paste and deletion leave the caret at 4. |
| Watcher.TypoDeletionShown | app/src/main/java/com/quantuminventions/customkeyboard/app/CustomTextWatcher.kt:71-89 | Typing `x` into `123` and then `4` leaves `1x423` in the field, and the corrected watcher remembers it. Deleting the `x` then leaves the caret at 1. |
| Watcher.SignedCaretCounterexample | app/src/main/java/com/quantuminventions/customkeyboard/app/CustomTextWatcher.kt:70-80 | With `prevString` `-12`, text `-132` and caret 3, the rule as written moves the caret to 4 although the text gains no separator. The corrected rule leaves the caret at 3. |
| Watcher.LeadingZeroCounterexample | app/src/main/java/com/quantuminventions/customkeyboard/app/CustomTextWatcher.kt:70-80 | With `prevString` `1234`, text `01,234` and caret 1, the rule as written leaves the caret at 1. The corrected rule moves it to 2, past a separator that was already there. Both rewrite the text to `1,234`. |

## Left out

- Writing back to the field is one atomic step. These parts are not modelled: `setText`, `setSelection`, reading `selectionEnd`, and detaching and re-attaching the listener around the write. They are UI-toolkit plumbing. The `?: 0` after `selectionEnd` never applies, because the value is a platform `int` and never null.
- `Watcher.Step`: the caret is a `nat`. `selectionEnd` is -1 when the field has no selection. The source then takes the interior-edit branch and computes -1, or 0 when the text has a decimal separator and the caret rule fires. `setSelection(-1)` throws after `setText`, so `prevString` is not updated. This case is not modelled.
- `Watcher.Step`: lengths and caret offsets count Unicode scalar values, which is what a Dafny `char` is. The field counts UTF-16 code units. The two differ when the fractional part, which is copied unchanged, holds a character outside the Basic Multilingual Plane. The "text grew" test and the caret can then differ from the source.
- The generic exception path is not modelled. `setSelection` throws when the computed caret is past the end of the new text, which happens for example after leading zeros are dropped. When it throws, the new text has already been written but `prevString` is not updated. `Step` returns the computed caret and the updated `prevString` in that case too.
- `printStackTrace` logging is not modelled, because it is output only.
- `beforeTextChanged` and `onTextChanged` are not modelled, because both are empty.
- `Numbers.ParseLong`: accepts ASCII digits only. The JVM also accepts other Unicode decimal digits.
- `Grouping.Render`: assumes a locale whose minus sign is `-` and whose digits are ASCII. `DecimalFormatSymbols()` takes both from the default locale.
- `Grouping.RenderRoundTrip`: assumes the thousands separator is not a digit, and covers a `-` separator only for non-negative values. Removing a `-` separator would also remove the sign.
- `Watcher.StepIdempotent`: assumes the thousands separator is not `-`. With `-` as separator, a text such as `-1` looks canonical but its sign is removed by the stripping.
- `Watcher.StepIntended`: the corrected caret rule looks only at the digit count of the new value. It does not check that the edit added a digit. Typing `0` in front of `1,234` gives `01,234`, which renders as `1,234` again, and the corrected rule moves the caret past the existing separator, where the rule as written does not (`Watcher.LeadingZeroCounterexample`). `Watcher.StepShown` inherits this.
- `Watcher.NewWatcher` states the separator requirement that the constructor does not check: the two separators differ and neither is a digit. `Step` itself runs for any separators, as the source does.
- `Watcher.StepShown`: the deletion guarantee assumes the remembered text is what the field showed before the edit. `StepShown` keeps that true after every change, parsed or not. A watcher attached to a field that already holds text has to be started with that text. `NewWatcher` starts from the empty text, as the source does.
- The `contains` test before `replace` is a shortcut with the same result, so `Step` always strips.
- The keyboard views (`CustomisedKeyboardView`, both variants) are not modelled. They only set sizes on a framework base class.
- The `KeyboardListener` interfaces are not modelled. They are bare method signatures with no logic.

## Findings

| source | as written | input that shows it | evidently intended | confidence | as-written member | corrected member |
|---|---|---|---|---|---|---|
| app/src/main/java/com/quantuminventions/customkeyboard/app/CustomTextWatcher.kt:73 | The test "one more digit group" uses the length of the stripped integer part. That length also counts a `-` or `+` sign and leading zeros. | `prevString` `-12`, text `-132`, caret 3 (after the typed `3`): the caret moves to 4, past the `2`, although `-132` gains no separator. | Count only the digits of the printed magnitude, so that a sign does not make the caret skip. This corrects only the sign case. A leading zero that the rendering drops still makes the corrected rule skip (see `Watcher.StepIntended` under Left out). The comparison with `prevString` is the next row. | medium; not executed | Watcher.SignedCaretCounterexample | Watcher.StepIntended |
| app/src/main/java/com/quantuminventions/customkeyboard/app/CustomTextWatcher.kt:84 | `prevString` is set to the text the watcher was handed, before reformatting. It lacks the separators the watcher then inserts, and the "text grew" test at line 72 compares against it. | Paste `12345678` into an empty field: it shows `12,345,678` and remembers `12345678`. Delete the `4`: the text is `12,35,678` with the caret at 4. That is nine characters against eight, so the caret moves to 5, past the `5`, although nothing was inserted. | Remember what the field shows after every change: the written text, or the unparsable text left in place. Then deleting a character away from the end never counts as growth and never moves the caret. | medium; not executed | Watcher.PasteDeletionCounterexample | Watcher.StepShown |
