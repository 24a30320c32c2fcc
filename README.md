# AudioMatrixUI client logic, modelled in Dafny

AudioMatrixUI is a React Native front end for an audio-routing matrix: sources
and destinations ("lines") patched through a crosspoint grid, edited through
forms. The backend decides what is patched; the client derives a visual state
per crosspoint and builds the payloads its forms send. This project models
that deterministic client logic and proves its properties:

- `MatrixView` — the crosspoint classifier `getButtonState` and the grid of
  button states (one row per destination, one cell per source).
- `EditMatrixModal` — the matrix editor's ordered source/destination
  selections: toggling membership, moving an entry up or down, rebuilding the
  lists from the ids the backend returns, and the save payload.
- `LineForm`, `EditLineModal`, `EditSourceModal` — the line and source
  editors: port selection, the filter that keeps only assigned ports, the new
  line's all-zero ports, description trimming and name validation.
- `Alerty` — the web fallback for `Alert.alert`: the message text and the
  choice of the one option callback to run after the user's yes/no answer,
  both as written (a missing `onPress` throws) and guarded (see Findings).
- `JsText` — the JavaScript string semantics these rely on: `trim`,
  `parseInt(s, 10)` and `String(n)` for an integer, with ECMAScript's
  whitespace set. `Wrappers.Option` stands for `undefined`;
  `Forms.Submission` is either a validation alert (no `onSave` call) or the
  payload handed to `onSave`.

Plain JavaScript values become datatypes (`LineItem`, `MatrixDestination`,
`LinePayload`, ...). The handlers that build a new value with `map`, `filter`
or spreads are functions. The handlers whose source mutates a local are
methods: `handleMoveItem`'s two `splice` calls, the `for...in` loop that fills
`portsToSave` and the `forEach` that fills the new line's ports. User answers
and widget values (the confirm box's answer, the picker value, the typed
text) are parameters.

## Model

| member | source | states |
|---|---|---|
| `MatrixView.GetButtonState` | components/MatrixView.tsx:25-35 | a cell is patched or desired-inactive exactly when the destination's `desired.src` is the source; patched only when the destination is patched or partial; overpatched only when some `others` entry names the source; absent `desired` and `others` give unpatched |
| `MatrixView.DesiredAndLiveIsPatched` | components/MatrixView.tsx:29-30 | desired source on a patched or partial destination is drawn patched |
| `MatrixView.DesiredNotLiveIsInactive` | components/MatrixView.tsx:29-30 | desired source on an inactive, overpatched or unpatched destination is desired-inactive, whatever `others` holds |
| `MatrixView.ActiveElsewhereIsOverpatched` | components/MatrixView.tsx:27-32 | no desired match but an `others` entry naming the source gives overpatched |
| `MatrixView.NoMatchIsUnpatched` | components/MatrixView.tsx:25-34 | neither a desired nor an `others` match (absent fields count as no match) gives unpatched |
| `MatrixView.DesiredNeverOverpatched` | components/MatrixView.tsx:29-33 | desiredness has priority: a desired cell is never overpatched nor unpatched |
| `MatrixView.Row` | components/MatrixView.tsx:54-60 | one cell per source, cell j is the state of (dst, srcs[j]) |
| `MatrixView.Grid` | components/MatrixView.tsx:52-62 | one row per destination, cell (i, j) is the state of (dsts[i], srcs[j]), both orders kept |
| `MatrixView.AtMostOneDesiredPerRow` | components/MatrixView.tsx:52-60 | with distinct source ids, a row has at most one patched or desired-inactive cell |
| `EditMatrixModal.WithoutId` | components/EditMatrixModal.tsx:100-101 | the id filter never lengthens the list (membership and order in the lemmas below) |
| `EditMatrixModal.WithoutIdMembers` | components/EditMatrixModal.tsx:100-101 | the filter keeps exactly the entries whose id differs |
| `EditMatrixModal.WithoutIdAppend` | components/EditMatrixModal.tsx:100-101 | the filter distributes over concatenation, so relative order is kept |
| `EditMatrixModal.WithoutAbsentId` | components/EditMatrixModal.tsx:100-101 | filtering an id that is not in the list returns the list |
| `EditMatrixModal.WithoutIdKeepsDistinct` | components/EditMatrixModal.tsx:100-101 | filtering keeps ids distinct |
| `EditMatrixModal.WithoutIdAt` | components/EditMatrixModal.tsx:98-101 | with distinct ids, filtering the id at position k deletes exactly position k |
| `EditMatrixModal.Toggle` | components/EditMatrixModal.tsx:93-107 | membership of the item's id flips; a removal keeps exactly the entries with other ids; an append leaves the prefix unchanged and puts the item last; distinct ids stay distinct |
| `EditMatrixModal.ToggleSelectedDeletesAt` | components/EditMatrixModal.tsx:98-101 | with distinct ids, toggling a selected item removes just its position |
| `EditMatrixModal.ToggleTwiceRestores` | components/EditMatrixModal.tsx:93-107 | toggling an unselected item twice gives back the original list |
| `EditMatrixModal.ToggleSelection` | components/EditMatrixModal.tsx:94-105 | only the list of the given type (src or dst) changes |
| `EditMatrixModal.Moved` | components/EditMatrixModal.tsx:113-120 | length and multiset are kept; at the ends nothing changes; otherwise the entry swaps with its neighbour and every other position is unchanged |
| `EditMatrixModal.MovedKeepsDistinct` | components/EditMatrixModal.tsx:117-120 | a move keeps ids distinct |
| `EditMatrixModal.MoveUpThenDown` | components/EditMatrixModal.tsx:109-122 | moving up at i then down at i-1 restores the list |
| `EditMatrixModal.MoveDownThenUp` | components/EditMatrixModal.tsx:109-122 | moving down at i then up at i+1 restores the list |
| `EditMatrixModal.MoveItem` | components/EditMatrixModal.tsx:109-122 | the two splices produce exactly `Moved` |
| `EditMatrixModal.MoveSelected` | components/EditMatrixModal.tsx:109-122 | the chosen list is moved, the other list unchanged |
| `EditMatrixModal.IndexOf` | components/EditMatrixModal.tsx:69 | the first position carrying the id |
| `EditMatrixModal.FindInAll` | components/EditMatrixModal.tsx:69 | `undefined` exactly when no item has the id, otherwise the first such item |
| `EditMatrixModal.Rebuild` | components/EditMatrixModal.tsx:70-71 | never longer than the id list; every item comes from the full list with an id from the input; an input id is kept exactly when the full list knows it |
| `EditMatrixModal.RebuildAppend` | components/EditMatrixModal.tsx:70-71 | rebuilding distributes over concatenation, so the backend order is kept |
| `EditMatrixModal.RebuildAllKnown` | components/EditMatrixModal.tsx:70-71 | when every id is known the result has exactly those ids in order |
| `EditMatrixModal.RebuildDistinct` | components/EditMatrixModal.tsx:70-71 | distinct backend ids give distinct selected ids |
| `EditMatrixModal.IdsOf` | components/EditMatrixModal.tsx:134-135 | the k-th id is the k-th item's id |
| `EditMatrixModal.ModeNumber` | components/EditMatrixModal.tsx:133 | `parseInt(mode, 10)`, replaced by 0 when falsy: text without digits gives 0, and the decimal text of any integer gives that integer |
| `EditMatrixModal.ModeRoundTrip` | components/EditMatrixModal.tsx:133 | the mode text, `String(matrix.mode)` or "0", parses back to the matrix's mode (NaN would give 0) |
| `EditMatrixModal.Submit` | components/EditMatrixModal.tsx:125-138 | rejected exactly when the name is whitespace only; otherwise name and description as typed, the parsed mode or 0, and both lists' ids in order |
| `EditMatrixModal.SaveUnchangedRoundTrip` | components/EditMatrixModal.tsx:61-136 | opening a matrix and saving it unchanged sends its mode and its source and destination order back |
| `LineForm.AssignedPorts` | components/EditLineModal.tsx:73-78 | a role is kept exactly when its value is a nonzero port id, and a kept value is unchanged |
| `LineForm.AssignedPortsSubMap` | components/EditLineModal.tsx:73-78 | the saved ports are a sub-map of the selection and hold only nonzero port ids |
| `LineForm.AssignedPortsIdempotent` | components/EditSourceModal.tsx:72-77 | filtering the saved ports again changes nothing |
| `LineForm.CollectPortsToSave` | components/EditLineModal.tsx:73-78 | a role is saved exactly when its value is a nonzero number, with its value unchanged |
| `LineForm.InitialPorts` | components/EditLineModal.tsx:55-56 | a new line starts with left and right, both at 0 |
| `LineForm.NewLineSavesNoPorts` | components/EditSourceModal.tsx:54-77 | an all-zero selection saves no port |
| `LineForm.ParsePortId` | components/EditLineModal.tsx:63 | an empty or zero picker value gives 0; a port id given as its decimal text or as a number gives that id; non-empty text without digits gives NaN |
| `LineForm.PortChange` | components/EditLineModal.tsx:61-65 | only the given role changes; an empty or zero picker value sets it to 0, which is not saved |
| `LineForm.PickPortStoresId` | components/EditSourceModal.tsx:60-64 | picking a port (its id as text or as a number) stores that id |
| `LineForm.OptionalDescription` | components/EditLineModal.tsx:82 | absent exactly when the description is whitespace only, otherwise the non-empty trimmed text |
| `LineForm.SubmitLine` | components/EditLineModal.tsx:67-86 | rejected with the editor's message exactly when the name is whitespace only; otherwise the untrimmed name, the optional trimmed description and exactly the assigned ports, each unchanged |
| `EditLineModal.HandleSubmit` | components/EditLineModal.tsx:67-86 | the shared save handler with "Line name cannot be empty." |
| `EditSourceModal.HandleSubmit` | components/EditSourceModal.tsx:66-85 | the shared save handler with "Source name cannot be empty." |
| `JsText.Trim` | components/EditLineModal.tsx:82 | the trimmed text is the slice of the input with non-whitespace ends and only whitespace around it |
| `JsText.BlankIffAllWhitespace` | components/EditLineModal.tsx:68 | `!s.trim()` holds exactly when every character is whitespace |
| `JsText.TrimIdempotent` | components/EditSourceModal.tsx:81 | trimming twice is trimming once |
| `JsText.ParseInt` | components/EditLineModal.tsx:63 | NaN exactly when no digit follows the leading whitespace and optional sign |
| `JsText.DecimalString` | components/EditMatrixModal.tsx:64 | `String(n)` for an integer: a leading '-' exactly for negative numbers, then only digits, with no leading zero unless the number is 0 |
| `JsText.ParseDecimalString` | components/EditLineModal.tsx:63 | `parseInt(String(n), 10)` is `n` |
| `Alerty.NonEmptyParts` | components/Alerty.tsx:12 | `filter(Boolean)` keeps exactly the non-empty parts and never lengthens the list |
| `Alerty.NonEmptyPartsAppend` | components/Alerty.tsx:12 | the filter distributes over concatenation, so the parts keep their order |
| `Alerty.JoinLines` | components/Alerty.tsx:12 | `join('\n')`: empty for no parts; otherwise as long as the parts plus one separator between neighbours, starting with the first part and ending with the last |
| `Alerty.JoinLinesAppend` | components/Alerty.tsx:12 | joining two non-empty runs of parts is joining each and putting one newline between them, so every separator is a newline and the middle parts keep their order |
| `Alerty.Message` | components/Alerty.tsx:12-15 | the message is title and description joined by a newline, empty parts dropped: both, one of them, or empty |
| `Alerty.FirstOption` | components/Alerty.tsx:17-22 | the first option whose cancel-ness matches, or none when no option matches |
| `Alerty.CallAsWritten` | components/Alerty.tsx:19-22 | `option && option.onPress()`: no call when no option was found; the found option's `onPress` runs when it has one and throws a `TypeError` when it has none |
| `Alerty.AlertPolyfillAsWritten` | components/Alerty.tsx:3-24 | without options a plain alert and no callback; with options a confirm box, then the call above on the option `find` picks for the answer |
| `Alerty.CallIfPresent` | components/Alerty.tsx:19-22 | the guarded call: the found option's `onPress` runs exactly when it has one, and nothing throws |
| `Alerty.AlertPolyfill` | components/Alerty.tsx:3-24 | the same dialogs with the guarded call: never a `TypeError`, and a callback only of an option that has one |
| `Alerty.AgreesWhenEveryOptionHasOnPress` | components/Alerty.tsx:17-23 | when every option has an `onPress` the code as written behaves exactly like the guarded version |
| `Alerty.AsWrittenThrowsOnlyWithoutOnPress` | components/Alerty.tsx:17-23 | the code as written throws exactly when the option the answer picks has no `onPress`, and otherwise behaves like the guarded version |
| `Alerty.DeclineMatrixDeleteThrows` | components/Alerty.tsx:20-22 | answering no to the matrix editor's delete confirm, whose "Cancel" has no `onPress`, throws as written and closes quietly when guarded |
| `Alerty.ConfirmRunsFirstNonCancel` | components/Alerty.tsx:17-19 | on yes the first non-cancel option's `onPress` runs, when it has one |
| `Alerty.DeclineRunsFirstCancel` | components/Alerty.tsx:20-22 | on no the first cancel option's `onPress` runs, when it has one |
| `Alerty.NoMatchRunsNothing` | components/Alerty.tsx:11-23 | no callback when no option fits the answer; an empty option list still shows a confirm box |

## Left out

- Network and React plumbing: the `services/Api.ts` request wrappers, `loadInitialData` and its `Promise.all`, port fetching in the line forms, loading flags, and all rendering, styles and widgets. Only the types of `services/Api.ts` shape the datatypes.
- The alerts themselves (`Alert.alert`, `window.alert`, `window.confirm`): the dialog shown is an output and the user's answer is an input. On platforms other than the web, `Alerty` is `Alert.alert` itself, which is not modelled.
- Callbacks (`onPress`, `onSave`, `onClose`) are not run: an option records only whether it has an `onPress`, the call is named by the option's index, and `Submission.Submitted` stands for the `onSave` call.
- Polling, meter fetching and the patch/unpatch interaction (`app/matrix/[id].tsx`), `components/Meter.tsx` (floating-point drawing), `components/CrosspointButton.tsx`, `components/MatrixListItem.tsx` and `constants/Colors.ts` (presentation only).
- Prefilling the line forms from an existing line (components/EditLineModal.tsx:47-50). The model's selection values are numbers, as the declared type says. At run time that prefill stores the line's `[id, label]` pairs instead.
- JavaScript numbers are modelled as unbounded integers: no fractions, no double rounding, no exponent form of `String(n)` from 1e21 on, and `-0` is the same as 0. None of these changes which ports are saved.
- `EditMatrixModal.ModeRoundTrip` holds for integer modes below 1e21 only: a `MatrixItem.mode` of 1.5 is written "1.5" and read back as 1, and one of 1e21 is written "1e+21" and read back as 1.
- `EditMatrixModal.SaveUnchangedRoundTrip` sends the mode back unchanged only under the same restriction, for the same reason.
- `EditMatrixModal.MoveItem`: requires an index inside the list, which is all the list's own buttons can pass; `splice` with an index outside the list is not modelled.
- `EditMatrixModal.Rebuild` takes the ids of the matrix's `srcs` or `dsts`; the `.id` projection at the call site is folded into its argument.
- A `desired` or `others` entry is modelled as a `PatchRef`, which keeps only its `src`; the entry's other fields are dropped, since the button state never reads them. The `ports` of a `LineItem` are carried but never read.

## Findings

| source | as written | input that shows it | evidently intended | confidence | as-written member | corrected member |
|---|---|---|---|---|---|---|
| components/Alerty.tsx:19-22 | the found option's `onPress` is called without checking that it exists | the matrix editor's delete confirm (app/(tabs)/matrixeditor.tsx:101) has a "Cancel" option with no `onPress`; answering no on the web calls `undefined` and throws a `TypeError` | an option without `onPress` closes the dialog with no callback, as `Alert.alert` does on the other platforms | high, not executed | `Alerty.AlertPolyfillAsWritten` (`Alerty.DeclineMatrixDeleteThrows`) | `Alerty.AlertPolyfill` (`Alerty.AgreesWhenEveryOptionHasOnPress`) |
