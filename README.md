# Magic Custom Event: a verified model of the event builder

A Google Tag Manager custom template that pushes one custom event to the data
layer. The user fills a table of rows `(varName, varValue, varType)`. Each row's
value is coerced to the chosen type and written into the event object. The
current template (`template.js`) writes at a dot path such as `items.++.id` or
`user.*.flag`. The earlier template (`src/template.js`) uses flat keys and merges
them over `{event: eventName}`.

The model is split into Dafny modules:

- `Wrappers`, `Strings`, `Numbers`, `Values`: the JavaScript values involved.
  A value is a `Node`: undefined, null, a boolean, an exact decimal, NaN, a
  string, a map or a list. The module also holds the string built-ins the
  source calls (`trim`, `toLowerCase`, `split`/`join`, `indexOf`,
  `lastIndexOf`, `replace`) and GTM's `makeNumber`/`makeString`.
- `NumberFormat`: `normalizeNumberString`.
- `Coercion`: `getTypedValue`.
- `PathSpec`: the path engine as recursive functions. It contains
  `ensureStructure`, `handleDynamicPushInPath`, `assignFinalValue`, the walk of
  `setNestedValue` and the wildcard. It also defines a cursor into the tree,
  made of `At` and `Plug`.
- `PathEngine`: `setNestedValue` and `handleWildcard` as the loops they are.
  - The source mutates the root through a reference `current`. Here the method
    keeps the root `tree` and the slots from the root down to `current`.
  - Each change is written back at that position with `Plug`.
  - Each method is proved to compute the recursive specification in `PathSpec`.
- `EventBuilder`: the row loop of `template.js`. It is a fold, plus the method
  that runs it.
- `LegacyTemplate`: `merge`, the coercion switch, the `finalParameters` loop and
  the final merge of `src/template.js`. A failed `assertThat` is an `Err`.
  - The row loop and the pushed object are defined for any coercion of a row.
  - `Switch(AsWritten)` is the switch as written, where the number check lets
    NaN through. `Switch(Corrected)` fails such a row (see "## Findings").
  - The loop method and every lemma about the loop hold for both.

Modelling choices:

- `Undefined` is also the "skip this row" answer of `getTypedValue`.
- An unset `varType` is the empty string.
- Numbers are exact decimals, in the form `mantissa / 10^scale`.
  - `makeNumber` reads optional whitespace, a sign, digits and at most one
    point. The blank string reads as 0. Anything else is NaN.
  - `makeString` of a number prints the canonical decimal in positional
    notation.
- `toLowerCase` lowers the ASCII letters. That is exact for the word lists
  the boolean coercion compares against.
- A list is written through keys that are array indexes: `"0"`, `"1"`, … up to
  2^32 - 2, in canonical form.
  - Writing past the end of a list pads it with holes, which read as
    undefined.
  - Any other key on a list produces a named property of the JavaScript array,
    which JSON and the data layer never show. The model drops that write.

## Model

| member | source | states |
|---|---|---|
| Strings.Trim | template.js:247 | only whitespace is removed, and only at the two ends: the result is the input minus a whitespace-only prefix and a whitespace-only suffix, and has no whitespace at either end; a string with none there is returned as it is |
| Strings.TrimIdempotent | template.js:247 | trimming twice is trimming once |
| Strings.ToLower | template.js:260 | same length, every character lowered |
| Strings.TrimLower | template.js:247-260 | trimming and lower-casing commute |
| Strings.IndexOf | template.js:196-197 | -1 exactly when the character is absent, otherwise the position of its first occurrence |
| Strings.LastIndexOf | template.js:201-202 | -1 exactly when the character is absent, otherwise the position of its last occurrence |
| Strings.Split | template.js:159 | at least one part, and no part contains the separator |
| Strings.JoinSplit | template.js:72 | joining the parts of a split with the separator gives back the string |
| Strings.SplitJoin | template.js:72 | splitting a join of separator-free parts gives back the parts |
| Strings.JoinSplitReplaces | template.js:205-207 | `split(c).join(r)` replaces every `c` by `r` |
| Strings.SplitCounts | template.js:213 | the number of parts minus one is the number of separators |
| Strings.ReplaceFirst | src/template.js:94 | only the first occurrence is replaced; without one the string is unchanged |
| Numbers.DecimalToString | template.js:247 | the string form of a number is non-empty, has no comma, at most one point and no whitespace at its ends |
| Numbers.DigitsNumber | template.js:56 | a digit string reads as the number it spells |
| Numbers.ParseNumber | template.js:56 | `makeNumber` of a string: every number read is in canonical form (DigitsNumber and DecimalRoundTrip give its values) |
| Numbers.LetterIsNoNumber | template.js:56 | a one-letter word reads as NaN, so `MakeNumber` gives NaN for it |
| Numbers.DecimalRoundTrip | template.js:247-252 | reading the string form of a number gives the number back, in canonical form |
| Values.ElementsJoin | template.js:247 | `makeString` of a list is the string forms of its elements joined with commas, `null` and `undefined` printing as nothing |
| Values.FalsyValues | template.js:157 | `Truthy`: the falsy values are exactly undefined, null, NaN, false, the empty string and zero |
| Values.ArrayIndex | template.js:148 | an index key is the canonical decimal of a position below the array length limit |
| Values.ArrayIndexOfDigits | template.js:148 | the decimal of every such position is an index key for it |
| NumberFormat.NormalizeNumberString | template.js:194-235 | never fails and never leaves a comma; with both separators the last one is the decimal mark; several commas are removed, one becomes a point; several dots are removed, one stays; no separator leaves the string unchanged |
| NumberFormat.NormalizeKeepsDigits | template.js:194-235 | everything but the separators is kept, in order |
| NumberFormat.EuropeanCase | template.js:204-205 | with the last comma after the last dot, dots are removed and commas become points |
| NumberFormat.UsCase | template.js:206-207 | with the last dot after the last comma, commas are removed |
| NumberFormat.NormalizeEuropean | template.js:204-205 | `w.g,f` becomes `wg.f` for digit groups |
| NumberFormat.NormalizeUs | template.js:206-207 | `w,g.f` becomes `wg.f` for digit groups |
| NumberFormat.NormalizeThousandCommas | template.js:214-215 | `w,g,rest` loses all its commas |
| NumberFormat.NormalizeDecimalComma | template.js:216-217 | `w,f` becomes `w.f` |
| NumberFormat.NormalizeThousandDots | template.js:224-225 | `w.g.rest` loses all its dots |
| NumberFormat.NormalizeDecimalDot | template.js:226-227 | `w.f` stays as it is |
| Coercion.BooleanValue | template.js:260-268 | `true` exactly for the lower-cased words of the true list, `false` exactly for those of the false list, otherwise skip |
| Coercion.BooleanWordsDisjoint | template.js:261-266 | no word is in both lists |
| Coercion.NumberCoercion | template.js:249-258 | `GetTypedValue` with type `number` skips exactly when `NumberValue` of the trimmed text (`makeNumber` of the normalised text) is NaN; otherwise it gives that number, in canonical form |
| Coercion.StringIdempotent | template.js:269-270 | `GetTypedValue` with type `string` (`StringValue`, the trimmed string form) gives the same result when applied twice |
| Coercion.TypedValueIdempotent | template.js:241-274 | for every type, `GetTypedValue` applied to a value it has already converted (and not skipped) gives the value back: pass-through types return the raw value, and each conversion is idempotent |
| Coercion.BooleanIgnoresCase | template.js:260 | the boolean conversion (`BooleanValue` of the trimmed string form) does not depend on letter case |
| Coercion.BooleanRoundTrip | template.js:259-268 | `GetTypedValue` with type `boolean` turns a boolean into itself |
| Coercion.NumberRoundTrip | template.js:249-258 | a number converts to itself, in canonical form |
| Coercion.NumberIdempotent | template.js:249-258 | converting to a number twice is converting once |
| Coercion.NumberOfDigits | template.js:249-258 | a digit string converts to the number it spells |
| Coercion.NumberEuropean | template.js:204-205 | `"1.234,56"`-style text converts to its value |
| Coercion.NumberUs | template.js:206-207 | `"1,234.56"`-style text converts to its value |
| PathSpec.IndexKeyIsInteger | template.js:52-62 | every array index key is an integer string |
| PathSpec.DigitsAreInteger | template.js:52-62 | a non-empty digit string is an integer string |
| PathSpec.IntegerStringValue | template.js:52-62 | `IsIntegerString` holds exactly for a non-empty string that `makeNumber` reads as a whole number that is not negative |
| PathSpec.NoIntegerStrings | template.js:53-59 | the empty string and a one-letter word are not integer strings |
| PathSpec.NextKeyKind | template.js:103 | `NeedsArray`: a digit segment asks for a list, a one-letter word for a map |
| PathSpec.PutGet | template.js:184 | reading a present entry with `Get` (`current[key]`) and writing it back changes nothing |
| PathSpec.PutPut | template.js:148 | writing a slot twice keeps only the second value |
| PathSpec.SlotOf | template.js:148 | a map is written at the key; a list only at an index key, at that position; a scalar nowhere |
| PathSpec.Put | template.js:148 | the written slot holds the value and no other slot changes; a list written past its end grows; a slot of the wrong kind changes nothing |
| PathSpec.EnsureStructure | template.js:100-120 | the child becomes a list exactly when the next segment is `++`, `+0`, `-1`, `*` or an integer string, and a map otherwise; a child of the right kind is kept; a fresh one is empty; no other slot changes |
| PathSpec.DynamicPush | template.js:83-95 | fails exactly on a non-list; `++` appends and `+0` prepends a fresh empty map; the position of the new map is returned |
| PathSpec.AssignFinalValue | template.js:125-150 | final `++` appends and `+0` prepends the value on a list and change nothing on a map; final `-1` writes the last element of a non-empty list and changes nothing on an empty one; on a map any other key is overwritten |
| PathSpec.Assign | template.js:156-188 | a falsy root or an empty path changes nothing; on a map only the first segment's key can change or appear |
| PathSpec.Walk | template.js:162-187 | the kind of the container is kept, and on a map only the first segment's key changes |
| PathSpec.Descend | template.js:183-184 | the entry at the slot is present afterwards and no other slot changes |
| PathSpec.Wildcard | template.js:67-78 | on a non-list nothing changes; on a list the length is kept |
| PathSpec.BroadcastAll | template.js:73-77 | scalar elements are unchanged and the length is kept |
| PathSpec.WildcardReentry | template.js:72-75 | the inner call on the re-joined rest of the path is the walk of that rest |
| PathSpec.WildcardEach | template.js:72-77 | each map or list element receives the rest of the path; each scalar element is left as it is |
| PathSpec.WalkLookup | template.js:162-187 | along plain keys into maps, the written value reads back |
| PathSpec.GetAfterSet | template.js:156-188 | setting a plain dotted path on a map and reading it back gives the value |
| PathSpec.NoOpGuard | template.js:157 | a falsy root or an empty path changes nothing |
| PathSpec.PushOnNonList | template.js:175-180 | a non-final `++` or `+0` on a map stops the walk with the map unchanged |
| PathSpec.LastOnEmpty | template.js:170-173 | a non-final `-1` stops on an empty list and is the ordinary key `-1` on a map |
| PathSpec.LastInPath | template.js:170-171 | a non-final `-1` on a non-empty list descends into its last element |
| PathSpec.AbortKeepsCreatedList | template.js:170-172 | `a.-1.…` on a map without `a` leaves the new empty list at `a`: the abort keeps the earlier step |
| PathSpec.AbortKeepsEarlierPush | template.js:176-180 | `++.++.…` on a list keeps the first pushed map when the second push fails |
| PathSpec.PushInPath | template.js:88-94 | a non-final `++`/`+0` adds one fresh map at the end/front and continues inside it |
| PathEngine.SetNestedValue | template.js:156-188 | the loop computes `Assign` |
| PathEngine.Advance | template.js:170-184 | one `-1`, push or plain segment of the loop: it either stops with the finished result or moves one slot down keeping the loop invariant |
| PathEngine.HandleWildcard | template.js:67-78 | the loop over the elements computes `Wildcard` |
| EventBuilder.BuildEventData | template.js:306-319 | the loop computes the fold of the rows in table order |
| EventBuilder.AddRow | template.js:315-318 | one pass of the loop computes `ApplyRow` |
| EventBuilder.ApplyRowsSnoc | template.js:314-319 | `ApplyRows` takes the rows in table order: a row added at the end is applied to the result of the others |
| EventBuilder.ApplyRowsConcat | template.js:314-319 | applying two tables one after the other is applying their concatenation |
| EventBuilder.SkippedRow | template.js:316 | `ApplyRow` of a skipped row changes nothing, so the row can be removed from the table without effect |
| EventBuilder.UntouchedKeys | template.js:314-319 | through `ApplyRow` and `Assign`, top-level keys that no row's path starts with are neither changed nor added |
| EventBuilder.EventNameKept | template.js:306 | `EventData` starts from `InitialEventData`, and unless a row's path starts with `event` the event name survives |
| EventBuilder.LastRowReadable | template.js:314-319 | the last row, on a plain path, can be read back from the pushed object |
| LegacyTemplate.Merge | src/template.js:29-41 | the nested copy loops compute the left-to-right union with the later map winning |
| LegacyTemplate.MergeKeys | src/template.js:29-41 | the keys of `MergeAll` are exactly the keys of its arguments |
| LegacyTemplate.MergeLastWins | src/template.js:35-38 | in `MergeAll`, a shared key takes its value from the last argument holding it |
| LegacyTemplate.MergeTwo | src/template.js:115 | `merge(a, b)` is `b` laid over `a` |
| LegacyTemplate.TypedValueAsWritten | src/template.js:93-98 | as written, a number row always succeeds with `makeNumber` of the text |
| LegacyTemplate.TypedValue | src/template.js:86-109 | unset, `inherit` and unknown types pass through; `string` is the untrimmed string form; `number` fails exactly when the text does not parse; `boolean` succeeds only on `true`/`false` in any case |
| LegacyTemplate.NaNAccepted | src/template.js:96 | text that is no number (`NumberForm` is NaN) passes the check as written, as NaN; the corrected check fails it |
| LegacyTemplate.NaNAcceptedWitness | src/template.js:96 | the row with text `x` and type `number` shows it |
| LegacyTemplate.AsWrittenAgrees | src/template.js:86-109 | the switch as written and the corrected one agree on every row whose `DesiredType` is not `number`: both take the inherit arm and `BooleanOrString` the same way |
| LegacyTemplate.AsWrittenNeverFails | src/template.js:96 | as written, `IsNumberType` accepts every number form, NaN included, so a number row never fails |
| LegacyTemplate.StringRowUntrimmed | src/template.js:91 | `StringForm` (`'' + rawValue`) is not trimmed: a string row keeps its text exactly, in both switches |
| LegacyTemplate.DecimalComma | src/template.js:94 | `"12,5"`-style text reads the comma as the decimal point: `NumberForm` replaces the first comma before `makeNumber` |
| LegacyTemplate.BuildEventData | src/template.js:68-115 | for either number check, the loop and the merge compute `EventData` of that switch: the pushed object, or the first failure; `AsWritten` is the template as it stands |
| LegacyTemplate.PushedOne | src/template.js:68-115 | a table of one row pushes `{event}` with that row's value set under its name, or fails when its coercion fails |
| LegacyTemplate.NaNPushed | src/template.js:94-115 | as written, the row `x`/`number` pushes NaN under its name; with the corrected check the same table fails |
| LegacyTemplate.AsWrittenFailsOnBoolean | src/template.js:94-101 | as written, `Parameters` fails only on a table with a boolean row |
| LegacyTemplate.ParametersNext | src/template.js:82-113 | for any coercion, `Parameters` takes one further row by adding its entry or failing the whole table |
| LegacyTemplate.FailureStays | src/template.js:96-101 | for any coercion, once a row fails, the whole table fails with the same message |
| LegacyTemplate.ParametersSnoc | src/template.js:112 | a table that succeeds succeeds on every prefix, and its last row adds its entry |
| LegacyTemplate.LastRowWins | src/template.js:112 | for any coercion, the value stored for a name is the coercion of the last row carrying it |
| LegacyTemplate.ParameterKeys | src/template.js:112 | for any coercion, the keys of `finalParameters` are exactly the row names |
| LegacyTemplate.EventRowOverrides | src/template.js:115 | a row named `event` overrides the event name; otherwise the event name stays |

## Left out

- Host APIs (`queryPermission`, `createQueue`, the data-layer push, `gtmOnSuccess`/`gtmOnFailure`) are left out. They are I/O around the object that is built.
- Logging (`log`, `logTable`, `logProcessedParameters`) and the warnings are left out. In template.js they never affect control flow.
- LegacyTemplate.BuildEventData: in src/template.js, `logTable` runs whenever event data is enabled (src/template.js:78). It asserts that the table is a defined, non-null array (src/template.js:47) and that each row is an object (src/template.js:49). Both are captured by the types: the table is a `seq<Row>`. A missing table or a row that is no object cannot occur in the model.
- `makeNumber` is modelled as an exact decimal reading. Exponents, hexadecimal, octal (`0o`) and binary (`0b`) literals and `Infinity` are not modelled; the model reads such text as NaN. Floating-point rounding is not modelled either: every digit is kept, so `"1.0000000000000001"` is not read as 1.
- `makeString` never prints exponent notation in the model.
- `toLowerCase` lowers ASCII letters only. Letters outside ASCII are not modelled.
- Key order in maps is not modelled, because the model uses maps rather than ordered objects.
- PathSpec.SlotOf: a non-index key written on a list is dropped instead of becoming a named property of the array. Array `length` writes and `__proto__` are not modelled either.
- PathEngine.SetNestedValue: `current` is an index path into an immutable tree, not a mutable reference. The wildcard hands the same `value` to every element (template.js:73-75, stored at template.js:148). An inherited map or list is then one object shared by all those elements. The model stores a copy in each, so a later row that writes into the shared object (for example `items.*.tags.++` after `items.*.tags`) changes each element separately. In the source the shared object receives every write. Sharing of pass-through values, and mutation through it, is not modelled.
- PathEngine.SetNestedValue requires a root that is a container or falsy. A truthy scalar root is outside the model.
- The 2^32 - 1 length limit of JavaScript arrays is not modelled for `push`/`unshift`. It is modelled only for index keys.
- `typeof path !== 'string'` and a missing `varName` are not modelled, because paths are strings by type.
- LegacyTemplate.Merge: the `isObject` assertion is captured by the argument type. Arguments that are not maps cannot occur.
- The exception thrown by a failed `assertThat` is reduced to an `Err`. Where the exception goes afterwards is not modelled.
- LegacyTemplate.TypedValue: the number failure message is abbreviated to its fixed ending, `is not a valid number`. The value and the key that src/template.js:96 splices into it are not carried. The boolean message is carried in full. FailureStays's "same message" is this abbreviated one.

## Findings

| source | as written | input that shows it | evidently intended | confidence | as-written member | corrected member |
|---|---|---|---|---|---|---|
| src/template.js:96 | `assertThat(numValue).isNumber()` passes for NaN, whose type is `number` | a row with `varValue` `"x"` and `varType` `"number"` pushes NaN under its name instead of failing | the message says "is not a valid number": a value that does not parse should fail the row | medium, not executed | LegacyTemplate.NaNPushed | LegacyTemplate.TypedValue |
