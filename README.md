# Scilla test-helper core, modelled in Dafny

This project models the local logic of `tests/testutil.ts`. The rest of that
repository's test suite drives a Zilliqa node. The modelled parts are:

- **`extractTypes`** splits a Scilla type signature such as
  `Pair (ByStr20) (Uint128)` into the texts of its top-level parenthesised
  groups.
- **`getJSONValue`** encodes a JavaScript value under a type signature into
  the JSON form the Zilliqa API takes. Numbers become decimal strings.
  `ByStr` strings are lower-cased. Booleans, `Option` and `Pair` become ADT
  records `{constructor, argtypes, arguments}`. `List` becomes an array.
- **`getJSONParams`** turns a table `name: [type, value]` into wire
  parameters `{vname, type, value}`.
- **`verifyEvents`, `verifyTransitions` and `verifyCheckRewardsEvents`**
  compare emitted events or outgoing messages with a test's expectations,
  index by index. The rewards variant first sorts each parameter's value
  array in place.
- **`getErrorMsg`** is the interpreter's error text for an error code.

Modules:

| file | module | contents |
|---|---|---|
| js_values.dfy | `JsValues` | the `Value` datatype; the JavaScript built-ins the helpers use (`toString`, `join`, `toLowerCase`, `startsWith`, truthiness, `<`); thrown `TypeError`s as `Result.TypeError` |
| type_signature.dfy | `TypeSignature` | `ExtractTypes` as the counter loop of the source; the fold it computes (`Scan`/`TopLevelGroups`); a depth-based description of top-level groups |
| encoder.dfy | `Encoder` | `GetJSONValue`, applying the source's rules in order; a decoder `Decode` that inverts it on values that fit their type |
| params.dfy | `Params` | `GetJSONParams` and its inverse `DecodeParams` |
| comparator.dfy | `Comparator` | the per-record checks; `Outcome` (the first record that does not pass decides); `VerifyEvents` and `VerifyTransitions` as loops |
| rewards.dfy | `Rewards` | the comparator sort; the pass that sorts every parameter's value; `VerifyCheckRewardsEvents` as a loop that updates the events array |
| error_msg.dfy | `ErrorMsg` | `GetErrorMsg` and a parser that reads the code back |

### How the JavaScript behaviour is modelled

- **Exceptions are outcomes, not preconditions.** Wherever the source throws
  on a value the model can express, the model returns `TypeError`:
  - calling `undefined.toString()` under a numeric type;
  - reading `want[index]` when `want` is undefined;
  - reading `.amount` of a missing transition expectation;
  - calling `.sort` on a parameter value that is not an array, or reading
    `.arguments` of a non-record inside the comparator.

  The other ways the source can throw need shapes the model's values do not
  have; "## Left out" lists them.

  A comparison loop propagates the exception: `Outcome` yields `TypeError`
  when the first record that does not pass threw.
- **Where the code's behaviour is surprising, the model follows the code:**
  - `verifyTransitions` does not skip indices without an expectation. Such an
    index throws (tests/testutil.ts:179), so messages beyond the expectations
    are not ignored.
  - A boolean under a `Uint*`, `Int*` or `BNum` type becomes `"true"` or
    `"false"`. Under `String` it is returned unchanged. The boolean-to-ADT rule
    applies only after those scalar rules.
  - The `Pair` and `List` rules accept an array of any length. An element
    with no type of its own is encoded with an undefined type.
  - The rewards variant sorts every parameter's value, not only arrays of
    records. A non-array value throws. `Array.prototype.sort` moves
    `undefined` elements to the end without passing them to the comparator,
    so an array throws only when it has two or more other elements and one
    of those is not a record.
  - The sort key is compared with JavaScript `<`. Both keys first go through
    `ToPrimitive`: an array becomes its joined text and a record becomes
    `"[object Object]"`. Two strings then compare lexicographically;
    otherwise both sides are converted to numbers, and a comparison with NaN
    is false.

## Model

| member | source | states |
|---|---|---|
| JsValues.CallToString | tests/testutil.ts:28-34 | `value.toString()` throws exactly on `undefined`, returns a string unchanged, and gives a number's decimal text, which reads back as that number |
| JsValues.IntToDecimal | tests/testutil.ts:28-30 | the text of a number is non-empty and begins with `-` exactly when the number is negative; what follows the sign is a non-empty run of decimal digits with no leading zero unless the number is zero |
| JsValues.ParseIntInverts | tests/testutil.ts:28-30 | the decimal text of every integer parses back to that integer |
| JsValues.ToLowerCase | tests/testutil.ts:40-46 | `toLowerCase` keeps the length, leaves no upper-case letter, changes only `A`-`Z` (each to its lower-case letter), and leaves lower-case text unchanged |
| JsValues.FalsyValues | tests/testutil.ts:179-187 | the falsy values are exactly `undefined`, `0`, `""` and `false` |
| JsValues.JsLessIrreflexive | tests/testutil.ts:132 | no sort key is `<` itself, whatever its type |
| JsValues.JsLessAsymmetric | tests/testutil.ts:132 | of two sort keys, at most one is `<` the other |
| JsValues.StrLessIrreflexive | tests/testutil.ts:132 | no string key sorts before itself under `<` |
| JsValues.StrLessTransitive | tests/testutil.ts:132 | string `<` on keys is transitive |
| JsValues.StrLessTotal | tests/testutil.ts:132 | of two different string keys, one is `<` the other |
| TypeSignature.Scan | tests/testutil.ts:5-23 | after the first n characters: `startIndex` is -1 exactly when the depth counter is below 1, and otherwise points inside the prefix; every group is shorter than n; groups plus an open group number at most the `(` seen |
| TypeSignature.TopLevelGroups | tests/testutil.ts:1-25 | every group is strictly shorter than the signature, and there are at most as many groups as `(` characters |
| TypeSignature.ExtractTypes | tests/testutil.ts:1-25 | the counter loop returns exactly the groups of the full scan |
| TypeSignature.OpenOf | tests/testutil.ts:9-13 | inside a group, its start is just after a `(` at depth 0, and the depth stays at least 1 from there on |
| TypeSignature.TopSpans | tests/testutil.ts:14-21 | the listed spans are top-level groups ending in the prefix, strictly left to right and disjoint |
| TypeSignature.ScanFollowsDepth | tests/testutil.ts:5-23 | the loop's `count` is the nesting depth, `startIndex` is the start of the open group, and `result` holds the texts of the closed top-level groups in order |
| TypeSignature.OpenOfUnique | tests/testutil.ts:9-21 | a top-level group's closing `)` determines its opening `(` |
| TypeSignature.TopGroupListed | tests/testutil.ts:14-21 | every top-level group that closes in the prefix is listed |
| TypeSignature.GroupsAreTopLevelGroups | tests/testutil.ts:1-25 | the result has exactly one element per top-level group, left to right: each is that group's verbatim text, nested parentheses included, and none is missed |
| TypeSignature.NoParenthesisNoGroups | tests/testutil.ts:1-25 | a signature with no `(` gives no groups |
| TypeSignature.PairOfScalars | tests/testutil.ts:1-25 | `Pair (a) (b)` with parenthesis-free `a`, `b` gives `[a, b]` |
| TypeSignature.OneArgument | tests/testutil.ts:1-25 | `Name (x)` with a balanced `x` gives `[x]` |
| TypeSignature.ListOfPair | tests/testutil.ts:1-25 | `List (Pair (a) (b))` with parenthesis-free `a`, `b` gives the single group `Pair (a) (b)` |
| Encoder.GetJSONValue | tests/testutil.ts:27-91 | the encoder throws only on a value that is, or holds in its arrays, `undefined` |
| Encoder.StringKeepsValue | tests/testutil.ts:36-38 | under `String` every value, `undefined` included, is returned unchanged |
| Encoder.Components | tests/testutil.ts:60-88 | every type that `extractTypes` yields for a recursive call is strictly smaller, so the encoder terminates |
| Encoder.DecodeInvertsEncode | tests/testutil.ts:27-91 | every value that fits its type encodes without an exception, and decoding the encoding gives the value back |
| Encoder.EncodingIsInjective | tests/testutil.ts:27-91 | two values that fit a type and encode alike are equal |
| Encoder.NumericTypesTakeToString | tests/testutil.ts:28-34 | under `Uint*`, `Int*` or `BNum` (lines 48-50) the result is exactly `value.toString()` for every value: only `undefined` throws; a number becomes its decimal text; a string is kept; a boolean becomes `"true"` or `"false"` |
| Encoder.ByStrLowerCases | tests/testutil.ts:40-46 | a string under `ByStr*` becomes exactly that string lower-cased: of the same length, with no upper-case letter left, and encoding it again changes nothing |
| Encoder.BooleanBecomesAdt | tests/testutil.ts:52-58 | a boolean under any type not taken by a scalar rule, `Option`, `List` and `Pair` included, becomes the ADT `True`/`False` with no arguments |
| Encoder.OptionRule | tests/testutil.ts:60-67 | under `Option`: argtypes are the groups; constructor `None` exactly for `undefined`, with no arguments; otherwise `Some` with the one argument encoded under the first group; throws only if that encoding does |
| Encoder.ListRule | tests/testutil.ts:69-75 | an array under `List` becomes an array of the same length whose element i is element i encoded under the first group; throws exactly when some element's encoding does |
| Encoder.PairRule | tests/testutil.ts:77-88 | an array under `Pair` becomes the ADT `Pair` with the groups as argtypes and argument i encoded under group i |
| Encoder.UnclaimedValuesPassThrough | tests/testutil.ts:90 | a non-boolean that no rule claims, such as a non-string under `ByStr`, is returned unchanged |
| Encoder.ScalarEncodingIsIdempotent | tests/testutil.ts:28-50 | encoding a numeric, `String` or `ByStr` result again changes nothing |
| Encoder.ScalarExamples | tests/testutil.ts:28-58 | `5` and `"5"` under `Uint128` give `"5"`; `"0xABcd"` under `ByStr20` gives `"0xabcd"`; `true` under `Option (Bool)` gives the ADT `True` |
| Encoder.OptionExamples | tests/testutil.ts:60-67 | under `Option (Uint128)`, `undefined` gives `None` with argtypes `["Uint128"]`, and 5 gives `Some` with argument `"5"` |
| Params.EncodeBinding | tests/testutil.ts:102-108 | one table entry becomes the parameter with its key as name, its type kept and its value encoded under that type; it throws exactly when that encoding throws |
| Params.GetJSONParams | tests/testutil.ts:101-111 | one parameter per key, in key order, with the name and type kept and the value encoded under its type; throws exactly when one encoding throws |
| Params.DecodeParamsInvertsGetJSONParams | tests/testutil.ts:101-111 | a table whose values fit their types is read back from its parameters: names, types, values and order |
| Params.GetJSONParamsIsInjective | tests/testutil.ts:101-111 | two such tables that build the same parameters are the same table |
| Params.ScillaVersionExample | tests/testutil.ts:101-111 | `{_scilla_version: ["Uint32", 0]}` builds `[{vname: "_scilla_version", type: "Uint32", value: "0"}]` |
| Comparator.WantAt | tests/testutil.ts:119 | reading `want[index]` throws exactly when `want` is undefined; past its end it reads as undefined |
| Comparator.Outcome | tests/testutil.ts:153-169 | the loop's result is true exactly when every record passes |
| Comparator.EventCheck | tests/testutil.ts:154-167 | an event passes exactly when there is no expectation, or the name matches and the expected table encodes to the event's parameters; it throws exactly when the expectation cannot be read, or the name matches and its table's encoding throws |
| Comparator.TransitionCheck | tests/testutil.ts:177-199 | a message passes exactly when an expectation exists, amount, recipient and tag match, and the expected table encodes to the message's parameters; it throws exactly when the expectation is missing or unreadable, or the header matches and the table's encoding throws |
| Comparator.OutcomeByIndex | tests/testutil.ts:153-169 | the loop returns true exactly when every record passes, false exactly when the first record that does not pass fails, and throws exactly when that record throws |
| Comparator.VerifyEvents | tests/testutil.ts:148-170 | with no events, the result is whether `want` is undefined too; otherwise it is the outcome of the per-event checks in order |
| Comparator.UnexpectedIndexIsSkipped | tests/testutil.ts:154-157 | at an index with no expectation, any event gives the same result |
| Comparator.ExtraExpectationsIgnored | tests/testutil.ts:153-157 | expectations beyond the last event never affect the result |
| Comparator.EventCheckComparesTables | tests/testutil.ts:158-167 | for events whose parameters were built from a conforming table, the check passes exactly when the name and the table are the expected ones |
| Comparator.VerifyTransitions | tests/testutil.ts:172-202 | with no messages, the result is whether `want` is undefined; otherwise it is the outcome of the checks of amount, recipient, tag and params, in that order |
| Comparator.MissingExpectationThrows | tests/testutil.ts:176-179 | with fewer expectations than messages, a run that passes the expected ones throws |
| Comparator.FalsyAmountAndRecipientUnchecked | tests/testutil.ts:179-187 | a falsy expected amount (`0`, `""`, none) or recipient makes the message's amount or recipient irrelevant |
| Comparator.TruthyAmountCompared | tests/testutil.ts:179-182 | a truthy expected amount whose text differs from the message's amount fails |
| Comparator.TruthyRecipientCompared | tests/testutil.ts:179-187 | a truthy expected recipient that differs from the message's recipient fails the message, whatever the amount check says |
| Comparator.TagMismatchFails | tests/testutil.ts:179-192 | a different tag fails the message whatever its amount, recipient and parameters |
| Comparator.TransitionCheckComparesTables | tests/testutil.ts:194-199 | for messages whose parameters were built from a conforming table and whose header matches, the check passes exactly when the table is the expected one |
| Comparator.TransferExample | tests/testutil.ts:172-202 | a `Transfer` message of amount `"0"` to `0xabc` matches the expectation `{tag: "Transfer", amount: 0, recipient: "0xabc"}`, and `Transfer2` does not |
| Rewards.Insert | tests/testutil.ts:132 | inserting adds exactly that one element |
| Rewards.SortDesc | tests/testutil.ts:132 | the sorted array is a permutation of the input |
| Rewards.Compare | tests/testutil.ts:132 | the comparator never returns 0: it gives 1, placing the first record after the second, exactly when the first record's `arguments[0]` is `<` the second's, and -1 otherwise |
| Rewards.CompareIsAntisymmetric | tests/testutil.ts:132 | the comparator never places each of two records after the other |
| Rewards.Defined | tests/testutil.ts:132 | the elements the sort passes to the comparator hold no `undefined`, and are all of them when there is none |
| Rewards.Undefs | tests/testutil.ts:132 | the elements the sort sets aside are all `undefined`, and there are none when the array has none |
| Rewards.SplitKeepsElements | tests/testutil.ts:132 | the compared elements and the set-aside `undefined`s together are the array's elements |
| Rewards.SortArray | tests/testutil.ts:132 | when the sort completes, its result is a permutation of the array |
| Rewards.SortValue | tests/testutil.ts:131-133 | the sort completes exactly when the value is `Sortable`: an array that does not hold two elements other than `undefined` with a non-record among them; it then yields an array with the same elements |
| Rewards.HasNonRecordExists | tests/testutil.ts:132 | the recursive test for a non-record agrees with "some element is neither `undefined` nor a record" |
| Rewards.SortThrowsOnNonRecords | tests/testutil.ts:131-133 | an array's sort throws exactly when it has two or more elements other than `undefined` and one of those is not a record; otherwise the records come first in the comparator's order and the `undefined`s last |
| Rewards.SplitPair | tests/testutil.ts:132 | a two-element array sets aside exactly its `undefined` elements |
| Rewards.LoneElementSorts | tests/testutil.ts:132 | an array with a single element other than `undefined` sorts without an exception, that element first |
| Rewards.UndefinedAfterRecordStays | tests/testutil.ts:132 | `[record, undefined]` sorts without an exception and stays as it is |
| Rewards.UndefinedMovesBehindRecord | tests/testutil.ts:132 | `[undefined, record]` sorts to `[record, undefined]` |
| Rewards.UndefinedsSortAlone | tests/testutil.ts:132 | `[undefined, undefined]` sorts without an exception |
| Rewards.CompareOnStrKeys | tests/testutil.ts:132 | for string keys the comparator's `<` is lexicographic order |
| Rewards.InsertDescending | tests/testutil.ts:132 | inserting a string-keyed record into a descending array keeps it descending |
| Rewards.SortIsDescending | tests/testutil.ts:132 | string-keyed records come out in descending key order |
| Rewards.DescendingIsUnique | tests/testutil.ts:130-140 | two descending arrays with the same records, where a key identifies its record, are equal |
| Rewards.DescendingIsFixed | tests/testutil.ts:132 | an array already in descending key order sorts to itself |
| Rewards.SortIgnoresOrder | tests/testutil.ts:130-140 | two orderings of the same string-keyed records, where no two different records share a key, sort to the same array |
| Rewards.SortIsIdempotent | tests/testutil.ts:130-138 | sorting an array of string-keyed records a second time changes nothing |
| Rewards.SortedPrefix | tests/testutil.ts:131-133 | counts the parameters, from the first, whose values are `Sortable`; the next one's value is not |
| Rewards.SortParams | tests/testutil.ts:131-133 | the pass sorts each parameter's value in turn up to the first that throws, and leaves that one and the rest unchanged; it completes exactly when every value sorts |
| Rewards.AgreesWithPass | tests/testutil.ts:131-133 | a list that agrees with the pass at every parameter is the pass's result |
| Rewards.SortParamValues | tests/testutil.ts:131-133 | the loop leaves the parameters, and reports completion, exactly as `SortParams` describes |
| Rewards.SortParamsOnlyReorders | tests/testutil.ts:130-138 | the pass keeps every name and type, and each value is either untouched or the same elements reordered |
| Rewards.RewardsCheck | tests/testutil.ts:119-143 | an event with no expectation passes untouched; one with a different name fails untouched (:123-126); an event passes only when an expectation was read; the check keeps the event's name and number of parameters |
| Rewards.RewardsCheckVerdict | tests/testutil.ts:119-143 | the check throws exactly when `want` is undefined, or the name matches and the expected table's encoding, the event's sort pass or the expected sort pass throws; it passes exactly when there is no expectation, or the name matches and both sort passes complete with equal results |
| Rewards.RewardsCheckOnlyReorders | tests/testutil.ts:130-138 | the check changes an event only by reordering the arrays its parameters hold: names, types and other values stay |
| Rewards.CheckRewardsEvent | tests/testutil.ts:119-143 | one event's check: skipped with no expectation, failed on a different name, otherwise its parameters sorted in place and compared with the sorted expected ones, giving exactly the verdict and event that `RewardsCheck` describes |
| Rewards.VerifyCheckRewardsEvents | tests/testutil.ts:113-146 | with no events (`undefined`, a null array in the model), the result is whether `want` is undefined; otherwise it is the outcome of the per-event checks; each event the loop reached is left as its check leaves it (sorted once the name matches and the expected table encodes; untouched when nothing is expected, the name differs or the expected table throws), and the rest are untouched |
| Rewards.UnexpectedEventUntouched | tests/testutil.ts:119-122 | an event with no expectation passes and is not modified |
| Rewards.NonArrayParameterThrows | tests/testutil.ts:130-133 | an expected event with a parameter whose value is not an array throws |
| Rewards.RecordsSort | tests/testutil.ts:131-133 | an array of string-keyed records sorts without an exception, in descending key order |
| Rewards.RewardsCheckIgnoresOrder | tests/testutil.ts:130-143 | an event whose parameters are the expected ones, with each array of key-identified records in any order, passes |
| Rewards.RewardsPassMeansSameRecords | tests/testutil.ts:123-143 | an event passes only if it has the expected name, its expected table encodes, and each parameter has the expected name and type and holds the expected array's elements in some order |
| Rewards.RewardsExtraExpectationsIgnored | tests/testutil.ts:118-122 | expectations beyond the last event never affect the verdicts or the events left behind |
| ErrorMsg.GetErrorMsg | tests/testutil.ts:204-205 | the message is the fixed head, the code's decimal text, then the fixed tail |
| ErrorMsg.ParseErrorMsg | tests/testutil.ts:204-205 | only text with the message's head reads as a code |
| ErrorMsg.ParseInvertsGetErrorMsg | tests/testutil.ts:204-205 | the code is read back from its message |
| ErrorMsg.GetErrorMsgIsInjective | tests/testutil.ts:204-205 | different codes give different messages |

## Left out

- JavaScript numbers are modelled as integers. Floating point, precision loss above 2^53 and the exponent notation of `toString` are not modelled.
- `toLowerCase` is modelled on the ASCII letters only. Case mapping of other Unicode letters is not modelled.
- Values are `undefined`, numbers, strings, booleans, arrays and ADT records. Other objects, `null`, and the behaviour of `toString` on them are not modelled.
- Throws that need shapes outside those values are not modelled: `getParams()` returning `undefined` or `null` (tests/testutil.ts:102), a table entry that is not an array (tests/testutil.ts:103), a transition without `msg` (tests/testutil.ts:177-179), a `null` expectation at `want[index]` (tests/testutil.ts:123, 158, 179), and `null.toString()` under a numeric type (tests/testutil.ts:29).
- JsValues.StrLess compares strings by code point. JavaScript `<` compares UTF-16 code units, and the two orders differ between a character above U+FFFF and one in U+E000 to U+FFFF.
- `JSON.stringify(a) !== JSON.stringify(b)` is modelled as structural inequality of the datatypes. Key order in the text, escaping, and the dropping of `undefined` fields are not modelled.
- `getParams()` is modelled as the table it returns. Because the table is a sequence, `Object.keys` reorders integer-like keys, but the model does not.
- Rewards.SortIgnoresOrder: holds only when no two different records share a key. With shared keys the comparator returns -1 both ways, and the result depends on the input order.
- Rewards.SortDesc: the engine's `Array.prototype.sort` is modelled as an insertion sort. The comparator never returns 0, so the engine's order of records with equal keys, or with keys that compare as NaN, may differ. The proved properties do not depend on that order: permutation, descending order for string keys, and order-insensitivity for key-identified records.
- Rewards.SortParams: a sort that throws leaves its array unchanged in the model. An engine may leave that array partly reordered.
- Rewards.VerifyCheckRewardsEvents: the sorted value arrays are shared objects in the source. The model writes the sorted event back into the events array, so aliasing of those arrays with other references the caller holds is not modelled.
- `ToNumber` of a string accepts only optional `-` followed by decimal digits, and the empty string. Whitespace, `+`, fractions, exponents and hex are not modelled; they matter only for non-string sort keys compared with string keys.
- An event's `params` is always a list, so the `Array.isArray` guard at tests/testutil.ts:130 always holds.
- `logDelta` (tests/testutil.ts:93-99) only prints diagnostics; a mismatch is modelled as the `false` result alone.
- `getBNum` and `increaseBNum` (tests/testutil.ts:207-213) are calls to the node's RPC interface and are not part of this model.
- tests/invalid_user.test.ts is not part of this model. It is asynchronous orchestration over the network.
