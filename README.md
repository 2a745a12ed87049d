# Account store model

A Dafny model of the account-list store of a small form client
(`src/stores/accounts.ts`). The store keeps an ordered list of account
records and an id counter. It offers four operations:

- `addAccount` appends a default record with a fresh id.
- `removeAccount` removes the first record with a given id.
- `updateAccount` merges a partial record into the record at an index.
  A `labelRaw` in the patch is normalised first and the `label` list is derived from it.
- `validateAccount` recomputes a record's per-field error flags and its validity.

The files:

- `text.dfy` (module `Text`) models the JavaScript string operations the store uses:
  `trim`, `split(';')` and `join(';')`.
- `labels.dfy` (module `Labels`) models the label normalisation chain and the derived label list.
- `accounts.dfy` (module `Accounts`) holds the account record and the patch merge.
  It also holds the validation rules and the id invariant, all stated over values.
- `store.dfy` (module `AccountStore`) holds the class `Store`.
  Its fields are `accounts: seq<Account>` and `idCounter: int`.
  Its methods change both in place, as the source's closure variables are changed.
  Each method's `ensures` ties the new state to the value-level functions of `Accounts`.

Naming: the record's `label` field is called `labels` in the model, because
`label` is a reserved word in Dafny. The record's `type` field is called
`accountType` for the same reason.

What the code allows beyond the store's intended use, and what the model does about it:

- `updateAccount` takes a `Partial<Account>`. `Object.assign` (`src/stores/accounts.ts:101`) therefore also overwrites `id` and `label` when the patch carries them.
  `Patch` keeps both keys. `IdKeyBreaksIdInvariant` shows that an `id` key can give two records the same id.
  `LabelKeyBreaksConsistency` shows that a `label` key unlinks `label` from `labelRaw`.
- Loading (`src/stores/accounts.ts:29-43`) only guarantees that the counter ends above every loaded id.
  Distinct ids after loading depend on the stored data.

## Model

| member | source | states |
|---|---|---|
| Text.TrimStart | src/stores/accounts.ts:86 | the result is the suffix left after a run of whitespace, and does not start with whitespace |
| Text.TrimEnd | src/stores/accounts.ts:86 | the result is the prefix before a run of whitespace, and does not end with whitespace |
| Text.Trim | src/stores/accounts.ts:86 | `trim` yields a slice of the input that is trimmed, and only whitespace lies outside it |
| Text.TrimAround | src/stores/accounts.ts:86 | a trimmed string padded with whitespace on both sides trims back to itself, so `trim` is determined by what it keeps |
| Text.TrimOfTrimmed | src/stores/accounts.ts:94 | trimming an already trimmed piece changes nothing |
| Text.TrimKeepsCharacters | src/stores/accounts.ts:86 | trimming introduces no character, so a trimmed piece holds no `;` its source did not |
| Text.TrimSplitsString | src/stores/accounts.ts:86 | a string is the whitespace `trim` removes in front, the trimmed string, and the whitespace it removes behind |
| Text.Split | src/stores/accounts.ts:85 | `split(';')` gives at least one piece, no piece holds `;`, and joining the pieces gives the input back |
| Text.Join | src/stores/accounts.ts:89 | `join(';')` of one or more pieces starts with the first piece; `Split` and `SplitJoin` relate it to splitting |
| Text.SplitPrefix | src/stores/accounts.ts:85 | a `;`-free prefix only extends the first piece of what follows it |
| Text.SplitJoin | src/stores/accounts.ts:89-94 | splitting the `;`-join of one or more `;`-free pieces gives exactly those pieces |
| Text.JoinEmpty | src/stores/accounts.ts:89 | a join of non-empty pieces is empty exactly when there are no pieces |
| Labels.DropEmpty | src/stores/accounts.ts:87 | the filter keeps only non-empty pieces, all from the input, and passes an input without empty pieces through whole |
| Labels.DropEmptyKeepsNonEmpty | src/stores/accounts.ts:87 | the filter drops no non-empty piece |
| Labels.DropEmptyAppend | src/stores/accounts.ts:87 | filtering a concatenation is concatenating the filtered parts, so kept pieces stay in input order |
| Labels.KeepFirst | src/stores/accounts.ts:88 | `slice(0, 50)` keeps exactly the first min(n, 50) pieces, in order |
| Labels.TrimEach | src/stores/accounts.ts:86 | `map(s => s.trim())` gives one trimmed piece per piece, none longer than its source |
| Labels.TrimmedPiecesAreLabelTexts | src/stores/accounts.ts:85-87 | each piece left after split, trim and filter is non-empty, trimmed and free of `;` |
| Labels.Pieces | src/stores/accounts.ts:84-88 | at most 50 pieces survive, each non-empty, trimmed and free of `;` |
| Labels.PiecesKeepEveryLabel | src/stores/accounts.ts:84-88 | unless 50 pieces survive, every `;`-piece that is non-empty once trimmed survives |
| Labels.NormalizeLabelRaw | src/stores/accounts.ts:84-89 | the cleaned `labelRaw` is empty exactly when no piece survives, and otherwise splits back into exactly the surviving pieces |
| Labels.DeriveLabels | src/stores/accounts.ts:93-95 | the derived `label` list is empty exactly when the cleaned string is empty |
| Labels.LabelsAreSurvivingPieces | src/stores/accounts.ts:84-95 | the derived labels of the cleaned string are exactly the surviving pieces, in order, and none exactly when the string is empty |
| Labels.ChainKeepsLabelTexts | src/stores/accounts.ts:86-88 | at most 50 valid label texts are a fixed point of trim, filter and slice |
| Labels.PiecesOfEmpty | src/stores/accounts.ts:84-89 | nothing survives normalising the empty string |
| Labels.PiecesOfJoin | src/stores/accounts.ts:84-89 | normalising the `;`-join of 1 to 50 valid label texts gives those texts back |
| Labels.NormalizeIdempotent | src/stores/accounts.ts:84-89 | normalising a cleaned `labelRaw` again yields the same string |
| Labels.SingleLabelIsNormal | src/stores/accounts.ts:84-89 | a single valid label text is its own normal form |
| Labels.CleanInputIsTruncated | src/stores/accounts.ts:88 | when every `;`-piece is already a valid label, the surviving pieces are the first 50, in original order |
| Labels.PaddingOf | src/stores/accounts.ts:85-86 | every `;`-free string is a label text (possibly empty) with whitespace on either side, the text being its trimmed form |
| Labels.PiecesOfPadded | src/stores/accounts.ts:84-88 | for any input written as `;`-separated whitespace-padded texts, the surviving pieces are exactly the non-empty texts in input order, the first 50 of them |
| Accounts.CleanedLabelRaw | src/stores/accounts.ts:84-89 | a present `labelRaw` is stored as a string that is empty exactly when no piece survives and otherwise splits into exactly the surviving pieces; a present but `undefined` one is stored as the empty string |
| Accounts.NewAccount | src/stores/accounts.ts:57-66 | a new record has the given id, type `Local`, empty `labelRaw`, `label`, `login` and `password`, `isValid = false`, no errors, labels consistent with its `labelRaw`, and an `isValid` that agrees with what validation would compute |
| Accounts.Assign | src/stores/accounts.ts:101 | `Object.assign` stores the value of every key the patch carries and keeps every field whose key is absent; `labelRaw`, `isValid` and `errors` are kept, and a patch with no keys changes nothing |
| Accounts.ApplyPatch | src/stores/accounts.ts:82-101 | fields whose key is present are overwritten and the others are unchanged. A present `labelRaw` is cleaned and re-derives `label`. A `label` key wins over the derived list. `errors`/`isValid` are left to validation |
| Accounts.ApplyPatchInSteps | src/stores/accounts.ts:82-101 | cleaning `labelRaw` first and then assigning the remaining keys gives `ApplyPatch` |
| Accounts.FieldErrors | src/stores/accounts.ts:112-128 | validation always produces exactly the three keys `labelRaw`, `login`, `password` |
| Accounts.Validated | src/stores/accounts.ts:108-133 | the validated record's flags describe its own fields, and its id is untouched |
| Accounts.ValidatedMeaning | src/stores/accounts.ts:119-132 | `labelRaw` is flagged unless 1..50 characters and `login` unless 1..100. `password` is flagged unless 1..100 for `Local` and never for `LDAP`. `isValid` holds iff no flag is raised. Only `errors` and `isValid` change |
| Accounts.ValidatedIdempotent | src/stores/accounts.ts:108-133 | validating twice in a row gives the same record as validating once |
| Accounts.NewAccountFailsValidation | src/stores/accounts.ts:56-67 | a freshly added record fails all three checks, consistent with the `isValid = false` it is created with |
| Accounts.NormalizedLabelRawCanFailValidation | src/stores/accounts.ts:84-119 | the label-count limit and the character limit differ: any single label longer than 50 characters is stored unchanged and then flagged |
| Accounts.LabelRawPatchResult | src/stores/accounts.ts:84-95 | after a `labelRaw` patch the stored string is the join of at most 50 non-empty `;`-free pieces. Without a `label` key the labels are exactly those pieces, and empty iff the string is |
| Accounts.LabelRawPatchIdempotent | src/stores/accounts.ts:82-95 | feeding the stored `labelRaw` back through the same patch leaves the record unchanged |
| Accounts.UpdateKeepsLabelsConsistent | src/stores/accounts.ts:82-104 | an update without a `label` key keeps `label` equal to the labels derived from `labelRaw` |
| Accounts.LabelKeyBreaksConsistency | src/stores/accounts.ts:93-101 | a `label` key in the patch is stored as given, so `label` no longer matches `labelRaw` |
| Accounts.MaxId | src/stores/accounts.ts:37 | `Math.max` over the ids of a non-empty list is an id that occurs, and no id exceeds it |
| Accounts.LoadedCounterAboveIds | src/stores/accounts.ts:36-38 | the loaded counter, max id + 1, is above every loaded id |
| Accounts.RemoveFirst | src/stores/accounts.ts:70-75 | removal shortens the list by one exactly when some record has the id, and keeps only records of the original list |
| Accounts.RemoveFirstAt | src/stores/accounts.ts:71-73 | when the first record with the id is at `k`, removal is exactly the splice of position `k` |
| Accounts.RemoveFirstAbsent | src/stores/accounts.ts:72 | with an unknown id, removal leaves the list unchanged |
| Accounts.AddKeepsIdInvariant | src/stores/accounts.ts:57-58 | appending a record with the counter's id and bumping the counter keeps ids distinct and below the counter |
| Accounts.RemoveKeepsIdInvariant | src/stores/accounts.ts:70-75 | removal keeps ids distinct and below the counter |
| Accounts.ValidateKeepsIdInvariant | src/stores/accounts.ts:108-133 | validation keeps ids distinct and below the counter |
| Accounts.UpdateKeepsIdInvariant | src/stores/accounts.ts:78-105 | an update whose patch has no `id` key keeps ids distinct and below the counter |
| Accounts.IdKeyBreaksIdInvariant | src/stores/accounts.ts:78-101 | an `id` key in the patch can give two records the same id |
| AccountStore.FindIndexById | src/stores/accounts.ts:71 | `findIndex` returns the first position whose id matches, or -1 exactly when no record has the id |
| AccountStore.Store.Load | src/stores/accounts.ts:29-43 | a parsed list becomes the list. A non-empty one sets the counter to max id + 1; otherwise the counter is 1. The counter ends above every id, and the invariant holds iff the loaded ids are distinct |
| AccountStore.Store.AddAccount | src/stores/accounts.ts:56-67 | appends exactly one default `Local` record with the old counter as id, then increments the counter. Earlier records are unchanged and the id invariant is kept |
| AccountStore.Store.RemoveAccount | src/stores/accounts.ts:70-75 | the list becomes `RemoveFirst` of the old list. An unknown id changes nothing. The counter is unchanged and the invariant is kept |
| AccountStore.Store.UpdateAccount | src/stores/accounts.ts:78-105 | out of range nothing changes. Otherwise only the indexed record changes, to `ApplyPatch` then validation. The invariant is kept when the patch has no `id` |
| AccountStore.Store.ValidateAccount | src/stores/accounts.ts:108-133 | out of range nothing changes. Otherwise only the indexed record's `errors`/`isValid` are recomputed. The invariant is kept |

## Left out

- Persistence is left out: `localStorage` reads and writes, `JSON.parse`/`JSON.stringify`, the error log on a failed parse, and the deep `watch` that saves on change. `Load` takes what storage held as a parameter: nothing, unparsable text, or a parsed list. No claim is made about how often the list is saved, because the framework batches the watch callback.
- The Pinia store definition and the `ref` wrapper are framework plumbing and are not modelled.
- Loaded data is taken to be well-typed records. Parsed JSON that is not an array, or ids that are not numbers, are not modelled. With such data, `Math.max` could yield `NaN`.
- Indices are integers. A fractional or `NaN` index also reads `undefined` in the source and is a no-op. The model has no such values.
- `delete data.labelRaw` also removes the key from the caller's patch object. That side effect on the caller is not modelled.
- A patch's `isValid` and `errors` keys are not in `Patch`, because the validation at the end of every update overwrites both.
- A present-but-`undefined` (or `null`) value is modelled only for `labelRaw`, which the optional chain turns into `''`. For the other keys `Object.assign` stores `undefined`, and the model has no such value:
  - `type: undefined` makes `account.type === 'Local'` false, so the record is validated like an `LDAP` one and `password` is never flagged.
  - `login: undefined` makes validation throw on `.length` (line 122) after the merge has already changed the record.
  - `password: undefined` makes validation throw (line 127) only when the type is `Local`. Otherwise the password is not read.
  - `id: undefined` and `label: undefined` are stored without any error.
- A record without an `errors` key and one with `errors = {}` are both an empty map.
- Text.IsWhitespace: lists the common whitespace characters rather than every Unicode space separator `trim` removes. The lemmas use only that `;` is not in the set.
- AccountStore.Store.Load: ids and the counter are unbounded integers. In the source they are JavaScript numbers (doubles): above 2^53, `Math.max(...) + 1` (line 37) and `idCounter++` (line 58) stop increasing, so a loaded id of 2^53 leaves the counter equal to it and the next `addAccount` repeats that id. Fractional ids cannot be expressed either. The id lemmas (`LoadedCounterAboveIds`, `AddKeepsIdInvariant`) hold only for integer ids below 2^53.
- Labels: no lemma evaluates a concrete input such as `"  a ; ; b;c ;"` (which normalises to `"a;b;c"`), because checking literal strings costs far more than the general lemmas. `PiecesOfPadded` covers such inputs: this one is the five padded pieces `a`, empty, `b`, `c`, empty.
- Lengths are counted in characters rather than UTF-16 code units. They differ only for characters outside the Basic Multilingual Plane.
