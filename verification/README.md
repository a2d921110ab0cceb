# Create-vault form: member validation and form state

A model of the vault-creation page of the Vault front end
(`frontend/src/app/create/page.tsx`). Before a syndicate vault is deployed,
the page collects a list of member address rows and a voting threshold, and
checks them in a fixed order. It drops blank rows. It requires at least one
member. It requires every entry to be an address. It rejects entries that
turn out equal after normalisation. It requires the threshold to lie between
1 and the number of members. These are the construction preconditions of the
vault: a non-empty, duplicate-free member list and a threshold in range.

The model has four modules.

- `Wrappers` (`wrappers.dfy`): `Option` and `Result`. A thrown `Error`
  becomes an `Err`.
- `Text` (`text.dfy`): `String.prototype.trim` over the ECMAScript whitespace
  and line-terminator characters. Also the decimal rendering of a count
  inside a template literal.
- `MemberValidation` (`validation.dfy`): `validateForm` as the function
  `Validate`, with its stages `Filled` (the blank-row filter), `NormaliseAll`
  (the throwing `map`) and the set-size duplicate test. The address library
  (`isAddress`, `getAddress`) is the abstract `AddressCodec`: every property
  holds for any pair of functions.
- `CreateForm` (`form.dfy`): the page state as the class `CreateVaultForm`.
  Its methods are `addMember`, `removeMember`, `handleMemberChange`, the
  threshold selector and `handleSubmit`. The submit decision is also the pure
  function `Decide`, with the guard order proved about it.

The class invariant `Valid()` says there is always a row and
`1 <= threshold <= rows`. Every editing method keeps it. The clamp in
`addMember`/`removeMember` compares the threshold with the number of rows,
not with the number of filled rows. So a valid form can still hold a
threshold that validation rejects and that the selector no longer offers.
`StaleThresholdAfterClearingRow` exhibits one: two rows, one blank,
threshold 2. Validation catches this case, so it is recorded as a property
and not as a defect.

## Model

| member | source | states |
|---|---|---|
| `Text.TrimEmptyIffBlank` | frontend/src/app/create/page.tsx:84 | `s.trim()` is empty (falsy) exactly when every character of `s` is whitespace |
| `Text.TrimSlice` | frontend/src/app/create/page.tsx:92-95 | `trim` returns a contiguous slice of the input; it drops only whitespace on either side and neither starts nor ends with whitespace |
| `Text.TrimOfPadded` | frontend/src/app/create/page.tsx:92-95 | trimming is unique: a core with non-whitespace ends, padded with whitespace on both sides, trims back to exactly that core |
| `Text.TrimIdempotent` | frontend/src/app/create/page.tsx:84 | trimming a trimmed string changes nothing |
| `Text.DecimalString` | frontend/src/app/create/page.tsx:106-108 | the member count in the threshold message is printed as at least one decimal digit, with no leading zero |
| `Text.DecimalRoundTrip` | frontend/src/app/create/page.tsx:106-108 | reading the printed count back gives the count |
| `MemberValidation.Filled` | frontend/src/app/create/page.tsx:84 | the filter keeps only rows whose trimmed text is non-empty, draws them from the input, and is empty exactly when no row is filled |
| `MemberValidation.FilledConcat` | frontend/src/app/create/page.tsx:84 | the filter works row by row, so filled rows keep the order in which they were typed |
| `MemberValidation.FilledSkipsBlank` | frontend/src/app/create/page.tsx:84 | a blank row anywhere in the list does not change the filled rows |
| `MemberValidation.BlankRowIgnored` | frontend/src/app/create/page.tsx:81-115 | adding or removing a blank row never changes the validation result |
| `MemberValidation.NormaliseAll` | frontend/src/app/create/page.tsx:91-96 | the throwing map succeeds exactly when every trimmed entry is an address, then returns each entry's canonical form in order; otherwise it fails with the first rejected entry as typed, and never returns a partial list |
| `MemberValidation.FirstInvalidUnique` | frontend/src/app/create/page.tsx:91-94 | only one index can be the first rejected entry, so the reported entry is determined |
| `MemberValidation.SetSizeDetectsDuplicates` | frontend/src/app/create/page.tsx:99-102 | the set size equals the list length exactly when the list has no repeated value |
| `MemberValidation.Validate` | frontend/src/app/create/page.tsx:81-115 | on success, the list is the canonical form of the filled rows, in order, of the same length (at least one) and pairwise distinct, and the threshold lies in `1..length` |
| `MemberValidation.ValidateSucceedsIff` | frontend/src/app/create/page.tsx:81-115 | validation succeeds if and only if some row is filled, every filled row is an address, the canonical forms are distinct and `1 <= threshold <= filled rows` |
| `MemberValidation.NoMembersIffAllBlank` | frontend/src/app/create/page.tsx:84-88 | the error is "no member" exactly when every row is blank after trimming |
| `MemberValidation.InvalidAddressReported` | frontend/src/app/create/page.tsx:91-94 | if a filled row is not an address, validation fails and names the first such row, whatever follows it and whatever the threshold |
| `MemberValidation.InvalidAddressOnlyForBadRow` | frontend/src/app/create/page.tsx:91-94 | an invalid-address error always names a filled row that is rejected and that only addresses precede |
| `MemberValidation.DuplicatesRejected` | frontend/src/app/create/page.tsx:95-102 | once all entries are addresses, two filled rows with the same canonical form cause the duplicate error, even if they were typed differently |
| `MemberValidation.ThresholdRangeChecked` | frontend/src/app/create/page.tsx:105-111 | with valid distinct members, the result is success when `1 <= threshold <= filled rows`, and otherwise the range error that carries the number of filled rows, not the number of all rows |
| `MemberValidation.ValidationMessage` | frontend/src/app/create/page.tsx:86-108 | every validation error has a non-empty message text |
| `CreateForm.WithoutRow` | frontend/src/app/create/page.tsx:66 | filtering out position `index` removes exactly that row and keeps the rest in order; an index outside the list changes nothing |
| `CreateForm.WithoutRowUndoesInsert` | frontend/src/app/create/page.tsx:66 | removing a row undoes inserting one at the same position |
| `CreateForm.FilledCount` | frontend/src/app/create/page.tsx:212 | the "N total" count never exceeds the number of rows |
| `CreateForm.ThresholdOptions` | frontend/src/app/create/page.tsx:269-276 | the selector offers exactly the integers `1..max(1, filled rows)`, in increasing order, starting at 1 |
| `CreateForm.OfferedThresholdsInRange` | frontend/src/app/create/page.tsx:269-276 | when some row is filled, every offered threshold passes the range check of validation |
| `CreateForm.SubmitMessage` | frontend/src/app/create/page.tsx:121-153 | every submit error has a non-empty message, so the fallback text is never shown |
| `CreateForm.Decide` | frontend/src/app/create/page.tsx:117-151 | a deployment asks for a non-empty, duplicate-free member list, a threshold between 1 and its length, and the fixed swap router |
| `CreateForm.SubmitGuardOrder` | frontend/src/app/create/page.tsx:121-140 | errors come in a fixed order: not connected, then wrong chain (84531), then bytecode `0x`, then the validation result; a deployment follows exactly when validation succeeds |
| `CreateForm.DeployedMembersAreNormalisedRows` | frontend/src/app/create/page.tsx:140-151 | the deployment carries the canonical form of the filled rows in order, the threshold as chosen, and the router constant |
| `CreateForm.StaleThresholdAfterClearingRow` | frontend/src/app/create/page.tsx:56-73 | the row-count clamp admits a threshold that the selector does not offer and that validation rejects with "between 1 and 1" |
| `CreateForm.CreateVaultForm.constructor` | frontend/src/app/create/page.tsx:25-28 | the initial state is one blank row, threshold 1, no error, not deploying; it satisfies the invariant |
| `CreateForm.CreateVaultForm.AddMember` | frontend/src/app/create/page.tsx:56-62 | appends exactly one blank row and leaves earlier rows as they were; the threshold drops to the new row count only if it was above it, so it is at most the row count; the invariant is kept |
| `CreateForm.CreateVaultForm.RemoveMember` | frontend/src/app/create/page.tsx:64-73 | with one row, nothing changes; otherwise it removes exactly the row at `index` and keeps the order of the rest; the threshold drops to the new length only if it is above it; the invariant is kept |
| `CreateForm.CreateVaultForm.ChangeMember` | frontend/src/app/create/page.tsx:75-79 | replaces only row `index`; the length, every other row and the threshold are unchanged |
| `CreateForm.CreateVaultForm.SelectThreshold` | frontend/src/app/create/page.tsx:262-282 | choosing an offered option sets the threshold to it and keeps the invariant, because filled rows never outnumber rows |
| `CreateForm.CreateVaultForm.HandleSubmit` | frontend/src/app/create/page.tsx:117-156 | clears the error, then shows the message of the first failing check; it requests a deployment exactly as `Decide` does; deploying is set on success, cleared on a validation error and left alone by the three early guards |

## Left out

- The vault contract (deposit ledger, proposals, votes, quorum-gated execute and the swap). Its source is not part of this model. `test/vault.test.ts` only drives it through Hardhat.
- `isAddress` and `getAddress` from viem: EIP-55 checksum addresses over Keccak-256, which is foreign code. They are the two abstract functions of `AddressCodec`. The model does not assume that `getAddress` is defined only on valid addresses; it is called only after `isAddress` accepts.
- Wallet and chain hooks, `deployContract`, the receipt wait, `router.push` and the three `useEffect` reactions (lines 40-54 and 158-164). These are asynchronous network and UI plumbing. `HandleSubmit` returns the deployment request in place of calling `deployContract`. The first effect auto-fills the connected address into a single blank row; it is not modelled.
- A synchronous exception from `deployContract` inside the `try` of `handleSubmit` is not modelled. Deployment errors arrive through the hook instead.
- `CreateVaultForm.ChangeMember`: requires `index` to be the index of an existing row, because the page calls it only from a rendered row. JavaScript's behaviour for other indices (a sparse array with holes, or a property named after a negative number) is not modelled.
- React state updates are modelled as immediate assignments, and each handler runs to completion on the current state. Batching and stale closures are not modelled.
- JavaScript strings are UTF-16. The model's strings are sequences of Unicode scalar values, so lone surrogates are not represented. No whitespace character is a surrogate, so `trim` is unaffected.
- `threshold` is a JavaScript number. It is modelled as an integer, because the page only ever sets it from integer option values or a row count.
- The JSX markup, `frontend/src/app/page.tsx`, `layout.tsx`, `Navbar.tsx`, the vault page, the deployment scripts, `scripts/extract-bytecode.js` (file I/O and floating-point size estimates) and the configuration files are presentation, tooling or configuration.
- The bytecode constant comes from a generated module that is not part of this model. It is the `bytecode` field of `Environment`.
