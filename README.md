# Customer registry, modelled in Dafny

This project models the customer registry of `customer.go`, the in-process store of a small banking
demo. A **customer** is a first name, a last name and a birthday. The customer has two derived strings:
a display name (`FullName`) and an e-mail address (`Email`). The **registry** (`CustomerService`) holds
customers in insertion order. It can add a customer (rejecting blank names and duplicate name pairs),
tell whether a name pair exists, remove every record that matches a name pair and a birthday, and search:
the first record with a name pair, all records, or all records with a name pair.

Layout:

- `wrappers.dfy`: module `Wrappers`. `Option`, which stands for Go's nil-able pointer and nil-able error.
- `text.dfy`: module `Text`. Stand-ins for `strings.TrimSpace`, which is exact over the code points
  `unicode.IsSpace` accepts and scans inward from both ends by index, and for `strings.ToLower`,
  restricted to ASCII.
- `filtering.dfy`: module `Filtering`. The order-preserving `Filter` that the private helper
  `searchCustomers` builds, with its lemmas.
- `customer.dfy`: module `Customers`. The `Customer` datatype (its constructor is also `NewCustomer`),
  `FullName`, `Email` and the identity test `SameName` (`hasSameName`).
- `customer_service.dfy`: module `Registry`. Pure functions say what each operation does to the
  sequence of records: `Added` (its cases are stated by `AddedCases`), `Removed`, `ByName`, `FirstByName` and `HasName`. Lemmas relate them.
  The class `CustomerService` has the field `customers: seq<Customer>`. Its methods do what the Go
  methods do, step by step, and are proved against those functions. That includes the in-place removal
  loop, which splices the sequence and steps its index back.

The invariant the code guarantees is `WellFormed`: every stored name is non-blank, and no two records
share an exact `(firstName, lastName)` pair. Every add and every remove preserves it
(`AddedWellFormed`, `RemovedWellFormed`). So every state reachable from a new registry satisfies it
(`ReplayWellFormed`), and in every such state a search by name returns at most one record
(`ReachableByNameAtMostOne`). One might expect add/remove cycles to leave several records with one
name pair, because removal also matches the birthday. The code does not allow this: the duplicate
check ignores the birthday, so a second record with a stored name pair is never added.

Identity is the exact, case-sensitive name pair. Both derived strings lower-case the first name.
So "Sabine Mustermann" and "sabine Mustermann" are two customers that the registry accepts one after
the other, yet they share one e-mail address (`CaseVariantsBothAccepted`). The model keeps this
asymmetry as it is.

## Model

| member | source | states |
|---|---|---|
| `Text.TrimSpace` | customer.go:40 | the trimmed name is a slice of the name with only white space cut off before and after it; it is empty exactly when every character is white space; a non-empty result neither starts nor ends with white space |
| `Text.Lower` | customer.go:24 | lower-casing keeps the length, leaves no ASCII capital, maps each capital to its lower-case letter and keeps every other character |
| `Filtering.Filter` | customer.go:96-104 | the selection is no longer than the input, and every element it keeps is from the input and accepted by the match function |
| `Filtering.FilterConcat` | customer.go:96-104 | filtering distributes over concatenation, so selected elements keep their stored order |
| `Filtering.FilterMember` | customer.go:96-104 | an element is selected exactly when it is stored and accepted |
| `Filtering.FilterAll` | customer.go:84-88 | a match function that accepts every element returns the whole sequence |
| `Filtering.FilterNone` | customer.go:96-104 | a match function that accepts nothing returns the empty sequence |
| `Customers.FullName` | customer.go:23-25 | the display name is the lower-cased first name (so it holds no capital), one blank, then the last name with its case kept |
| `Customers.Email` | customer.go:27-29 | the address is the lower-cased first name, a dot, the lower-cased last name, then `@mybank.com`; it holds no capital |
| `Customers.SameName` | customer.go:106-108 | a record has the name pair exactly when it equals that pair's record with its own birthday: both names must match exactly, case included, and the birthday plays no part |
| `Customers.EmailIgnoresCase` | customer.go:27-29 | two customers whose lower-cased names agree have the same address |
| `Customers.SabineMustermannEmail` | customer.go:27-29 | Sabine Mustermann's address is exactly `sabine.mustermann@mybank.com` |
| `Customers.SabineMustermannFullName` | customer.go:23-25 | Sabine Mustermann's display name is exactly `sabine Mustermann` |
| `Customers.CaseVariantsShareEmail` | customer.go:106-108 | "Sabine" and "sabine" are different identities but share an address |
| `Customers.FullNameKeepsLastNameCase` | customer.go:23-29 | for any two records with one first name and last names that differ only in case, the display names differ but the addresses are the same |
| `Customers.SabineLastNameCase` | customer.go:23-29 | the worked example: "Sabine Mustermann" and "Sabine MUSTERMANN" have different display names but the same address |
| `Registry.Message` | customer.go:41-45 | the missing-name error has the text "mandatory name parameter is missing" and the duplicate error the text "customer already exists", each text naming exactly one kind |
| `Registry.AddedCases` | customer.go:39-54 | an add fails with a missing name exactly when a name is all white space; fails as a duplicate exactly when both names are present and the pair is stored, whatever the birthday; on failure the sequence is unchanged; on success the untrimmed record is appended and every earlier record stays in place |
| `Registry.FirstByName` | customer.go:75-82 | no record is found exactly when no stored record has the name pair; a found record is stored and has the name pair |
| `Registry.ByNameNonEmptyIffHasName` | customer.go:56-63 | the name search is non-empty exactly when the existence test is true |
| `Registry.FirstByNameIsHeadOfByName` | customer.go:75-82 | the single-record search gives the first element of the name search, or nothing when that search is empty |
| `Registry.AddThenFind` | customer.go:39-54 | after an add of two non-blank names whose pair is not stored, the pair exists and the single-record search returns exactly the new record |
| `Registry.AddTwiceIsDuplicate` | customer.go:44-45 | once a non-blank, unstored pair has been added, adding it again fails as a duplicate, even with another birthday |
| `Registry.BlankNameIsMissing` | customer.go:40-41 | a first or last name that is all white space, or empty, fails with a missing name and leaves the registry as it was, whatever is stored |
| `Registry.RegisterOnEmpty` | customer.go:39-53 | on an empty registry the first add of a non-blank pair succeeds, the second fails as a duplicate, and both searches find the first record once |
| `Registry.SabineScenario` | customer_test.go:70-150 | the same scenario for Sabine Mustermann: a second add of the pair fails as a duplicate, the name search finds one record, and the single-record search returns Sabine Mustermann's record |
| `Registry.AddTwoOnEmpty` | customer.go:39-54 | two adds of different, non-blank name pairs to an empty registry both succeed and leave the two records in the order added |
| `Registry.CaseVariantsBothAccepted` | customer.go:44-45 | "Sabine Mustermann" and then "sabine Mustermann" are both accepted and stored in that order; they are different identities, and the two records share one address |
| `Registry.RemovedMember` | customer.go:65-73 | after a removal a record is present exactly when it was stored and does not match the name pair and the birthday |
| `Registry.RemoveKeepsOtherBirthdays` | customer.go:68 | a same-name record with another birthday survives the removal |
| `Registry.RemoveNothingIsNoop` | customer.go:65-73 | a removal that matches nothing changes nothing |
| `Registry.RemovedKeepsOrder` | customer.go:65-73 | removal distributes over concatenation, so survivors keep their relative order |
| `Registry.RemovedCount` | customer.go:65-73 | the survivors and the removed records together number the old registry |
| `Registry.AddThenRemove` | customer.go:48-73 | when the add of a non-blank, unstored pair succeeds, removing that pair with the same birthday gives back the registry as it was before the add |
| `Registry.AddedWellFormed` | customer.go:39-54 | an add keeps names non-blank and name pairs distinct |
| `Registry.RemovedWellFormed` | customer.go:65-73 | a removal keeps names non-blank and name pairs distinct |
| `Registry.ByNameAtMostOne` | customer.go:90-94 | when name pairs are distinct, a name search returns at most one record |
| `Registry.ReplayWellFormed` | customer.go:35-73 | every state reached from a new registry by adds and removes keeps names non-blank and name pairs distinct |
| `Registry.ReachableByNameAtMostOne` | customer.go:90-108 | in every such state, a name search returns at most one record |
| `Registry.CustomerService.constructor` | customer.go:35-37 | a new registry is empty and satisfies the invariant |
| `Registry.CustomerService.AddCustomer` | customer.go:39-54 | the returned error and the new sequence are those of `Added` on the old sequence (see `AddedCases`); the invariant is preserved |
| `Registry.CustomerService.CustomerExists` | customer.go:56-63 | the scan returns true exactly when some stored record has the exact name pair; it changes nothing |
| `Registry.CustomerService.RemoveCustomer` | customer.go:65-73 | the in-place splicing loop leaves exactly the old records that do not match, in order; the invariant is preserved |
| `Registry.CustomerService.SearchCustomer` | customer.go:75-82 | returns the first stored record with the name pair, or nothing exactly when none exists |
| `Registry.CustomerService.SearchCustomers` | customer.go:84-88 | returns every stored record in stored order |
| `Registry.CustomerService.SearchCustomersByName` | customer.go:90-94 | returns exactly the records with the name pair, in stored order; at most one while the invariant holds |
| `Registry.CustomerService.SearchWhere` | customer.go:96-104 | the appending loop returns exactly the stored records the match function accepts, in order |

## Left out

- `Text.Lower`: maps only the ASCII capitals A-Z. `strings.ToLower` also maps every other Unicode letter
  that has a lower-case form. That mapping is a library table, not visible here.
- `Text.TrimSpace`: works on Unicode scalar values, not on Go's UTF-8 byte strings. The treatment of
  invalid UTF-8 bytes is not modelled.
- Birthdays are an opaque type (`Time`) compared with `==`. The time zones, locations and monotonic
  clock readings that `time.Time.Equal` handles are not modelled.
- `SearchCustomer` returns a pointer to a copy of the first match. The model returns `Option<Customer>`
  and does not model pointer identity.
- `append` in `RemoveCustomer` and `AddCustomer` shares or reallocates the slice's backing array. The
  model reassigns a `seq`, so it does not capture capacity or aliasing. The difference between a nil
  slice and an empty one is also not modelled.
- `AddCustomer` returns the error kind (`AddError`). The error texts are given by `Registry.Message`.
- The step definitions and scenario registration in `customer_test.go` are test scaffolding, not part
  of the registry.
- Concurrency: the registry has no synchronisation, and the model is sequential.
