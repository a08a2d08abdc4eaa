# Terms-of-service status lookup (firebase-tools `src/gcp/firedata.ts`)

The Firebase data service reports, per product, whether the current user has
accepted that product's terms of service. Its response carries a list
`perServiceStatus` of entries `{tosId, serviceStatus: {status}}`, where the
status is `null` or `"ACCEPTED"`. Two functions read that response:

- `getAcceptanceStatus(response, tosId)` finds the first entry whose `tosId`
  equals the requested product id and returns its status, or throws a
  `FirebaseError` ("Missing terms of service status for  product: <id>", with
  the double space of the original) when no entry matches;
- `isProductTosAccepted(response, tosId)` is `true` when that status is
  `"ACCEPTED"`, `false` when it is `null`, and lets the error through.

`firedata.dfy` (module `Firedata`) models both as Dafny functions over values:

- `TosId` is a two-constructor datatype (`AppHosting`, `AppCheck`), and
  `TosIdLiteral` gives the string each is compared as: `"APP_HOSTING_TOS"` and
  `"APP_CHEcK"`, with the odd casing of the original kept.
- An entry's `tosId` is a `string`: the response is deserialised JSON, so at
  run time it may hold any string, and the lookup compares strings exactly
  (`===`). An entry spelled `"APP_CHECK"` therefore does not count as the App
  Check entry (`AppCheckLiteralIsCaseSensitive`).
- `AcceptanceStatus` is `Null | Accepted`. The returned status is one of these
  two values by its type, so no lemma states it separately.
- The thrown `FirebaseError` is the `Err` arm of `Result`.
- `Find` is `Array.prototype.find` with the callback comparing `tosId`.
  `IsFirstMatch` is the reference definition of "the first matching position",
  stated without recursion, that the contracts and lemmas are proved against.
- Every function takes the response as an immutable value and returns a new
  value. So the `perServiceStatus` list is the same before and after a
  lookup by construction, and no lemma is needed for it.

## Model

| member | source | states |
|---|---|---|
| `Firedata.Find` | src/gcp/firedata.ts:36 | `find` returns nothing exactly when no entry carries the id; otherwise it returns the entry at the first position carrying the id |
| `Firedata.GetAcceptanceStatus` | src/gcp/firedata.ts:32-41 | fails exactly when no entry carries the product's literal, and then with the missing-status error; otherwise returns the status of the first entry carrying it |
| `Firedata.GetAcceptanceStatusOfFirstMatch` | src/gcp/firedata.ts:36-40 | if position i is the first entry for the product, the result is exactly `Ok` of that entry's status |
| `Firedata.LaterEntriesIgnored` | src/gcp/firedata.ts:36 | replacing everything after the first matching entry, later duplicates for the same product included, leaves the result unchanged |
| `Firedata.FindAppend` | src/gcp/firedata.ts:36 | `find` over `s + t` is `find` over `s` when `s` has a match, and `find` over `t` otherwise |
| `Firedata.FindSkipsOther` | src/gcp/firedata.ts:36 | an entry for another id at the front does not change what `find` returns |
| `Firedata.InsertOtherProductUnchanged` | src/gcp/firedata.ts:36 | inserting an entry for another product at any position leaves the outcome, status or error, unchanged |
| `Firedata.RemoveOtherProductUnchanged` | src/gcp/firedata.ts:36 | removing an entry for another product from any position leaves the outcome, status or error, unchanged |
| `Firedata.OnlyOwnEntriesMatter` | src/gcp/firedata.ts:36 | keeping only the entries for the requested product, in order, leaves the outcome unchanged |
| `Firedata.MissingStatusErrorNamesProduct` | src/gcp/firedata.ts:37-39 | when no entry matches, the error message ends with the product's id literal |
| `Firedata.IsProductTosAccepted` | src/gcp/firedata.ts:43-45 | fails, with the missing-status error, exactly when no entry carries the product's literal, and never answers `false` for a missing entry; otherwise answers whether the first matching entry's status is `ACCEPTED` |
| `Firedata.IsProductTosAcceptedOfFirstMatch` | src/gcp/firedata.ts:43-45 | with a first matching entry, the answer is `true` exactly when its status is `ACCEPTED` and `false` exactly when it is `null` |
| `Firedata.TosIdLiteralInjective` | src/gcp/firedata.ts:7-10 | the two product ids have different literals |
| `Firedata.AppCheckLiteralIsCaseSensitive` | src/gcp/firedata.ts:8 | an entry spelled `APP_CHECK` does not match the App Check id `APP_CHEcK`; the lookup fails with the missing-status error |

## Left out

- `getTosStatus` and the module-level `Client` (src/gcp/firedata.ts:5, 27-30): they perform an authenticated HTTP GET through the API client, which is not part of this model. The response is an input value instead.
- The message of `FirebaseError` is modelled; its other fields (exit code, cause, stack) are not, because the lookup sets none of them.
- A JSON `status` other than `null` or `"ACCEPTED"` is not modelled: the response type admits only those two, and the model takes it at its word.
- src/commands/frameworks-stacks-list.ts: a command-line wrapper around a network call and console output; it has no lookup logic of its own beyond an empty-location check.
- firebase-vscode/common/messaging/protocol.ts: interface declarations of the webview messaging catalogue only, with no behaviour to verify. The dispatcher and the emulator start/stop lifecycle that catalogue serves are not part of this model.
