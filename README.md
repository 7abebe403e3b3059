# Content-addressed gists: a verified model

This is a Dafny model of a gist sharing application's core. The application stores code snippets ("gists") in a
peer-to-peer graph store. Each gist lives under an address derived from its content:
SHA-256 of the canonical form `{description, files sorted by filename}`, written as lowercase
hex, first 32 characters. A reader subscribed to an address recomputes the address from every
delivery and suppresses content that does not match. A check that throws is only logged, and
the record is still shown (see Findings). A logged-in user's own list is a keyed map
fed by an unordered stream of upserts and null tombstones. After every event the list is shown
newest first. The new-gist form edits a list of file drafts and submits only the drafts whose
name and content are not blank.

The modules follow the program:

- `Canon`: the record types, the canonical form on the read path (`ReadCanonical`) and the write path (`WriteFile`), and the address derivation (`DeriveAddress`).
- `Hex`: the byte-to-hex rendering, `toString(16)` plus `padStart(2, '0')`, then `join` and `slice(0, 32)`.
- `RecordView`: the `useGist` listener.
  - `Normalized` is the `cleanData` step.
  - `Listen` is the verdict as the code computes it.
  - `GistSubscription` is the hook's `gist`/`loading` state, updated by `Deliver`.
- `Publish`: `createGist`.
  - `CreateGist` is the loop that fills `filesMap`.
  - `Publish` is the function it is proved equal to.
- `MyGists`: `useMyGists`.
  - `MyGistsFeed` holds `gistsMap` and `gists`.
  - `OnEvent` is the stream callback.
  - `Apply` and `Replay` are the map's evolution as values.
- `Home`: the `HomePage` component state and its handlers.
- Generic support modules:
  - `Text`: string order and `trim`.
  - `Assoc`: JS objects and `Map` as ordered association lists.
  - `Sorting`: `Array.prototype.sort` as a stable insertion sort.
  - `Seqs`: `map` and `filter`.
  - `Wrappers`: `Option` and `Result`.

The code calls library functions that are not modelled. They are parameters: the fields of
`Canon.Primitives`, which are `JSON.stringify` followed by `TextEncoder`, `crypto.subtle.digest`,
and `JSON.stringify`/`JSON.parse` of a files object. `Primitives.Lawful()` states the two facts
the design relies on:

- a digest is 32 bytes;
- parsing what was stringified gives it back.

`Date.now()` is the parameter `now`. Whether a store handle exists is `gunReady`. The logged-in
user's public key, when there is one, is `session`.

The address keeps 32 hex characters, the first 16 of the digest's 32 bytes
(`Hex.AddressKeepsSixteenBytes`).

## Model

| member | source | states |
|---|---|---|
| Text.LessIrreflexive | src/hooks/use-gist.ts:67 | the filename order used in place of `localeCompare` never puts a name before itself |
| Text.LessTransitive | src/hooks/use-gist.ts:126 | the filename order is transitive |
| Text.LessTotal | src/hooks/use-gist.ts:126 | of two different filenames, one sorts before the other |
| Text.TrimStart | src/pages/home.tsx:34 | the result does not start with white space, and is empty exactly when the input is all white space |
| Text.TrimEnd | src/pages/home.tsx:34 | the result does not end with white space, and is empty exactly when the input is all white space |
| Text.TrimNonEmpty | src/pages/home.tsx:34 | `s.trim() !== ''` holds exactly when s has a character that is not white space |
| Text.HexDigit | src/hooks/use-gist.ts:77 | a digit below 16 is written as a lowercase hex character |
| Text.HexValue | src/hooks/use-gist.ts:77 | reading a hex character back gives a value below 16 |
| Text.HexValueOfDigit | src/hooks/use-gist.ts:77 | reading a written hex digit back gives the digit |
| Hex.ByteHex | src/hooks/use-gist.ts:77 | `b.toString(16).padStart(2, '0')` is always two digits, high nibble then low nibble |
| Hex.HexJoinShape | src/hooks/use-gist.ts:132 | the joined hex of n bytes has 2n characters, all lowercase hex |
| Hex.HexJoinConcat | src/hooks/use-gist.ts:132 | joining the hex of two byte runs is the hex of their concatenation |
| Hex.HexRoundTrip | src/hooks/use-gist.ts:132 | the joined hex of a byte sequence decodes back to it |
| Hex.AddressKeepsSixteenBytes | src/hooks/use-gist.ts:77 | `slice(0, 32)` keeps exactly the hex of the first 16 digest bytes |
| Hex.AddressShape | src/hooks/use-gist.ts:132 | the address of a 32-byte digest has 32 characters, each a lowercase hex digit |
| Hex.AddressDecodes | src/hooks/use-gist.ts:77 | the address decodes to the digest's first 16 bytes |
| Hex.AddressInjective | src/hooks/use-gist.ts:132 | two digests have the same address exactly when their first 16 bytes agree |
| Seqs.MapSeq | src/hooks/use-gist.ts:60-65 | `Array.prototype.map` keeps the length and maps each position |
| Seqs.MapConcat | src/hooks/use-gist.ts:60-65 | mapping distributes over concatenation |
| Seqs.MapPermutation | src/hooks/use-gist.ts:60-65 | mapping permuted inputs gives permuted outputs |
| Seqs.MapAll | src/hooks/use-gist.ts:60-65 | a projection that can throw on an element succeeds exactly when it succeeds on every element, pointwise |
| Seqs.MapAllPermutation | src/hooks/use-gist.ts:60-65 | the throwing projection of permuted inputs succeeds on both or neither, with permuted results |
| Seqs.MapAllPointwise | src/hooks/use-gist.ts:60-65 | inputs with the same projection at every position project the same |
| Seqs.Filter | src/pages/home.tsx:34 | `Array.prototype.filter` keeps only elements that pass, and never grows the list |
| Seqs.FilterMember | src/pages/home.tsx:34 | an element survives the filter exactly when it is in the list and passes |
| Seqs.FilterConcat | src/pages/home.tsx:34 | the filter distributes over concatenation, so it keeps the order |
| Seqs.FilterEmpty | src/pages/home.tsx:34-35 | the filter leaves nothing exactly when no element passes |
| Assoc.Keys | src/hooks/use-gist.ts:115 | every key stored at some position is in the key set |
| Assoc.KeysOnlyStored | src/hooks/use-gist.ts:115 | a key stored at no position is not in the key set |
| Assoc.Get | src/hooks/use-gist.ts:202 | a lookup misses exactly for an absent key, and a hit is a stored pair |
| Assoc.ValuesPermutation | src/hooks/use-gist.ts:60 | `Object.values` of two objects with the same pairs in any order gives the same multiset of values |
| Assoc.Put | src/hooks/use-gist.ts:202 | `Map.set` adds the key, keeps the size for a known key and appends a new key at the end |
| Assoc.PutInPlace | src/hooks/use-gist.ts:202 | setting a known key replaces its value at its own position and changes no other position |
| Assoc.PutPairs | src/hooks/use-gist.ts:115 | every pair after a set is the new pair or one that was there before |
| Assoc.DeleteKeepsOrder | src/hooks/use-gist.ts:206 | `Map.delete` removes exactly the pairs with that key, keeping the others in order |
| Assoc.SetPropertyGet | src/hooks/use-gist.ts:115 | after `obj[k] = v` on a plain object, k reads v unless k is `__proto__`, which adds no own key; every other key reads as before |
| Assoc.SetPropertyUnique | src/hooks/use-gist.ts:115 | property assignment keeps keys unique and never creates an own `__proto__` key |
| Assoc.UniqueCount | src/hooks/use-gist.ts:115 | with unique keys, each pair occurs at most once |
| Assoc.SameLookups | src/hooks/use-gist.ts:115-126 | two objects with unique keys that read the same at every key hold the same pairs, in some order |
| Assoc.Delete | src/hooks/use-gist.ts:206 | `Map.delete` removes the key only, and is a no-op for an absent key |
| Assoc.PutGet | src/hooks/use-gist.ts:202 | after `set(k, v)`, `k` reads `v` and every other key reads as before |
| Assoc.PutUnique | src/hooks/use-gist.ts:202 | `set` keeps keys unique |
| Assoc.DeleteGet | src/hooks/use-gist.ts:206 | after `delete(k)`, `k` is absent and every other key reads as before |
| Assoc.DeleteUnique | src/hooks/use-gist.ts:206 | `delete` keeps keys unique |
| Assoc.GetIffStored | src/hooks/use-gist.ts:202 | with unique keys, a lookup gives v exactly when the pair (k, v) is stored |
| Assoc.PutPut | src/hooks/use-gist.ts:115 | of two assignments to a key the last one wins |
| Assoc.DeletePut | src/hooks/use-gist.ts:202-206 | deleting a key just set is the same as deleting it from the map before the set |
| Sorting.Insert | src/hooks/use-gist.ts:67 | inserting adds exactly the element to the multiset |
| Sorting.Sort | src/hooks/use-gist.ts:67 | `sort` permutes its input |
| Sorting.InsertSorted | src/hooks/use-gist.ts:67 | inserting into a sorted sequence keeps it sorted |
| Sorting.SortSorted | src/hooks/use-gist.ts:67 | `sort` under a strict order yields a sorted sequence |
| Sorting.SortedUnique | src/hooks/use-gist.ts:126 | two sorted permutations of a sequence whose distinct elements are all ordered are equal |
| Sorting.SameHead | src/hooks/use-gist.ts:126 | two sorted arrangements of the same elements begin with the same element |
| Sorting.SortForgetsOrder | src/hooks/use-gist.ts:126 | under such an order, sorting does not depend on the input order |
| Canon.FileBeforeIsStrictOrder | src/hooks/use-gist.ts:67 | the filename comparator is a strict order |
| Canon.SortByFilenameCanonical | src/hooks/use-gist.ts:60-67 | files with distinct names come out sorted by filename, independent of their input order |
| Canon.DeriveAddressShape | src/hooks/use-gist.ts:74-77 | a derived address is 32 lowercase hex digits |
| Canon.DeriveAddressSeparates | src/hooks/use-gist.ts:129-132 | two canonical forms get the same address exactly when their digests agree on the first 16 bytes |
| Canon.ReadCanonicalOrderFree | src/hooks/use-gist.ts:60-72 | the read-path canonical form, and so the address, does not depend on the order of the delivered files when their names are distinct |
| Canon.ReadFilesDistinct | src/hooks/use-gist.ts:60-65 | projecting files with distinct names gives files with distinct names |
| Canon.ReadDefaultsImplicit | src/hooks/use-gist.ts:63-64 | an undefined language reads as `'text'`, an undefined size as 0, and an undefined or empty description as `''` |
| RecordView.Normalized | src/hooks/use-gist.ts:41-54 | `_` is dropped and every other field kept; an unparsable, null or undefined `files` becomes `{}`; a null `files` survives only from a string that parses to null |
| RecordView.Listen | src/hooks/use-gist.ts:38-95 | a null delivery shows nothing; content that derives the address is published; a different address suppresses the record; a check that throws still publishes the cleaned record |
| RecordView.StrictPublishesOnlyVerified | src/hooks/use-gist.ts:79-90 | with the evidently intended handling of exceptions, a record is shown exactly when it is the cleaned delivery and derives the address |
| RecordView.NullEntryBypassesCheck | src/hooks/use-gist.ts:60-61 | as written, a files object holding a null entry is published under any address |
| RecordView.NullFilesBypassesCheck | src/hooks/use-gist.ts:47-60 | as written, a files string that parses to null is published under any address |
| RecordView.GistSubscription.constructor | src/hooks/use-gist.ts:22-31 | the hook starts with no gist; loading stays on only when the listener is registered |
| RecordView.GistSubscription.Deliver | src/hooks/use-gist.ts:38-95 | every delivery sets `gist` to the listener's verdict and ends with loading false |
| Publish.CreateGist | src/hooks/use-gist.ts:110-169 | the `forEach` loop, whose property assignments drop a file named `__proto__`, and the rest of `createGist` compute exactly `Publish`: the failure without a store, the failure of the digest, and the record and list entry otherwise |
| Publish.FilesMapLastWins | src/hooks/use-gist.ts:113-121 | `filesMap` has unique keys and no own `__proto__` key, and every other filename maps to the last input file of that name, written with its defaults |
| Publish.LastNamedSpec | src/hooks/use-gist.ts:114-115 | there is a last file of a name exactly when some file has that name, and it is one of the input files with that name |
| Publish.FilesMapDistinct | src/hooks/use-gist.ts:113-121 | when input filenames are distinct, the values of `filesMap` in insertion order are the written files in input order, without one named `__proto__` |
| Publish.FilesMapValuesDistinct | src/hooks/use-gist.ts:113-126 | each key of `filesMap` is the filename of its file, so `Object.values(filesMap)` has distinct filenames |
| Publish.WriteCanonicalAnyPropertyOrder | src/hooks/use-gist.ts:124-127 | in whatever order `Object.values` lists the properties of `filesMap`, the sorted canonical form is the same |
| Publish.WriteCanonicalLastPerName | src/hooks/use-gist.ts:113-127 | two file lists whose last file under every name agree give the same canonical form, and so the same address |
| Publish.FilesMapAppend | src/hooks/use-gist.ts:114-121 | one more file with a new name appends its written form to the values of `filesMap`, and one named `__proto__` changes nothing |
| Publish.AbsentName | src/hooks/use-gist.ts:113-121 | a name no input file has is not a key of `filesMap` |
| Publish.WriteOrderFree | src/hooks/use-gist.ts:124-127 | the write-path canonical form does not depend on the order of files with distinct names |
| Publish.PublishedAddressShape | src/hooks/use-gist.ts:129-132 | `createGist` returns a 32-character lowercase hex id |
| Publish.PublishedRecordVerifies | src/hooks/use-gist.ts:118-139 | the record `createGist` writes, delivered back under its id, is verified and published by both listeners |
| Publish.JsonFilesReadBack | src/hooks/use-gist.ts:60-65 | reading back the stored files gives the written files |
| MyGists.Preview | src/hooks/use-gist.ts:196-198 | the preview is one entry for a non-empty filename and `{}` otherwise |
| MyGists.EntryOf | src/hooks/use-gist.ts:191-200 | `id` falls back to the stream key, `updatedAt` is copied or falls back to `createdAt`, `description` and `createdAt` are copied, the owner is the logged-in user, and files is the preview |
| MyGists.ViewIsNewestFirst | src/hooks/use-gist.ts:203 | the view is a permutation of the map's values, sorted by `createdAt` descending |
| MyGists.ApplyGet | src/hooks/use-gist.ts:190-207 | an event stores or removes its own key and leaves every other key as it was |
| MyGists.ApplyUnique | src/hooks/use-gist.ts:202-206 | events keep keys unique |
| MyGists.ApplyIdempotent | src/hooks/use-gist.ts:202-206 | applying the same event twice equals applying it once |
| MyGists.TombstoneUnknownKey | src/hooks/use-gist.ts:204-206 | a tombstone for an unknown key is a no-op |
| MyGists.UpsertThenTombstone | src/hooks/use-gist.ts:202-206 | an upsert followed by a tombstone of its key leaves the key out |
| MyGists.LastWriteWins | src/hooks/use-gist.ts:202 | a later upsert of a key erases any trace of an earlier one |
| MyGists.NewestFirstExample | src/hooks/use-gist.ts:203 | two upserts at times 100 and 200 are shown with the later one first |
| MyGists.PublishedEntryShown | src/hooks/use-gist.ts:150-165 | the list entry `createGist` writes shows the id, description, time and first filename |
| MyGists.MyGistsFeed.constructor | src/hooks/use-gist.ts:176-186 | the list starts empty; loading stays on only when the stream is attached |
| MyGists.MyGistsFeed.OnEvent | src/hooks/use-gist.ts:189-210 | each event updates the map by upsert or tombstone; the shown list stays the map's values, newest first; loading ends |
| Home.ValidFiles | src/pages/home.tsx:34 | the filter keeps only drafts with a non-blank name and non-blank content |
| Home.ValidFilesMember | src/pages/home.tsx:34 | a draft is submitted exactly when it is in the form and passes the check |
| Home.ValidFilesConcat | src/pages/home.tsx:34 | the filter keeps form order |
| Home.ValidFilesEmpty | src/pages/home.tsx:35 | nothing is submitted exactly when no draft passes |
| Home.KeepOthersDrops | src/pages/home.tsx:28 | `filter((_, i) => i !== index)` drops the draft at `index` if there is one, keeping the others in order |
| Home.SubmitPublishesValidDrafts | src/pages/home.tsx:40-43 | a successful submit navigates to `/` and the 32-digit address of exactly the valid drafts |
| Home.BlankRowsIgnored | src/pages/home.tsx:16-18 | an added blank row never changes what is submitted |
| Home.FreshFormNeedsFile | src/pages/home.tsx:12-14 | the form as first shown cannot be submitted |
| Home.HomePage.constructor | src/pages/home.tsx:10-14 | the form starts with one blank `javascript` draft and an empty description |
| Home.HomePage.AddFile | src/pages/home.tsx:16-18 | appends exactly one blank draft and keeps the others |
| Home.HomePage.FileChange | src/pages/home.tsx:20-24 | replaces only the draft at the index, keeping the length |
| Home.HomePage.RemoveFile | src/pages/home.tsx:26-30 | the only draft is never removed; otherwise exactly the draft at the index goes, and the form is never empty |
| Home.HomePage.SetDescription | src/pages/home.tsx:60 | typing into the description field replaces the description only |
| Home.HomePage.Submit | src/pages/home.tsx:32-50 | with no valid draft, nothing is created; otherwise `createGist` gets exactly the valid drafts and the description, and its id becomes the path |

## Left out

- The identity provider, persisted credentials and relay peers are not part of this model. `session` stands for the user's public key.
- The graph store's `get`, `put`, `on`, `off` and `map` are not modelled. Deliveries and stream events are method arguments, and writes are the values `Publish` returns.
- Subscription setup and teardown, and the asynchronous listener racing `off`, are left out because they concern concurrency. The model also has no guard that discards a delivery after unsubscribing, since the code has none.
- SHA-256, UTF-8 encoding, JSON escaping and `JSON.parse` are abstract functions (`Canon.Primitives`). Collision resistance cannot be stated about them, so no lemma claims that different content gets a different address.
- `Text.Less`: `localeCompare` is replaced by the lexicographic order on characters, because the real order depends on the user's locale.
- `Assoc.Put`: a `Map` such as `gistsMap` keeps insertion order, as the model does. Plain objects such as `filesMap` (use-gist.ts:113) and the parsed `files` field (use-gist.ts:47) list integer-like keys first, in numeric order. The model keeps insertion order for them too. So `Publish.FilesMapDistinct` gives the order of `Object.values(filesMap)` only when no filename is integer-like. On the write path this order does not change the canonical form or the address (`Publish.WriteCanonicalAnyPropertyOrder`). On the read path the delivered files are taken in the order the `decodeFiles` parameter yields. So for a delivery with repeated filenames, the order of ties in the filename sort is only as exact as that parameter.
- `Date.now()` is the parameter `now`.
- `alert`, `navigate`, `console` logging and `isSubmitting` are left out. Submitting produces a `Home.SubmitOutcome` instead, and `isSubmitting` is false again after every submit.
- Deliveries whose fields have unexpected types are not modelled. Examples are a non-string filename, content or description, a number stored as text, or an array `files`. Fields are modelled as present-or-undefined. `null` is modelled only for a delivery, its `files` field and a file entry.
- `MyGists.EntryOf`: `description` and `createdAt` of a list entry are taken as present. The code copies `undefined` when they are absent.
- `Home.HomePage.FileChange` requires an index in range, because every caller passes the index of a rendered row. The JS array would grow when given anything else.
- In `user.get('gists')`, a logged-in user is taken to have a public key, so the two checks `user.is` and `user.is.pub` are merged into `session`.

## Findings

| source | as written | input that shows it | evidently intended | confidence | as-written member | corrected member |
|---|---|---|---|---|---|---|
| src/hooks/use-gist.ts:59-90 | an exception inside the integrity check is logged and the cleaned record is still published, with no check at all | a delivery whose `files` object holds a `null` entry (`f.filename` throws), or whose `files` string is `"null"` (`Object.values(null)` throws), under any address | content that cannot be checked is suppressed like content that fails the check | medium, not executed | RecordView.NullEntryBypassesCheck | RecordView.StrictPublishesOnlyVerified |
