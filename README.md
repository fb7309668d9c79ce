# IAS manager: a Dafny model of ad rotation

This project models the core of `IAS_Manager.cs`, the in-app-advert (IAS) manager of a Unity
plugin, and proves properties of that model.

## What the manager does

- It keeps a catalog of adverts. The catalog has one *file* per manifest URL. A file holds
  *slots*, each with a slot number. A slot holds *ads*, each with a slot letter, and each slot
  has a *cursor* (`lastSlotId`).
- It merges the downloaded JSON manifests into that catalog.
- It rotates each slot's cursor to pick the next ad to show.
- It downloads the chosen ad's texture, from a device cache file or from the image URL.
- It stores the catalog across sessions in a player preference.

## Modules

- `Results`: Option and Result.
- `Catalog`: the data classes (`AdJsonFileData`, `AdSlotData`, `AdData`) as datatypes.
  - The first-match lookups: `GetSlotIndex`, `GetAdSlotData`, `GetAdIndex`, `GetAdData`,
    `GetSlotChar`.
  - The well-formedness invariant: slot numbers unique in a file, slot letters unique within
    a slot and in `a..z`, and the cursor on an ad.
- `Text`: the .NET string operations the manager uses.
  - `Trim`, `ToLowerInvariant` on ASCII, `Contains`, and `Split` with `RemoveEmptyEntries`.
  - The regex filters used on slot ids.
- `Manifest`: what one manifest record does to a file.
  - Parsing the slot id; extracting the package name from the ad URL on Android, iOS and
    other platforms; the installed-app test.
  - The installed-package list cleaning.
  - The record merge (`DownloadIASData`'s inner loop) and the record loop with its
    early stop at a bad slot id.
- `Rotation`:
  - `IncSlotChar`: the walk of at most two laps, which skips self ads and inactive ads, and
    also skips installed apps on the first lap.
  - `RefreshActiveAdSlots` for one file and for all files.
  - `RandomizeAdSlots`, with `Random.Range` and its exclusive upper bound.
- `ImageCache`: `DownloadAdTexture` as a function of the ad, the texture count and what the
  device and network answer.
- `Session`: `SaveIASData` and `LoadIASData`; the stored blob is opaque.
- `Sync`: the manifest loop of `DownloadIASData`.
- `Manager`: the class `IasManager`.
  - Fields: `advertData`, `advertTextures`, `installedApps` and the stored preference.
  - Methods with loops, proved against the functions above: `UpdateInstalledPackages`,
    `IncSlotChar`, `RandomizeAdSlots`, both `RefreshActiveAdSlots`, `DownloadIASData`,
    `DownloadAdTexture`, `LoadIASData`, `SaveIASData`, `Start`.
  - Read-only functions: `IsAdReady`, `GetAdURL`, `GetAdPackageName`.
  - The invariant `Valid()` holds across every method:
    - the catalog is well formed, in memory and stored;
    - every ready ad's `adTextureId` indexes `advertTextures`.

## How behaviours of the code are modelled

- **Integers and characters.**
  - Cursor arithmetic is 32-bit (`Wrap32`).
  - A slot letter is a UTF-16 code unit (`char16`), computed as `(char)(lastSlotId + 97)`.
- **References to ads.** The source keeps a reference to an `AdData` object. The model
  replaces it with a path `AdRef(file, slot position, ad position)`. The merges only ever
  append, so such a path stays valid.
- **Exceptions.** They are modelled as `Fault` values.
  - A null dereference is modelled:
    - `IncSlotChar` on a missing slot dereferences null.
    - A cursor letter with no ad makes `GetAdData` return null, and `curAdData.isSelf`
      then dereferences it. The cursor has already moved when this happens.
  - An argument out of range is modelled: `DoesSlotFileIdExist(-1)` holds, and the list
    access `advertData[-1]` that follows throws `ArgumentOutOfRangeException`. So does a
    manifest record for a file index past the one file `DownloadIASData` appends.
  - A decoding failure is modelled.
- **The record loop.** Its `yield break` on a bad slot id ends the whole coroutine. So
  `SaveIASData` is skipped.
- **Cached data.** No ad is downloaded ahead of time. When no cached data was loaded, every
  manifest's slots are refreshed.
- **iOS package names.** On iOS the package name is the text after the *first* `#`. The
  lookbehind `(?<=.*#)` matches at the earliest position that is preceded by some `#`.
- **`RandomizeAdSlots` never chooses the last ad position.** It draws
  `Random.Range(0, Count - 1)`, whose upper bound is exclusive. The next rotation step then
  never shows the ad at position 0 first. The model states this rather than treating it as a
  bug, because the intent is not evident from the code.

## Model

| member | source | states |
|---|---|---|
| Catalog.Wrap32 | IAS_Manager.cs:472 | gives the 32-bit value congruent to the integer modulo 2^32, as C# unchecked `int` arithmetic does, and keeps values already in range |
| Catalog.SlotLetter | IAS_Manager.cs:489-498 | the cursor `c` selects the code unit `c + 97`, so cursors 0..25 are the letters 'a'..'z' |
| Catalog.SlotIndex | IAS_Manager.cs:392-407 | -1 exactly when no slot has the number; otherwise the first position holding it |
| Catalog.AdIndex | IAS_Manager.cs:409-424 | -1 exactly when no ad has the letter; otherwise the first position holding it |
| Catalog.FirstMatchUnique | IAS_Manager.cs:392-424 | any position that is a first match is the one the lookups return |
| Catalog.GetSlotIndex | IAS_Manager.cs:377-407 | corrected lookup: a position in an existing file that is the first slot with the number, and -1 exactly when the file or the slot is missing |
| Catalog.NegativeFileIdThrows | IAS_Manager.cs:377-407 | file id -1 passes the source's existence test, and the source's lookup `advertData[-1]` then throws an argument-out-of-range fault; the corrected lookup answers -1 |
| Catalog.GetSlotIndexAgrees | IAS_Manager.cs:377-407 | the source's lookup fails exactly on negative file ids and otherwise agrees with the corrected one |
| Catalog.GetAdSlotData | IAS_Manager.cs:426-439 | null exactly when there is no such slot; otherwise the first slot with the number |
| Catalog.GetAdIndex | IAS_Manager.cs:409-424 | throws (null slot) exactly when the slot is missing; otherwise the first ad with the letter, or -1 when none has it |
| Catalog.GetAdData | IAS_Manager.cs:441-460 | an ad exactly when the slot exists and has an ad with the letter, and then it is that ad |
| Catalog.GetSlotChar | IAS_Manager.cs:489-498 | the letter of the slot's cursor, or `default(char)` when the slot is missing |
| Catalog.CurrentAdIsShown | IAS_Manager.cs:441-498 | the slot's current ad exists exactly when some slot and ad position show it, and it is the ad there |
| Catalog.AtMost26Ads | IAS_Manager.cs:583-604 | letters are unique and in a..z, so a slot holds at most 26 ads and `adSlotCount*2` cannot overflow |
| Catalog.SameKeysLookups | IAS_Manager.cs:392-460 | all lookups depend only on slot numbers and letters, not on cursors or ad fields |
| Catalog.SetCursor | IAS_Manager.cs:472 | writing one slot's cursor changes that cursor and nothing else in the catalog |
| Catalog.SetAd | IAS_Manager.cs:691-734 | writing through an ad reference puts the new ad at that reference and leaves every other ad, every other file, every slot number and cursor and the set of valid references as they were; the lookup keys stay when the ad keeps its letter |
| ImageCache.TextureStep | IAS_Manager.cs:661-739 | a run appends at most one texture, changes only the ad's texture fields, and an ad that becomes ready indexes the appended texture |
| ImageCache.NothingToDo | IAS_Manager.cs:665-738 | an ad with a current texture, a self ad or an inactive ad is left alone, and the listeners are notified |
| ImageCache.NotifiedMeansReady | IAS_Manager.cs:675-734 | a run that does work and reaches the notification leaves the ad ready and cached, at the appended index, with `lastUpdated` set to `newUpdateTime`; the texture appended is the cache file's when one was written, else the downloaded image |
| ImageCache.ReadyIsStable | IAS_Manager.cs:665-734 | after a successful run, a further run does nothing until the timestamp changes |
| ImageCache.MissingCacheFileRecovers | IAS_Manager.cs:675-722 | a lost cache file is forgotten without notifying; the next run downloads the image and makes the ad ready |
| ImageCache.FailedFetchChangesNothing | IAS_Manager.cs:707-716 | a failed image request changes nothing and notifies nobody |
| ImageCache.FailedWriteLeavesAd | IAS_Manager.cs:718-726 | a failed cache write appends the texture, rethrows, and leaves the ad unchanged |
| ImageCache.StepKeepsIndex | IAS_Manager.cs:718-732 | a ready ad's texture index stays inside the grown texture list |
| ImageCache.StepKeepsCatalog | IAS_Manager.cs:661-739 | writing the run's ad back keeps the catalog well formed, with every ready ad indexing a texture, so the later texture lookup stays in range |
| Session.ResetVolatile | IAS_Manager.cs:349-360 | same slots and letters and the same cursors; every ad is its old self with texture id -1 and not ready |
| Session.Load | IAS_Manager.cs:313-366 | nothing stored keeps the current catalog and reports no cache; a stored catalog loads, reset, and reports a cache; a stored null list throws a null dereference and a malformed string a format fault |
| Session.ResetIdempotent | IAS_Manager.cs:349-360 | resetting twice equals resetting once |
| Session.ResetClearsTextures | IAS_Manager.cs:349-360 | after the reset no ad is ready, so an empty texture list covers every ad |
| Session.ResetKeepsWellFormed | IAS_Manager.cs:349-360 | the reset keeps the catalog well formed |
| Session.SameChoicesSelectFrom | IAS_Manager.cs:471-483 | the rotation walk depends only on letters and the self, active and installed flags |
| Session.ResetKeepsRotation | IAS_Manager.cs:349-360 | after the reset, IncSlotChar picks the same ad, leaves the same cursor and faults alike |
| Manifest.ParseSlotInt | IAS_Manager.cs:577-580 | fails exactly when the id has no digits or the digits' decimal value exceeds `int.MaxValue`; otherwise gives that value |
| Manifest.SlotIntOfDigits | IAS_Manager.cs:577-580 | an id whose digits spell `n`, after any leading zeros and wherever they sit in the id, parses as `n` when `n` fits an `int` and fails otherwise |
| Manifest.ParseSlotChar | IAS_Manager.cs:583-586 | succeeds exactly when the id has one letter a..z, and gives that letter |
| Manifest.ParseSlotId | IAS_Manager.cs:577-586 | the number is checked first; an id bad in both ways reports the number |
| Manifest.SlotIdRoundTrip | IAS_Manager.cs:577-586 | an id written as a number in range followed by one letter reads back as that number and letter |
| Manifest.SlotIdNeedsOneLetter | IAS_Manager.cs:583-586 | ids with two letters or with none are rejected |
| Manifest.ExtractPackageName | IAS_Manager.cs:616-627 | on Android the text after the first `id=`, up to `&`, `?` or a line end; on iOS after the first `#`, up to a line end; elsewhere the whole URL; "" without a match |
| Manifest.AndroidPackageOfStoreUrl | IAS_Manager.cs:619 | a store link `…id=<package>[&…]` gives back the package |
| Manifest.IOSPackageOfUrl | IAS_Manager.cs:622 | a link `…#<name>` gives back the name |
| Manifest.IsPackageInstalled | IAS_Manager.cs:368-375 | true exactly when some installed entry occurs in the lower-cased name |
| Manifest.InstalledIgnoresCase | IAS_Manager.cs:368-375 | the answer is the same for a name and its lower-case form |
| Manifest.EmptyEntryMatchesAll | IAS_Manager.cs:368-375 | an empty installed entry marks every package installed |
| Manifest.CleanEntries | IAS_Manager.cs:209-211 | every entry trimmed and lower-cased, in order, one per piece |
| Manifest.CleanNonBlankEntries | IAS_Manager.cs:209-211 | the cleaned pieces without the blank ones: never more entries than pieces |
| Manifest.NonBlankSource | IAS_Manager.cs:209-211 | each kept entry is a non-blank piece of the input |
| Manifest.NonBlankSourceOrdered | IAS_Manager.cs:209-211 | the kept entries come from their pieces in order: a later entry from a later piece |
| Manifest.CleanPackageListAsWritten | IAS_Manager.cs:194-211 | the list cleaning as written: an empty list gives no entries, and it throws (`Remove(-1)`) exactly on a non-empty list of only white space |
| Manifest.BlankEntryAsWritten | IAS_Manager.cs:194-211 | the list "a, ," yields an entry "", and then every app counts as installed |
| Manifest.BlankEntryCorrected | IAS_Manager.cs:194-211 | with blank pieces left out, the same list yields only "a" |
| Manifest.CleanPackageList | IAS_Manager.cs:194-211 | the corrected list cleaning: an empty list gives no entries, and it throws exactly where the source does, on a non-empty list of only white space |
| Manifest.CleanPackageListEntries | IAS_Manager.cs:194-211 | every cleaned entry is non-empty and lower-case, with no white space at either end, and contains no comma |
| Manifest.PackageListRoundTrip | IAS_Manager.cs:194-211 | a device list `p1,p2,…,` of clean names reads back as exactly those names |
| Manifest.Refreshed | IAS_Manager.cs:629-643 | the ad takes the record's URLs, active flag and timestamp, and its package name with the self and installed flags that follow from it, and the file name slot id plus image extension; its cache state is unchanged |
| Manifest.RefreshedIdempotent | IAS_Manager.cs:631-643 | writing the same record twice equals writing it once |
| Manifest.UpsertSlot | IAS_Manager.cs:589-590 | an existing slot number leaves the slots unchanged; a missing one is appended; afterwards the number exists |
| Manifest.UpsertAd | IAS_Manager.cs:601-604 | the same, for a letter within a slot |
| Manifest.MergeRecord | IAS_Manager.cs:569-647 | fails exactly on a bad slot id, with that id's error |
| Manifest.FindAd | IAS_Manager.cs:446-460 | none exactly when the slot number or the letter is missing; otherwise the first ad with the letter in the first slot with the number |
| Manifest.FindAdIsGetAdData | IAS_Manager.cs:446-460 | the lookup on one file is the manager's `GetAdData` on that file |
| Manifest.MergeRecordOwnKey | IAS_Manager.cs:589-643 | afterwards the record's ad exists and is the earlier ad (or a new one) refreshed; an ad was added exactly when none existed; a reload is asked for exactly when the old timestamp was older or 0 |
| Manifest.MergeRecordOtherKeys | IAS_Manager.cs:589-643 | the ad of every other slot number or letter is unchanged |
| Manifest.MergeRecordIdempotent | IAS_Manager.cs:569-647 | merging the same record again adds nothing and changes nothing, and asks for a reload only if the record is stamped 0 |
| Manifest.MergeRecordExtends | IAS_Manager.cs:589-604 | slots and ads are only appended, never removed or moved, and no existing slot's cursor changes |
| Manifest.MergeRecordKeepsWellFormed | IAS_Manager.cs:589-643 | a record keeps the file well formed |
| Manifest.MergeRecords | IAS_Manager.cs:565-647 | the reload and randomize flags, once set, stay set |
| Manifest.MergeRecordsFlags | IAS_Manager.cs:565-650 | a completed record loop asks for a reload exactly when it started with one (no cached data) or some record, merged after those before it, found an older or zero timestamp; and for a re-randomization exactly when some record created an ad |
| Manifest.MergeRecordsKeepsWellFormed | IAS_Manager.cs:569-647 | the record loop keeps the file well formed, wherever it stops |
| Manifest.MergeRecordsExtends | IAS_Manager.cs:569-647 | the record loop never removes or moves an ad and never moves an existing slot's cursor, wherever it stops |
| Manifest.MergeRecordKeepsRecords | IAS_Manager.cs:589-643 | after a record, its own ad and every ad that existed are present |
| Manifest.MergeRecordsAllPresent | IAS_Manager.cs:569-647 | a completed loop holds an ad for every record and keeps every earlier one |
| Manifest.KnownRecordsDoNotRandomize | IAS_Manager.cs:601-650 | a manifest whose ids all exist completes and asks for no re-randomization |
| Manifest.FirstBadId | IAS_Manager.cs:577-586 | the position of the first record with a bad id, with all ids before it good |
| Manifest.MergeRecordsAbortsAtFirstBadId | IAS_Manager.cs:577-610 | the loop stops exactly when some id is bad, at the first one, with that id's error and the file as the records before it made it |
| Rotation.NextCursor | IAS_Manager.cs:472 | for a cursor on an ad, the next position, back to 0 after the last |
| Rotation.SelectFrom | IAS_Manager.cs:471-483 | an accepted step is the first ad with the cursor letter and may be shown at that step; a missing ad has no ad with that letter; past 2n steps nothing changes |
| Rotation.SelectCursorInRange | IAS_Manager.cs:471-472 | the cursor stays on an ad position |
| Rotation.RotLap | IAS_Manager.cs:472 | n steps on a slot of n ads come back to the start |
| Rotation.ExhaustedKeepsCursor | IAS_Manager.cs:471-483 | a walk that finds nothing leaves the cursor where it started |
| Rotation.SelectReaches | IAS_Manager.cs:471-483 | an ad that may be shown at the step the walk reaches it is accepted by then, or an earlier one is |
| Rotation.SelectNeverMissing | IAS_Manager.cs:474-477 | with every letter up to the slot's size present, the walk never dereferences null |
| Rotation.SelectFindsShowable | IAS_Manager.cs:471-486 | the walk accepts exactly when some ad is neither self nor inactive |
| Rotation.SelectPrefersUninstalled | IAS_Manager.cs:478-481 | if some shown-eligible ad is for an app not installed, the walk accepts in its first lap an ad that is not installed |
| Rotation.SelectOnLetteredSlot | IAS_Manager.cs:471-486 | on a slot lettered a, b, … in order: accepts exactly when some ad may be shown; the accepted ad may be shown and is uninstalled whenever an uninstalled one may be; a failed walk keeps the cursor |
| Rotation.IncSlot | IAS_Manager.cs:462-487 | only cursors change; a missing slot throws before anything changes |
| Rotation.IncSlotWalk | IAS_Manager.cs:462-487 | on an existing slot, the cursor is left where the walk stopped, and the result is the accepted ad, none, or a null dereference |
| Rotation.IncSlotStartsCurrentAd | IAS_Manager.cs:462-487 | the ad whose download starts is a showable ad of the asked slot, and it is the slot's current ad afterwards |
| Rotation.IncSlotKeepsWellFormed | IAS_Manager.cs:472 | the catalog stays well formed; the cursor stays on an ad |
| Rotation.IncSlotOnLetteredSlot | IAS_Manager.cs:462-487 | on a fully lettered slot: no exception, a download exactly when some ad may be shown, and no change otherwise |
| Rotation.SlotRunEnd | IAS_Manager.cs:263-285 | the loops `for (i = 1; DoesSlotIntExist(f, i); i++)` visit exactly 1 .. end - 1 |
| Rotation.RefreshFrom | IAS_Manager.cs:271-275 | only cursors change, and every started download is in the refreshed file |
| Rotation.RefreshFromKeepsWellFormed | IAS_Manager.cs:271-275 | a refresh keeps the catalog well formed |
| Rotation.RefreshFromStartsShowable | IAS_Manager.cs:271-275 | every started download is for a valid, showable ad of the final catalog |
| Rotation.RefreshFromNoFault | IAS_Manager.cs:271-275 | on well-formed, fully lettered slots, the refresh runs to the end without an exception |
| Rotation.RefreshFileFacts | IAS_Manager.cs:271-275 | `RefreshActiveAdSlots(f)` starts only showable downloads, keeps the catalog well formed, and does not throw on a lettered file |
| Rotation.RefreshFilesFrom | IAS_Manager.cs:263-269 | refreshing all files changes only cursors |
| Rotation.RefreshFilesFromFacts | IAS_Manager.cs:263-269 | refreshing all files starts only showable downloads and keeps the catalog well formed |
| Rotation.RandomRange | IAS_Manager.cs:283 | the draw lies in [min, max), or is min when the bounds are equal |
| Rotation.RandomCursor | IAS_Manager.cs:283 | for two or more ads the cursor is below the last position, and the next ad looked at is never position 0 |
| Rotation.Randomized | IAS_Manager.cs:277-285 | the first slot with each visited number gets a fresh random cursor, and every other slot is unchanged |
| Rotation.RandomizeLoopStep | IAS_Manager.cs:279-284 | one loop pass visits the next slot number, found at its original position |
| Rotation.RandomizeFileFacts | IAS_Manager.cs:277-285 | only cursors change; the catalog stays well formed; each visited slot of two or more ads has its cursor below the last position |
| Sync.EnsureFile | IAS_Manager.cs:562-563 | an existing file is kept; a missing one is appended empty |
| Sync.SyncFile | IAS_Manager.cs:509-653 | a pass stops at a failed request exactly when the request failed, with nothing changed; the catalog never shrinks; for a file index past the end it appends one empty file, completes when the manifest has no records, and otherwise stops at the first record, which throws when its id parses |
| Sync.Merged | IAS_Manager.cs:562-647 | after the merge the manifest's file exists |
| Sync.SyncFileMovesCursors | IAS_Manager.cs:649-653 | after the merge, randomizing and refreshing move cursors only |
| Sync.SyncFileLeavesOtherFiles | IAS_Manager.cs:509-653 | a pass touches no other file |
| Sync.SyncFileKeepsWellFormed | IAS_Manager.cs:509-653 | a pass keeps the catalog well formed |
| Sync.MergeRecordKeepsTextures | IAS_Manager.cs:589-643 | a merged record keeps every ready ad indexing a texture |
| Sync.SyncFileKeepsTextures | IAS_Manager.cs:509-653 | a pass keeps every ready ad indexing one of the loaded textures |
| Sync.SyncFilePreserves | IAS_Manager.cs:509-653 | both invariants hold also for a file index past the end |
| Sync.SyncFileExtends | IAS_Manager.cs:509-653 | a pass adds at most one file and removes no ad; a completed pass holds an ad for every record |
| Sync.SyncFileStarts | IAS_Manager.cs:509-653 | started downloads are showable and in the pass's file; the only exception is a null dereference |
| Sync.RefreshFaultIsNull | IAS_Manager.cs:462-487 | a refresh only ever throws a null dereference |
| Sync.SyncAllKeeps | IAS_Manager.cs:500-659 | the whole download keeps the catalog well formed and every ready ad indexing a loaded texture |
| Sync.SyncAllExtends | IAS_Manager.cs:500-659 | the whole download only appends: ads are never removed |
| Sync.SyncAllStartsShowable | IAS_Manager.cs:500-659 | every texture download it starts is for a showable ad of a fetched file |
| Sync.SyncAllStops | IAS_Manager.cs:500-659 | an early stop names a manifest and why: its request failed, it had a bad slot id, or a refresh dereferenced null |
| Sync.SyncAllDone | IAS_Manager.cs:500-659 | a completed download has a file per manifest, with an ad for each record, and no request failed |
| Manager.IasManager.constructor | IAS_Manager.cs:184-187 | the lists start empty, with the previous session's preference stored |
| Manager.IasManager.UpdateInstalledPackages | IAS_Manager.cs:190-220 | the installed list becomes the cleaned package list; a blank list throws after clearing it |
| Manager.IasManager.SaveIASData | IAS_Manager.cs:331-339 | the preference holds the current catalog, and nothing else changes |
| Manager.IasManager.LoadIASData | IAS_Manager.cs:341-366 | the catalog and the result are what `Session.Load` gives |
| Manager.IasManager.IsAdReady | IAS_Manager.cs:802-811 | true exactly when the slot's current ad has its texture |
| Manager.IasManager.GetAdURL | IAS_Manager.cs:819-828 | the current ad's URL, or "" when the slot shows none |
| Manager.IasManager.GetAdPackageName | IAS_Manager.cs:836-845 | the current ad's package name, or "" |
| Manager.IasManager.ReadyAdHasTexture | IAS_Manager.cs:853-862 | a ready ad's texture index is inside the texture list |
| Manager.IasManager.IncSlotChar | IAS_Manager.cs:462-487 | the catalog and the started download are those of `Rotation.IncSlot`, and the invariant is kept |
| Manager.IasManager.WalkSlot | IAS_Manager.cs:469-483 | the loop's outcome is `Rotation.Select` of the slot, with the cursor left where it stopped |
| Manager.IasManager.AdvanceCursor | IAS_Manager.cs:472 | the cursor moves to `NextCursor` |
| Manager.IasManager.RandomizeAdSlots | IAS_Manager.cs:277-285 | the catalog becomes `Rotation.RandomizeFile` of the old one |
| Manager.IasManager.RefreshActiveAdSlotsIn | IAS_Manager.cs:271-275 | the final catalog, downloads and exception are `Rotation.RefreshFile` of the old catalog |
| Manager.IasManager.RefreshActiveAdSlots | IAS_Manager.cs:263-269 | the final catalog, downloads and exception are `Rotation.RefreshAll` of the old catalog |
| Manager.IasManager.MergeRecordsInto | IAS_Manager.cs:565-647 | the file becomes the `Manifest.MergeRecords` result, in place |
| Manager.IasManager.MergeManifest | IAS_Manager.cs:509-653 | one manifest's pass equals `Sync.SyncFile` |
| Manager.IasManager.DownloadIASData | IAS_Manager.cs:500-659 | the result equals `Sync.SyncAll`; the catalog is saved exactly when every manifest completed |
| Manager.IasManager.DownloadAdTexture | IAS_Manager.cs:661-739 | the ad and the texture list change as `ImageCache.TextureStep` says, and the invariant is kept |
| Manager.IasManager.Start | IAS_Manager.cs:246-261 | the state and downloads are those of `Manager.StartUp` |
| Manager.StartUp | IAS_Manager.cs:246-261 | downloads start only when cached data was loaded; cached data is loaded exactly when the package list did not throw and a catalog was stored; the installed list changes only on Android |
| Manager.StartWithoutCache | IAS_Manager.cs:246-261 | without a stored catalog, Start changes no catalog, starts nothing and throws nothing |
| Manager.StartDownloadsShowable | IAS_Manager.cs:246-261 | every download Start begins is for a showable ad of the catalog that does not have its texture yet |
| Manager.NoTextureNoneReady | IAS_Manager.cs:349-360 | with no textures, no ad is ready |
| Text.Contains | IAS_Manager.cs:372 | ordinal substring test; the empty string occurs in every string |
| Text.Trim | IAS_Manager.cs:201 | the result has no white space at either end, is no longer than the input, and is empty exactly when the input is all white space |
| Text.TrimEnds | IAS_Manager.cs:201 | trimming the start and then the end leaves no white space at either end |
| Text.TrimBlank | IAS_Manager.cs:201-202 | the result is empty exactly when the string is all white space |
| Text.TrimChars | IAS_Manager.cs:201 | every character of the result occurs in the input |
| Text.TrimIdempotent | IAS_Manager.cs:201 | trimming twice equals trimming once |
| Text.ToLower | IAS_Manager.cs:210 | same length as the input, each character lower-cased on its own (ASCII letters only) |
| Text.ToLowerFacts | IAS_Manager.cs:210 | the result is lower case; a lower-case string is its own lower-case form; a trimmed string stays trimmed |
| Text.SplitRemoveEmpty | IAS_Manager.cs:205 | no piece is empty or holds the separator |
| Text.SplitJoin | IAS_Manager.cs:205 | splitting a joined list of non-empty, separator-free pieces gives the pieces back |
| Text.SplitKeepsOtherChars | IAS_Manager.cs:205 | the pieces, run together, are the input with its separators removed, in order |
| Text.KeepDigits | IAS_Manager.cs:577 | only digits are kept, and a string of digits is kept whole |
| Text.KeepLowerLetters | IAS_Manager.cs:583 | only the letters a..z are kept, and a string of such letters is kept whole |
| Text.DecimalRoundTrip | IAS_Manager.cs:577 | the decimal spelling of a number reads back as that number |

## Findings

| source | as written | input that shows it | evidently intended | confidence | as-written member | corrected member |
|---|---|---|---|---|---|---|
| IAS_Manager.cs:377-380 | `DoesSlotFileIdExist` tests only `jsonFileId < advertData.Count`, so a negative id passes and the lookups that follow index the list with it | `jsonFileId = -1` | a negative file id is a missing file (lookups return -1 or null) | not executed | Catalog.NegativeFileIdThrows | Catalog.GetSlotIndexAgrees |
| IAS_Manager.cs:200-211 | a blank piece between commas is trimmed to "" and added to `installedApps`; `IsPackageInstalled` then finds "" in every name | package list `"a, ,"` | blank pieces are dropped, as the trimming and `RemoveEmptyEntries` aim to do | not executed | Manifest.BlankEntryAsWritten | Manifest.BlankEntryCorrected |

The model uses the corrected lookup and list cleaning throughout:

- **Negative file id.** All lookups use `Catalog.GetSlotIndex`. The as-written version is
  `Catalog.GetSlotIndexAsWritten`.
- **Blank package entry.** `Manager.IasManager.UpdateInstalledPackages` uses
  `Manifest.CleanPackageList`. The as-written version is `Manifest.CleanPackageListAsWritten`.

## Left out

- **`Random.Range`** is not modelled as such.
  - Each draw is a caller-supplied function `draw(slotInt)`, reduced into the range.
  - Rotation.RandomRange: when `min > max` the result is taken from `[max, min)`. This only
    happens for a slot without ads, where the cursor is never used to find an ad.
- **Networking.**
  - Each WWW request is an input: its error string, its text, and the manifest decoded from
    it.
  - The wait for reachability (503-504) is not modelled.
  - JSON decoding is not modelled, including `long.Parse` of `updatetime`. The "Temp advert
    data was null" path (557-560) cannot arise from a decoded value.
- **Regular expressions.** Only those on slot ids and package names are modelled.
  - The image-extension match (629) is a function passed in.
- **Serialization.** `BinaryFormatter` and Base64 (287-329) are not modelled.
  - The stored preference is an abstract blob: empty, an encoded catalog, an encoded null
    list, or garbage.
  - An encoding failure cannot occur for the catalog's plain data.
- **Files and textures.**
  - Texture objects are recorded only by where they came from.
  - The file system is the inputs `fileExists`, `readOk` and `writeOk` of one run.
  - `GetAdTexture` (853-862) is represented only by `ReadyAdHasTexture`, its bounds
    argument.
- **Coroutines.**
  - `Start` runs `DownloadIASData` as a separate call, after it.
  - `DownloadAdTexture` coroutines are returned as `AdRef`s for the host to run in any
    order. Interleavings of these downloads with each other and with `DownloadIASData` are
    not modelled. Their effects are therefore absent from the model:
    - a merge (629-643) while a download waits on its request (704) rewrites `imgUrl` and
      `newUpdateTime`, and the download then records the new timestamp (733) against the
      old image;
    - two downloads of one ad that both pass the readiness test each append a texture (718);
    - rotation while a download waits moves cursors only, since ads are never removed.
- **Object identity.** Ads are values reached through positions, not shared objects.
  Aliasing is not modelled, because nothing in the catalog is shared.
- **Strings.** `ToLowerInvariant` is limited to ASCII letters. Null strings are not modelled.
- **Calls left out**, since they only log or forward:
  - analytics (`GoogleAnalytics.Instance.*`), `Debug.Log`;
  - `Awake`, `CheckIASVersion`, `OnApplicationPause`/`Focus`/`Quit`;
  - `RefreshBanners`' `forceChangeActive` event, `OnIASImageDownloaded` listeners;
  - `JarLoader` (the package list is an input), and the UI handler scripts.
- Manager.IasManager.UpdateInstalledPackages: follows the corrected blank-entry handling
  (`Manifest.CleanPackageList`), not the source. The as-written behaviour is
  `Manifest.CleanPackageListAsWritten`, listed under Findings.
- Manager.IasManager.LoadIASData: a stored null list throws in the first reset loop, and the
  model then keeps the previous catalog. In C#, `advertData` would already be null.
- **`IncSlotChar` overflow.** The overflow of `adSlotCount*2` is not modelled: a well-formed
  slot has at most 26 ads (`Catalog.AtMost26Ads`).
