# MeowTube video catalog — a Dafny model

MeowTube is a small video site that stores its videos in a Telegram channel. Two admin
command-line scripts manage the catalog:

- `scripts/upload.js` posts a video, an optional thumbnail and a JSON metadata message to
  the channel, then saves the record in the local catalog `data/videos.json`;
- `scripts/sync.js` rebuilds the catalog from the channel's metadata messages.

A Next.js front end serves the catalog. `GET /api/videos` lists it, `VideoCard` formats
durations, view counts and ages, and the upload page keeps a queue of selected files.
A theme context holds the light/dark theme and the state of the sidebar. The sidebar
highlights the active link.

The model has one Dafny module per core source file, plus two shared modules:

| module | file | models |
|---|---|---|
| `JsValues` | `js_values.dfy` | decoded JSON values, truthiness, property reads, `String(v)`, integer printing |
| `Schema` | `schema.dfy` | `lib/schema.js`; the identical `parseMetadata` of `scripts/sync.js` |
| `Catalog` | `catalog.dfy` | the catalog record list shared by the scripts and the route: find by id, set by id, the visibility filter |
| `Sync` | `sync.dfy` | the merge of `scripts/sync.js`, with the `Map` as the class `IdMap` and the merge as the method `Reconcile` |
| `Upload` | `upload.dfy` | `scripts/upload.js`: argument parsing, reply decoding, the size guard, the catalog update, and the whole run as a trace of effects |
| `VideosRoute` | `videos_route.dfy` | `app/api/videos/route.js` |
| `VideoCard` | `video_card.dfy` | the three formatters of `app/components/VideoCard.js` |
| `UploadPage` | `upload_page.dfy` | the file queue, default title and button guard of `app/upload/page.js` |
| `ThemeContext` | `theme_context.dfy` | `app/context/ThemeContext.js`, as the class `ThemeState` |
| `Sidebar` | `sidebar.dfy` | `isActive` of `app/components/Sidebar.js` |

How the model is set up:

- JSON text is modelled at the level of decoded values. `JSON.parse` becomes a parameter
  `parse: string -> Option<Value>`, where `None` means it throws.
- The clock, the file system, the environment, `ffprobe` and the Telegram Bot API replies
  are parameters too. Upload's `main` is the function `Upload.Publish`. It maps those inputs
  to a trace of effects: upload video, upload thumbnail, send metadata, save catalog. The
  trace ends in an exit status.
- Catalog records are typed (`Schema.Video`). The catalog file arrives as `Catalog.CatalogFile`,
  which is missing, unreadable, or a list of records.

`lib/schema.js` calls itself the single source of truth for the message structure
(lib/schema.js:3), and its `createMetadataMessage` stamps `schema_version`
(lib/schema.js:73). `scripts/upload.js` builds its metadata by hand
(scripts/upload.js:196-205) and never calls it, so `Upload.MetadataOf` has no
`schema_version` field, as in the code.

## Model

| member | source | states |
|---|---|---|
| `JsValues.Truthy` | scripts/sync.js:95 | JavaScript truthiness of a decoded value: `undefined`, `null`, `false`, 0 and `""` are falsy (a definition; its uses are stated by `Sync.PostText` and `Schema.DecodeDefaults`) |
| `JsValues.Get` | scripts/sync.js:95 | a property read is `undefined` unless the value is an object with that own key |
| `JsValues.IntToString` | lib/schema.js:96 | the decimal text of an integer is non-empty and starts with a digit or `-` |
| `JsValues.ToJsString` | scripts/sync.js:49-53 | `String(v)` throws only on an object or an array (through its `toString`), and leaves a string unchanged |
| `JsValues.IntRoundTrip` | lib/schema.js:96 | the decimal text printed for an integer reads back as that integer |
| `JsValues.IntToStringInjective` | scripts/upload.js:212 | two message ids print the same catalog id only when they are equal |
| `JsValues.DigitsRoundTrip` | app/components/VideoCard.js:16 | the digits printed for a natural number read back as that number |
| `Schema.ValidateMetadata` | lib/schema.js:29-56 | returns one error per broken rule (id, title, file_id, duration); valid iff there are no errors; a falsy object yields only the null-object error |
| `Schema.ErrorForEachBrokenRule` | lib/schema.js:36-50 | for a truthy object, a rule's message is among the errors iff that rule is broken; the null-object message never is |
| `Schema.ValidIffNoRuleBroken` | lib/schema.js:32-53 | the object is valid iff it is truthy and breaks none of the four rules |
| `Schema.ErrorsInRuleOrder` | lib/schema.js:36-50 | the errors come as a subsequence of the four messages, in the order the checks are written |
| `Schema.BrokenMessagesMembership` | lib/schema.js:36-50 | a message is reported iff its rule is in the checked list and is broken |
| `Schema.BrokenMessagesSubsequence` | lib/schema.js:36-50 | the reported messages keep the order of the checked rules |
| `Schema.CreateMetadataMessage` | lib/schema.js:63-82 | the message has type `video_meta` and schema version 1; a missing description becomes `""` and a missing duration 0 |
| `Schema.DecodeMetadata` | lib/schema.js:92-103 | decodes exactly when the type is `video_meta` and `String(video_msg_id)` does not throw; the id is that string and the title is never empty |
| `Schema.ParseMetadataMessage` | lib/schema.js:89-107 | text that does not parse gives null; text that parses gives the decode of the parsed value |
| `Schema.DecodeDefaults` | lib/schema.js:97-102 | each falsy field of a decoded message takes its default (`Untitled`, `""`, 0); each non-empty string or number field is kept |
| `Schema.CreatedFields` | lib/schema.js:63-82 | the created message is an object carrying each parameter under its own key, the defaults for a missing description and duration, and the time in whole seconds |
| `Schema.CreateThenDecode` | lib/schema.js:63-107 | decoding a created message gives back its id, title, description, file ids and duration, with `uploaded_at` the creation time in whole seconds |
| `Catalog.FindIndex` | scripts/upload.js:109 | the first index holding the id, or -1 when none does |
| `Catalog.Upsert` | scripts/upload.js:109-114 | setting a record by id either keeps the length (replace) or appends the record |
| `Catalog.UpsertShape` | scripts/upload.js:109-114 | on a list with unique ids, setting by id keeps ids unique, keeps every old position's id and adds only new ids |
| `Catalog.UpsertLastMap` | scripts/upload.js:109-114 | on unique ids, setting by id changes the id-to-record map at that one key |
| `Catalog.UpsertAsAppend` | scripts/sync.js:124-125 | on unique ids, setting by id leaves the same id map as appending the record |
| `Catalog.LastMap` | scripts/sync.js:122-125 | the dictionary a list of records denotes, each id mapped to its last record (a definition; stated by `LastMapKeys`, `LastMapIsLast`, `LastMapSource`) |
| `Catalog.LastMapKeys` | scripts/sync.js:122-125 | the id map of a list has exactly the list's ids as keys |
| `Catalog.LastMapIsLast` | scripts/sync.js:124-125 | the last record with a given id is the one the id map holds |
| `Catalog.LastMapSource` | scripts/sync.js:124-125 | every entry of the id map is the last record in the list with that id |
| `Catalog.LastMapConcat` | scripts/sync.js:124-125 | the id map of two lists in a row is the first map overridden by the second |
| `Catalog.LastMapReplace` | scripts/upload.js:110-111 | replacing the last record with an id in place updates the id map at that key only |
| `Catalog.UniqueLastMap` | scripts/sync.js:123-125 | with unique ids every record is its own id's entry |
| `Catalog.UniqueMembership` | scripts/sync.js:123-125 | with unique ids a record is in the list iff the id map holds it under its id |
| `Catalog.ConcatCongruence` | scripts/sync.js:124-125 | lists with equal id maps keep equal id maps after the same records are appended |
| `Catalog.SetAll` | scripts/sync.js:124-125 | `forEach((v) => videoMap.set(v.id, v))` on the entry list (a definition; stated by `SetAllShape`, `SetAllLastMap`, `SetAllFresh`, `SetAllSnoc`, `SetAllConcat`) |
| `Catalog.SetAllShape` | scripts/sync.js:124-125 | setting a run of records by id keeps ids unique and old positions in place |
| `Catalog.SetAllLastMap` | scripts/sync.js:124-125 | setting a run of records into a unique list gives the id map of the two lists in a row |
| `Catalog.SetAllFresh` | scripts/sync.js:124 | when all ids are distinct, setting the records appends them in order |
| `Catalog.SetAllSnoc` | scripts/sync.js:124-125 | setting a run and then one more record equals setting the longer run |
| `Catalog.SetAllConcat` | scripts/sync.js:124-125 | setting two runs one after the other equals setting their concatenation |
| `Catalog.RemoveId` | scripts/sync.js:128 | `videoMap.delete(id)` on the entry list: never longer than the list; which records survive is `RemoveIdMembers` |
| `Catalog.RemoveIdMembers` | scripts/sync.js:128 | a record survives deletion iff it was there and its id is not the deleted id |
| `Catalog.KeepVisible` | scripts/upload.js:106 | the visibility filter: never longer than the list; which records survive is `KeepVisibleMembers` |
| `Catalog.KeepVisibleMembers` | scripts/upload.js:106 | a record survives iff it was there, its id is not `demo` and its file_id is non-empty |
| `Catalog.KeepVisibleConcat` | app/api/videos/route.js:31-38 | filtering distributes over concatenation, so the order is kept |
| `Catalog.KeepVisibleAllVisible` | scripts/upload.js:106 | filtering a list whose every record is visible changes nothing |
| `Catalog.KeepVisibleNoneVisible` | scripts/upload.js:106 | filtering a list with no visible record leaves nothing |
| `Catalog.KeepVisibleAfterRemoveDemo` | scripts/sync.js:128-131 | deleting `demo` before the file_id filter changes nothing the filter would keep |
| `Catalog.FiltersKeepUnique` | scripts/sync.js:128-131 | deleting an id and filtering both keep ids unique |
| `Catalog.RemoveIdKeepsUnique` | scripts/sync.js:128 | deleting an id keeps ids unique |
| `Catalog.KeepVisibleKeepsUnique` | scripts/upload.js:106 | the visibility filter keeps ids unique |
| `Catalog.RemoveIdDropsId` | scripts/sync.js:128 | after the deletion no entry carries the deleted id |
| `Sync.PostText` | scripts/sync.js:95-96 | an update yields text iff its channel post and the post's text are both truthy |
| `Sync.DecodePost` | scripts/sync.js:47-64 | text whose `String` throws decodes to nothing; a string goes through the metadata parser |
| `Sync.DecodeUpdates` | scripts/sync.js:94-97 | at most one record per update; its order is `DecodeUpdatesConcat` and its contents `DecodeUpdatesMembership` |
| `Sync.DecodeUpdatesConcat` | scripts/sync.js:94-97 | decoding distributes over concatenation of updates |
| `Sync.DecodeUpdatesMembership` | scripts/sync.js:94-97 | a record is decoded iff some update has truthy text that parses to it |
| `Sync.SortByUploadedDesc` | scripts/sync.js:132 | the stable newest-first sort, by insertion (a definition; stated by `SortPermutation`, `SortSorted`, `SortStable`, `SortKeepsSorted`) |
| `Sync.InsertPermutation` | scripts/sync.js:132 | inserting into the sorted run adds exactly that record |
| `Sync.InsertSorted` | scripts/sync.js:132 | inserting into a newest-first run keeps it newest-first |
| `Sync.SortProperties` | scripts/sync.js:132 | the sort outputs newest first, as a permutation of its input |
| `Sync.SortPermutation` | scripts/sync.js:132 | the sort outputs a permutation of its input, of the same length |
| `Sync.SortSorted` | scripts/sync.js:132 | the sort outputs records in non-increasing upload time |
| `Sync.SortKeepsSorted` | scripts/sync.js:132 | a list already newest-first is unchanged |
| `Sync.InsertStable` | scripts/sync.js:132 | an insertion puts the record before the others with its upload time and keeps their order |
| `Sync.SortStable` | scripts/sync.js:132 | the sort is stable: for every upload time, the records with that time come out in their input order |
| `Sync.PermutationKeepsUnique` | scripts/sync.js:130-132 | a permutation of a list with unique ids has unique ids |
| `Sync.Merge` | scripts/sync.js:122-132 | the two rounds of `set`, the `demo` deletion, the file_id filter and the sort (a definition; stated by `MergeMembership`, `MergeShape`, `DecodedRecordWins`, `ExistingRecordKept`, `MergeIdempotent`) |
| `Sync.SyncRun` | scripts/sync.js:39-41 | a failed getUpdates reply or an unreadable catalog file fails the run without a write; with the reply and file fine, nothing decoded means nothing written, and otherwise the written list is the merge of the existing records (none for a missing file) with the decoded ones |
| `Sync.IdMap.constructor` | scripts/sync.js:123 | a new map is empty |
| `Sync.IdMap.Set` | scripts/sync.js:124-125 | `Map.set` replaces the value of a present key in place or appends a new key; keys stay unique |
| `Sync.IdMap.SetEach` | scripts/sync.js:124-125 | `forEach` with `set`: the entries become those of setting each record in turn; keys stay unique |
| `Sync.IdMap.Delete` | scripts/sync.js:128 | `Map.delete` drops the key's entry, keeps the others in order, and the key is gone |
| `Sync.Reconcile` | scripts/sync.js:101-132 | no decoded messages means no write; otherwise the written catalog is the merge |
| `Sync.MergedEntries` | scripts/sync.js:122-125 | the map after both loops has unique ids and equals the id map of existing then decoded records |
| `Sync.MergeMembership` | scripts/sync.js:122-132 | a record is in the synced catalog iff it is visible and is the last record with its id among existing then decoded |
| `Sync.MergeShape` | scripts/sync.js:128-132 | the synced catalog is newest first, has unique ids, no `demo` and no empty file_id |
| `Sync.DecodedRecordWins` | scripts/sync.js:125 | the last decoded record with an id overrides every existing record with that id |
| `Sync.ExistingRecordKept` | scripts/sync.js:115-125 | a local record that no message mentions survives the sync |
| `Sync.LastMapKeyIsId` | scripts/sync.js:124-125 | each map entry is stored under its own id |
| `Sync.ReplayPrefix` | scripts/sync.js:124-125 | replaying decoded records that agree with a catalog leaves the catalog as a prefix |
| `Sync.ReplayTail` | scripts/sync.js:124-125 | replaying leaves only invisible records after that prefix |
| `Sync.OutputIsFinal` | scripts/sync.js:125-132 | every record of the synced catalog is the decoded version wherever a message carries its id |
| `Sync.OutputLacksOnlyInvisible` | scripts/sync.js:128-132 | a decoded id missing from the synced catalog belongs to an invisible record |
| `Sync.FilterReplay` | scripts/sync.js:128-131 | deleting `demo` and filtering after a replay of that shape gives back the catalog |
| `Sync.MergeIdempotent` | scripts/sync.js:115-132 | merging the same messages into a synced catalog again changes nothing |
| `Sync.SyncIdempotent` | scripts/sync.js:94-140 | running sync again on the same reply with the written catalog as the file writes the same catalog |
| `Upload.StripFlag` | scripts/upload.js:36 | a leading `--` is removed once; any other argument is its own key |
| `Upload.StripFlagOnce` | scripts/upload.js:36 | `--key` is parsed as `key` |
| `Upload.Pairs` | scripts/upload.js:35 | the loop visits one pair per even index: the pairs cover every argument, the last pair possibly without a value |
| `Upload.ParamsOfPairsStep` | scripts/upload.js:35-39 | one more pair is one more assignment, skipped for the `__proto__` key |
| `Upload.ParseArgs` | scripts/upload.js:32-41 | the loop over pairs yields the key-value map of the arguments |
| `Upload.StoreParamKeys` | scripts/upload.js:36-38 | an assignment adds exactly its stripped key, unless that key is `__proto__` |
| `Upload.KeyBeforeStep` | scripts/upload.js:35 | a key occurs among the first n pairs iff it occurs among the first n-1 or is the key of pair n-1 |
| `Upload.ParamsOfPairsKeys` | scripts/upload.js:35-39 | after the first n pairs, the keys are the stripped keys of those pairs other than `__proto__` |
| `Upload.ArgsParamsKeys` | scripts/upload.js:32-41 | a key is set iff it is the stripped argument at an even index 2p, other than `__proto__` |
| `Upload.ParamsOfPairsLastWins` | scripts/upload.js:35-39 | among the first n pairs, the last pair with a key decides its value |
| `Upload.ArgsParamsLastWins` | scripts/upload.js:32-41 | a repeated flag takes the value after its last occurrence (the argument after index 2p), undefined at the end of the list |
| `Upload.ExtractFileId` | scripts/upload.js:134-139 | the video's file_id, else the document's, else the animation's; throws iff none is present |
| `Upload.ChooseThumb` | scripts/upload.js:184-192 | an uploaded thumbnail gives its largest size's file_id (a type error when there are no sizes); otherwise the video's own thumb, else `""` |
| `Upload.TooLarge` | scripts/upload.js:167-174 | the file is refused iff its size in MiB, as a real number, exceeds 50 |
| `Upload.SizeLimitBoundary` | scripts/upload.js:169-170 | exactly 50 MiB is accepted and one byte more is refused |
| `Upload.UpdateLocalDb` | scripts/upload.js:99-116 | the saved list is the visible stored records with the new record set by id; the new record is in it, nothing else is new, and ids stay unique |
| `Upload.UpsertFacts` | scripts/upload.js:109-114 | replace at the found index with all other positions kept, or append when the id is absent |
| `Upload.MetadataOf` | scripts/upload.js:196-205 | the posted metadata has type `video_meta`, the message id, and the time in whole seconds |
| `Upload.LocalVideoOf` | scripts/upload.js:211-219 | the local record's id is the printed message id and its time is in whole seconds |
| `Upload.DescOf` | scripts/upload.js:202 | a missing description becomes `""` |
| `Upload.Publish` | scripts/upload.js:141-228 | a run ends in an abort exactly when it performs no effect at all |
| `Upload.PublishUploads` | scripts/upload.js:176-227 | once the guards pass, the video upload is the first effect and the run is not an early abort |
| `Upload.PublishAbortsBeforeUpload` | scripts/upload.js:144-157 | missing credentials, video or title abort with that reason before any effect; a run with effects starts by uploading the video |
| `Upload.PublishRefusesLargeFile` | scripts/upload.js:162-174 | for an existing video the run stops with "file too large" iff the size guard fires |
| `Upload.PostAndSave` | scripts/upload.js:194-220 | after the uploads, the metadata post comes next, carrying the message id, title, description, duration and clock read; the run never ends as refused |
| `Upload.PostAndSaveLast` | scripts/upload.js:207-220 | when the uploads hold no save, a saved catalog is the last effect and follows the metadata post |
| `Upload.PostAndSaveRecord` | scripts/upload.js:196-220 | a completed post-and-save performs two more effects, saves the visible stored records with the local record set by id, and the posted metadata decodes to that record when the seconds agree |
| `Upload.UploadsSaveLast` | scripts/upload.js:207-220 | after the guards, a saved catalog is the last effect and comes right after the metadata post |
| `Upload.PublishSavesAfterPosting` | scripts/upload.js:141-228 | in every run, the catalog is saved only as the last effect, right after the metadata post |
| `Upload.PublishSavesLocalRecord` | scripts/upload.js:196-220 | (through the predicate `SavesLocalRecord`) a completed run saves the visible stored records with the new record set by id; that record carries the message id, title, description and file id; it is what the posted metadata decodes to when both clock reads fall in the same second |
| `Upload.MetadataRoundTrip` | scripts/upload.js:196-219 | the posted metadata decodes to the local record when both clock reads fall in the same second |
| `VideosRoute.Project` | app/api/videos/route.js:39-46 | keeps id, title, description, duration and time; the thumbnail URL is the thumb route for the id when a thumb exists, else the placeholder |
| `VideosRoute.ListVideos` | app/api/videos/route.js:31-46 | the listing is never longer than the catalog |
| `VideosRoute.Get` | app/api/videos/route.js:14-61 | a missing file gives no videos with "No videos yet"; an unreadable file gives a server error; otherwise the listing plus its length as total |
| `VideosRoute.ProjectAll` | app/api/videos/route.js:39-46 | projecting a list keeps its length and projects each position |
| `VideosRoute.ListIsProjectAll` | app/api/videos/route.js:31-46 | the listing equals the projection of the visible records |
| `VideosRoute.ListIsProjectionOfVisible` | app/api/videos/route.js:31-46 | the listing is, position by position, the projection of the visible records |
| `VideosRoute.ListKeepsOrder` | app/api/videos/route.js:31-46 | listing distributes over concatenation, so catalog order is kept |
| `VideosRoute.ListMembership` | app/api/videos/route.js:31-46 | an entry is listed iff it projects a visible stored record |
| `VideosRoute.ListExcludesDemo` | app/api/videos/route.js:34-37 | no listed entry has the id `demo` |
| `VideosRoute.ProjectIgnoresHandle` | app/api/videos/route.js:39-46 | the listing never exposes the Telegram file handle |
| `VideoCard.JsRem` | app/components/VideoCard.js:12-13 | JavaScript `%`: agrees with the mathematical remainder for non-negative operands and is non-positive for negative ones |
| `VideoCard.Pad2` | app/components/VideoCard.js:16-18 | `padStart(2, '0')`: the text is kept as a suffix behind zeros, at least two characters long, exactly two when it was shorter |
| `VideoCard.FormatDuration` | app/components/VideoCard.js:8-19 | zero seconds prints `0:00`; the layout is `FormatDurationLayout` and the read-back `FormatDurationRoundTrip` |
| `VideoCard.FormatDurationLayout` | app/components/VideoCard.js:8-19 | with hours, `h:mm:ss`; without, `m:ss`, for the hour/minute/second split of the seconds |
| `VideoCard.FormatDurationRoundTrip` | app/components/VideoCard.js:8-19 | reading the printed clock back gives the number of seconds |
| `VideoCard.LongClockValue` | app/components/VideoCard.js:16 | `h:mm:ss` with minutes and seconds below 60 reads back as h·3600 + m·60 + s |
| `VideoCard.ShortClockValue` | app/components/VideoCard.js:18 | `m:ss` with seconds below 60 reads back as m·60 + s |
| `VideoCard.SplitOnPlain` | app/components/VideoCard.js:16-18 | a field without separators splits to itself |
| `VideoCard.SplitOnJoin` | app/components/VideoCard.js:16-18 | splitting a joined field separates at the first separator |
| `VideoCard.DigitsHaveNoSeparator` | app/components/VideoCard.js:16-18 | printed and padded numbers contain no separator |
| `VideoCard.LeadingZero` | app/components/VideoCard.js:16-18 | a padding zero does not change the value read |
| `VideoCard.PaddedValue` | app/components/VideoCard.js:16-18 | a padded number reads back as the number |
| `VideoCard.SplitTwo` | app/components/VideoCard.js:18 | `m:ss` splits into its two fields |
| `VideoCard.SplitThree` | app/components/VideoCard.js:16 | `h:mm:ss` splits into its three fields |
| `VideoCard.FormatViews` | app/components/VideoCard.js:24-29 | zero views reads `0 views`; the integer branch covers exactly the counts below 1000 |
| `VideoCard.FormatViewsExact` | app/components/VideoCard.js:25-28 | below 1000 the text is the count followed by ` views` and reads back as the count |
| `VideoCard.AgeAsWritten` | app/components/VideoCard.js:41-52 | as written: an age under an hour is shown as "Just now" |
| `VideoCard.ZeroYearsAgo` | app/components/VideoCard.js:44-52 | as written, 360 days prints `0 years ago` |
| `VideoCard.AgeOf` | app/components/VideoCard.js:41-52 | corrected: every count shown is at least 1, and it differs from the code only between 360 and 364 days, where it shows 1 year |
| `VideoCard.FormatDateAsWritten` | app/components/VideoCard.js:34-53 | as written: a missing timestamp prints nothing, and the age is `AgeAsWritten` |
| `VideoCard.FormatDate` | app/components/VideoCard.js:34-53 | corrected: a missing timestamp prints nothing, and the age is `AgeOf` |
| `VideoCard.AgeLadder` | app/components/VideoCard.js:47-52 | under an hour is "Just now"; then hours below a day, days below a week, weeks below 30 days, months below 360 days, and years after that |
| `VideoCard.AgeMonotone` | app/components/VideoCard.js:41-52 | an older upload never shows a smaller unit, nor a smaller count in the same unit |
| `VideoCard.UnitNameRoundTrip` | app/components/VideoCard.js:47-51 | each unit's printed name has no space and reads back as that unit |
| `VideoCard.AgoFields` | app/components/VideoCard.js:47-51 | `count unit ago` splits on spaces into the count, the unit and `ago` |
| `VideoCard.RenderRoundTrip` | app/components/VideoCard.js:47-52 | each rendered age reads back as that age |
| `VideoCard.FormatDateReadsBack` | app/components/VideoCard.js:34-53 | the printed date reads back as the age of the upload at the given now |
| `UploadPage.VideoFiles` | app/upload/page.js:225-227 | keeps exactly the files whose type starts with `video/` |
| `UploadPage.NotQueued` | app/upload/page.js:236 | keeps exactly the candidates whose name is not already queued |
| `UploadPage.HandleFiles` | app/upload/page.js:224-238 | alerts iff no video was chosen, and the queue is then unchanged; otherwise the old queue is kept as a prefix and the added files are the chosen videos with new names |
| `UploadPage.Added` | app/upload/page.js:234-237 | the new queue is the old queue followed by the added files |
| `UploadPage.VideoFilesConcat` | app/upload/page.js:225-227 | the video filter distributes over concatenation, so selection order is kept |
| `UploadPage.NotQueuedConcat` | app/upload/page.js:236 | the queued-name filter distributes over concatenation, so selection order is kept |
| `UploadPage.AddedIsFiltered` | app/upload/page.js:224-238 | the added files are the video files, filtered by name against the old queue |
| `UploadPage.AddedSingle` | app/upload/page.js:224-238 | one chosen file is added, once, iff it is a video whose name is not queued |
| `UploadPage.AddedConcat` | app/upload/page.js:224-238 | the files a selection adds are those its first part adds followed by those its second part adds |
| `UploadPage.AddedAllNew` | app/upload/page.js:224-238 | a selection of video files with new names is appended unchanged, in order, each file once |
| `UploadPage.SameNameInOneSelection` | app/upload/page.js:236 | two files of the same name in one selection are both queued |
| `UploadPage.QueuedNameNotAddedAgain` | app/upload/page.js:236 | a name already queued is not added again |
| `UploadPage.HandleRemove` | app/upload/page.js:260-262 | removes exactly the files with the given name |
| `UploadPage.HandleRemoveKeepsOrder` | app/upload/page.js:261 | removal distributes over concatenation, so queue order is kept |
| `UploadPage.DefaultTitle` | app/upload/page.js:25 | the default title is a prefix of the file name (which prefix: `DefaultTitleStripsExtension`) |
| `UploadPage.TrailingRun` | app/upload/page.js:25 | the longest tail without `.` or `/` |
| `UploadPage.DefaultTitleStripsExtension` | app/upload/page.js:25 | an extension (a dot then one or more characters other than `.` and `/`) is stripped once; a name without one is kept |
| `UploadPage.ExtensionWithinRun` | app/upload/page.js:25 | the stripped extension is exactly the trailing run |
| `UploadPage.DefaultTitleOf` | app/upload/page.js:25 | a name made of a title, a dot and an extension starts with that title |
| `UploadPage.DefaultTitleExamples` | app/upload/page.js:25 | `holiday.mp4` → `holiday`, `archive.tar.gz` → `archive.tar`, `noext` unchanged, `.mp4` → empty |
| `UploadPage.UploadDisabled` | app/upload/page.js:195 | the button is disabled while uploading or while the title is empty (a definition; stated by `StartsDisabledIff`) |
| `UploadPage.StartsDisabledIff` | app/upload/page.js:25-195 | a queued file's button starts disabled iff its name is empty or only an extension |
| `UploadPage.BareExtensionStartsDisabled` | app/upload/page.js:25-195 | a file named only `.mp4` starts with an empty title, so its upload button is disabled |
| `ThemeContext.Toggled` | app/context/ThemeContext.js:38 | the toggle gives `dark` exactly from `light`, and always light or dark |
| `ThemeContext.ToggledTwice` | app/context/ThemeContext.js:37-42 | two toggles restore light and dark; any other stored value ends as dark |
| `ThemeContext.MountedTheme` | app/context/ThemeContext.js:14-21 | a saved non-empty theme wins, then a dark preference, else the current theme |
| `ThemeContext.ThemeState.constructor` | app/context/ThemeContext.js:8-10 | starts light, with the sidebar open and not collapsed |
| `ThemeContext.ThemeState.Mount` | app/context/ThemeContext.js:12-35 | adopts the saved or preferred theme and shows it on the document, then opens the sidebar iff the width is at least 1024 |
| `ThemeContext.ThemeState.HandleResize` | app/context/ThemeContext.js:24-30 | the sidebar is open iff the width is at least 1024; nothing else changes |
| `ThemeContext.ThemeState.SetSidebarOpen` | app/context/ThemeContext.js:57 | sets whether the sidebar is open and nothing else |
| `ThemeContext.ThemeState.ToggleTheme` | app/context/ThemeContext.js:37-42 | switches the theme, stores it and shows it on the document; the sidebar is untouched |
| `ThemeContext.ThemeState.ToggleSidebar` | app/context/ThemeContext.js:44-50 | below 1024 flips whether the sidebar is open, otherwise flips whether it is collapsed; the theme is untouched |
| `ThemeContext.ToggleThemeTwice` | app/context/ThemeContext.js:37-42 | toggling twice from light or dark restores the theme, with storage and document agreeing |
| `ThemeContext.ToggleSidebarTwice` | app/context/ThemeContext.js:44-50 | toggling the sidebar twice at one width restores it |
| `Sidebar.IsActive` | app/components/Sidebar.js:26 | a link is active when the path equals it or starts with it followed by `/` (a definition; stated by `IsActiveMeaning`, `SegmentBoundary`, `HomeOnlyAtRoot`) |
| `Sidebar.IsActiveMeaning` | app/components/Sidebar.js:26 | a link is active iff the path is the link followed by nothing or by a `/` part; an active link is a prefix of the path |
| `Sidebar.SegmentBoundary` | app/components/Sidebar.js:26 | `/uploads` does not activate `/upload`; `/upload` and `/upload/new` do |
| `Sidebar.HomeOnlyAtRoot` | app/components/Sidebar.js:26 | the home link is active only at `/` or under a `//` prefix |

## Left out

- Network calls to the Telegram Bot API (`fetchUpdates`, `uploadFile`, `sendMetadata`) are not modelled. Their replies are inputs: a failed upload or post is the `ApiError` failure of `Upload.Publish`, and a failed getUpdates is the `SyncFailed` exit of `Sync.SyncRun`.
- `Sync.SyncRun` starts after the environment checks of sync's `main` (a missing token or channel id exits before any fetch), and a failing `fetch` or `response.json()` is treated like a reply with `ok: false`.
- File system, environment variables, `process.exit` and console output are not modelled. They become the fields of `Upload.PublishEnv`, `Catalog.CatalogFile`, and the exit status of a run.
- The ffprobe duration probe is a parameter (`duration` of `Upload.PublishEnv`), because it runs an external program.
- Floating-point formatting is left out: the `K`/`M` view counts, the `toFixed` size message and the upload progress. `VideoCard.FormatViews` returns `None` for 1000 views and more.
- `Schema.DecodeMetadata`: catalog records are typed, so a truthy field of another JSON type than its record field decodes to the default instead of being carried through.
- Numbers are integers. There are no fractions, NaN or Infinity, and integers print in plain decimal, never in exponent notation.
- `Sync.PostText`: an update is assumed to be an object, and a post of another JSON type reads its fields as undefined. Bot API replies are assumed to have the documented shape, except that a missing `photo` array is the `TypeError` failure.
- The async browser upload (`handleUpload`, XHR progress, the upload-all button) and the `/api/video`, `/api/thumb` and `/api/resolve` routes are not part of this model.
- JSX rendering, drag-and-drop events and the resize listener registration are left out. `ThemeState.HandleResize` is the listener body.
- React's asynchronous state updates and stale closures are not modelled. Each context method reads the state current at the call.
- A failing catalog write is not modelled: the write is the last effect of a run.

## Findings

| source | as written | input that shows it | evidently intended | confidence | as-written member | corrected member |
|---|---|---|---|---|---|---|
| app/components/VideoCard.js:44-52 | `months` reaches 12 at 360 days, but `years = floor(days / 365)` is still 0 until 365 days | an upload 360 days old (timestamp 1, now 1000 + 360·86400000 ms) prints `0 years ago` | every age shown is at least 1 of its unit, so 360–364 days should read `1 years ago` | not executed | `VideoCard.ZeroYearsAgo` | `VideoCard.AgeOf` |
