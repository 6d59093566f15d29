# RecoverEasy — a verified model of the recovery engine and its selection logic

RecoverEasy is an Android app that finds photos, videos, audio files,
documents and archives on the phone, on removable volumes, or under a
folder the user picks. For each file it:

- reports whether the file looks corrupt;
- makes a best-effort repaired copy in a destination folder.

Depending on the file's kind, the repair does one of these:

- re-encodes an image as JPEG;
- remuxes a video to MP4;
- copies an audio file or PDF under a `_fixed` name once a probe accepts it;
- salvages the readable entries of a zip archive;
- copies any other file under its own name.

Every copy goes through a `.part` file that is renamed into place. The
two list screens keep track of which rows are selected, and they pick a
power-of-two sample size for decoding thumbnails.

This project models that logic in Dafny and proves properties of it.

| file | module | models |
|---|---|---|
| `common.dfy` | `Common` | Kotlin nullables, bytes, the JVM `Int`, truncating `Int` division, powers of two |
| `text.dfy` | `Text` | The string functions the engine uses: `lowercase` (ASCII), `startsWith`/`endsWith`, `indexOf`, `substringBefore`, `substringBeforeLast` |
| `classify.dfy` | `Classify` | `guessKind`, the ordered chain that maps a name and MIME type to a `Kind` |
| `engine.dfy` | `Engine` | `Item`, `extractVolumeId`, `CorruptReport` and `detectCorruption`, `probeDocument` dispatch, the `repairBestEffort` strategy choice, output names |
| `streams.dfy` | `Streams` | An input stream as a sequence of reads; `copyStreamDigest`, with an output sink and a digest as classes |
| `zip.dfy` | `Zip` | The zip input as a sequence of entry outcomes, a `ZipOutputStream` class, and the `salvageZipLike` entry loop |
| `destination.dfy` | `Destination` | The destination folder (`DestDir`, a map from name to content); `createDestFile`, `safeCopyWithDigest`, the five repair strategies and `repairBestEffort` |
| `scan.dfy` | `Scan` | `queryByVolume`, `scanPhoneAll`, `scanRemovableAll`, and the depth-first `walk` of `listFromTree` |
| `media_adapter.dfy` | `MediaAdapterModel` | `MediaAdapter`'s selected-URI set, its queries, the row label, `DIFF`, `calcSample` |
| `main_activity.dfy` | `MainActivityModel` | `MainActivity`'s sparse check states, `firstCheckedIndex`/`checkedIndices`, select-all, the copy button and the destination callback, `setItems`, and `ItemAdapter.loadThumb`'s sample loop |

Stateful code is modelled as classes with `modifies` clauses:

- the destination folder;
- the output streams and the digest;
- the zip writer;
- the two screens.

Each such method is proved against a pure function of the old state. For
example, `DestDir.SafeCopyWithDigest` ensures that
`Outcome(files, r) == SafeCopy(reachable, old(files), …)`. The lemmas
then state what those functions promise. Android probes and other
platform results are parameters of the model.

## Model

| member | source | states |
|---|---|---|
| Text.IndexOf | app/src/main/java/com/recovereasy/app/RecoverEasyEngine.kt:322 | `indexOf` returns the first position where the pattern occurs, or -1 exactly when it occurs nowhere |
| Text.LastIndexOf | app/src/main/java/com/recovereasy/app/RecoverEasyEngine.kt:214 | The last occurrence of a character, or -1 exactly when the character is absent |
| Text.SubstringBeforeSpec | app/src/main/java/com/recovereasy/app/RecoverEasyEngine.kt:325 | `substringBefore` yields the prefix of the string up to the first occurrence of the delimiter: the delimiter starts right after it and at no earlier position, and the prefix does not contain it. Without the delimiter the result is the whole string |
| Text.SubstringBeforeLastSpec | app/src/main/java/com/recovereasy/app/RecoverEasyEngine.kt:214 | `substringBeforeLast(".")` yields a prefix: the whole string without a dot, else the text before the last dot |
| Text.EndsWithIgnoreCaseLower | app/src/main/java/com/recovereasy/app/RecoverEasyEngine.kt:58 | `endsWith(suffix, true)` against a lower-case suffix is `endsWith` on the lowercased name |
| Classify.GuessKind | app/src/main/java/com/recovereasy/app/RecoverEasyEngine.kt:331-341 | The kind returned is one whose clause matches the lowercased name and MIME type, and no earlier clause (IMAGE, VIDEO, AUDIO, DOC, ARCHIVE, then OTHER) matches |
| Classify.FirstMatchIsUnique | app/src/main/java/com/recovereasy/app/RecoverEasyEngine.kt:333-340 | Any kind that is the first matching clause is the kind `guessKind` returns, so the result is determined |
| Classify.IgnoresCase | app/src/main/java/com/recovereasy/app/RecoverEasyEngine.kt:332 | The name is classified by its lower-case form |
| Classify.ImageExtensionWins | app/src/main/java/com/recovereasy/app/RecoverEasyEngine.kt:334 | An image extension gives IMAGE whatever the MIME type, including a `video/` or `audio/` one |
| Classify.DocAndArchiveByExtension | app/src/main/java/com/recovereasy/app/RecoverEasyEngine.kt:337-338 | Without a media MIME type, DOC and ARCHIVE need a matching extension, and the answer does not depend on the MIME type |
| Classify.DocOrArchiveMeansNoMediaMime | app/src/main/java/com/recovereasy/app/RecoverEasyEngine.kt:334-338 | A DOC or ARCHIVE answer implies the MIME type was not image, video or audio, and the same answer comes without any MIME type |
| Classify.ExampleMimeDecides | app/src/main/java/com/recovereasy/app/RecoverEasyEngine.kt:334 | `x.bin` with `image/jpeg` is IMAGE |
| Classify.ExampleExtensionDecides | app/src/main/java/com/recovereasy/app/RecoverEasyEngine.kt:334 | `x.jpg` and `X.JPG` without a MIME type are IMAGE |
| Classify.ExampleImageBeatsVideoMime | app/src/main/java/com/recovereasy/app/RecoverEasyEngine.kt:334-335 | `clip.png` with `video/mp4` is IMAGE |
| Classify.ExampleUnknown | app/src/main/java/com/recovereasy/app/RecoverEasyEngine.kt:340 | An unknown extension without a MIME type is OTHER |
| Engine.ExtractVolumeId | app/src/main/java/com/recovereasy/app/RecoverEasyEngine.kt:320-329 | null when `documents/tree/` does not occur. Otherwise the result is the text after the first marker cut at the first `%3A` and then at the first `:`, returned iff it contains `-`. A returned id always contains `-` |
| Engine.VolumeIdShape | app/src/main/java/com/recovereasy/app/RecoverEasyEngine.kt:322-326 | A returned id is the text after the marker up to the first `%3A` or `:`. It is a prefix of that text with neither `%3A` nor `:` at any position inside it, and it is followed by `:`, by `%3A`, or by the end of the text |
| Engine.DocProbeFor | app/src/main/java/com/recovereasy/app/RecoverEasyEngine.kt:178-186 | `probeDocument`, on the lowercased name, uses the PDF probe exactly for `.pdf`. Otherwise it uses the text probe exactly for `.txt`/`.csv`, then the zip probe exactly for `.docx`/`.xlsx`/`.pptx`, and the generic probe exactly for every other name |
| Engine.Report | app/src/main/java/com/recovereasy/app/RecoverEasyEngine.kt:144-149 | A `CorruptReport` carries its item, reason and flag, and its `volumeId` defaults to the item's |
| Engine.DetectCorruption | app/src/main/java/com/recovereasy/app/RecoverEasyEngine.kt:131-142 | A throw gives the check-error report with `fixable = false`; otherwise the result is null iff the kind's probe passes, and `fixable` is true exactly for IMAGE, VIDEO, AUDIO and ARCHIVE |
| Engine.FixableOnlyForRepairableKinds | app/src/main/java/com/recovereasy/app/RecoverEasyEngine.kt:134-139 | A fixable report never concerns a DOC or OTHER item |
| Engine.ThrowIsNeverHealthy | app/src/main/java/com/recovereasy/app/RecoverEasyEngine.kt:141 | An error during the check always yields a report, and that report is not fixable |
| Engine.StrategyFor | app/src/main/java/com/recovereasy/app/RecoverEasyEngine.kt:54-61 | Each kind maps to its strategy (iff for each); DOC goes to PDF repair iff the name ends in `.pdf` ignoring case; other DOC and OTHER go to a plain copy |
| Engine.PdfDispatchAgreesWithProbe | app/src/main/java/com/recovereasy/app/RecoverEasyEngine.kt:58 | For DOC items, the repair picks PDF repair exactly when `probeDocument` would pick the PDF probe |
| Engine.FixedNameShape | app/src/main/java/com/recovereasy/app/RecoverEasyEngine.kt:214 | The output name ends with the strategy's `_fixed.*` suffix; a missing name gives the strategy's default base; otherwise the base is the name up to its last `.`, or the whole name without one |
| Engine.ImageNameForm | app/src/main/java/com/recovereasy/app/RecoverEasyEngine.kt:214 | The image strategy's default is applied before cutting at the last dot, yet it gives the same name as the other strategies' form |
| Engine.ExampleNames | app/src/main/java/com/recovereasy/app/RecoverEasyEngine.kt:225 | `IMG_01.old.jpeg` gives `IMG_01.old_fixed.jpg`; no name gives `archive_fixed.zip`; `voice` gives `voice_fixed.m4a` |
| Engine.PartName | app/src/main/java/com/recovereasy/app/RecoverEasyEngine.kt:292 | The temporary name ends in `.part` and differs from the output name |
| Streams.DeliveredAppend | app/src/main/java/com/recovereasy/app/RecoverEasyEngine.kt:307 | Before any failure, one more chunk adds exactly its bytes to what was delivered |
| Streams.DeliveredStopsAtFail | app/src/main/java/com/recovereasy/app/RecoverEasyEngine.kt:307 | Nothing after the first failing read is delivered |
| Streams.Sink.Write | app/src/main/java/com/recovereasy/app/RecoverEasyEngine.kt:307 | `out.write` appends the chunk to what was written |
| Streams.Digest.Update | app/src/main/java/com/recovereasy/app/RecoverEasyEngine.kt:307 | `md.update` appends the chunk to the digest's input |
| Streams.CopyStreamDigest | app/src/main/java/com/recovereasy/app/RecoverEasyEngine.kt:305-308 | The output and the digest input each grow by exactly the bytes read before the first failing read, in order; the copy fails iff a read fails |
| Zip.SalvageStop | app/src/main/java/com/recovereasy/app/RecoverEasyEngine.kt:272-280 | The loop processes entries up to and including the first one whose `zis.closeEntry` fails |
| Zip.NamesOfAppend | app/src/main/java/com/recovereasy/app/RecoverEasyEngine.kt:276 | Adding an output entry adds its name to the set of written names |
| Zip.SalvagedNamesDistinct | app/src/main/java/com/recovereasy/app/RecoverEasyEngine.kt:276 | The salvaged archive never holds two entries with the same name |
| Zip.SalvagedNamesCover | app/src/main/java/com/recovereasy/app/RecoverEasyEngine.kt:272-280 | Every input entry name appears in the salvaged archive, and no other name does |
| Zip.SalvagedKeepsDistinctEntries | app/src/main/java/com/recovereasy/app/RecoverEasyEngine.kt:272-280 | With distinct names, the output has one entry per input entry, in input order, each with the bytes read before its data ended or failed |
| Zip.EntryBytesPrefix | app/src/main/java/com/recovereasy/app/RecoverEasyEngine.kt:277 | The bytes copied for an entry are a prefix of what the stream delivers, and all of it when no read is empty |
| Zip.EntryBytesAppend | app/src/main/java/com/recovereasy/app/RecoverEasyEngine.kt:277 | While no read has ended the entry, a further non-empty chunk is copied in full |
| Zip.EntryStopsAt | app/src/main/java/com/recovereasy/app/RecoverEasyEngine.kt:277 | The entry copy stops at the first failing or empty read, and it throws iff that read failed |
| Zip.EntryThrowsAppend | app/src/main/java/com/recovereasy/app/RecoverEasyEngine.kt:277 | Appending a non-empty chunk to a stream of non-empty chunks does not throw |
| Zip.NoStop | app/src/main/java/com/recovereasy/app/RecoverEasyEngine.kt:272-280 | Without any `closeEntry` failure the loop reaches every entry |
| Zip.StopAt | app/src/main/java/com/recovereasy/app/RecoverEasyEngine.kt:279 | The first `closeEntry` failure ends the loop right after that entry |
| Zip.ZipSink.PutNextEntry | app/src/main/java/com/recovereasy/app/RecoverEasyEngine.kt:276 | `putNextEntry` opens a new empty entry iff the name is not yet written; a duplicate name throws and leaves the archive unchanged |
| Zip.ZipSink.Write | app/src/main/java/com/recovereasy/app/RecoverEasyEngine.kt:277 | `zos.write` appends bytes to the open (last) entry only |
| Zip.ZipSink.CloseEntry | app/src/main/java/com/recovereasy/app/RecoverEasyEngine.kt:278 | `closeEntry` closes the entry and leaves the contents alone |
| Zip.CopyEntryData | app/src/main/java/com/recovereasy/app/RecoverEasyEngine.kt:277 | The inner read loop appends exactly the entry's copied bytes to the open entry, and throws iff a read fails before the entry ends |
| Zip.SalvageEntry | app/src/main/java/com/recovereasy/app/RecoverEasyEngine.kt:274-279 | One iteration: a new name gets an entry with its copied bytes, including when the copy threw partway; a duplicate name leaves the archive unchanged |
| Zip.SalvageEntries | app/src/main/java/com/recovereasy/app/RecoverEasyEngine.kt:272-280 | The archive written is the salvage of the entries up to the stopping point; the loop completes iff neither `nextEntry` nor any `closeEntry` fails |
| Destination.CreateSpec | app/src/main/java/com/recovereasy/app/RecoverEasyEngine.kt:314-318 | Only the target name changes. A handle is returned iff the folder resolves and creation succeeds, and it names an empty document. A failed creation still deletes the old document; an unresolvable folder changes nothing |
| Destination.SafeCopyFrame | app/src/main/java/com/recovereasy/app/RecoverEasyEngine.kt:290-303 | A copy changes no document other than the output name and its `.part` file |
| Destination.SafeCopyResult | app/src/main/java/com/recovereasy/app/RecoverEasyEngine.kt:290-303 | A returned handle is the output name or the `.part` name, and it exists. It holds every byte the source delivered, or nothing without a source or output stream, and the source never failed. After a rename the `.part` file is gone |
| Destination.SafeCopyKeepsOutNameOnFailure | app/src/main/java/com/recovereasy/app/RecoverEasyEngine.kt:290-303 | When the copy does not end under the output name, an existing document of that name is untouched |
| Destination.SafeCopyFailureKeepsPartial | app/src/main/java/com/recovereasy/app/RecoverEasyEngine.kt:294-302 | A failing read returns null and leaves the bytes read before it in the `.part` file |
| Destination.SafeCopyWithoutSource | app/src/main/java/com/recovereasy/app/RecoverEasyEngine.kt:294-301 | With no source stream, an empty file is still renamed into place and returned |
| Destination.ProbeFailureChangesNothing | app/src/main/java/com/recovereasy/app/RecoverEasyEngine.kt:253-262 | The audio and PDF strategies return null without touching the folder when their probe fails |
| Destination.ProbePassIsCopy | app/src/main/java/com/recovereasy/app/RecoverEasyEngine.kt:253-262 | With a passing probe, the audio and PDF strategies are exactly a copy to a `_fixed.m4a` / `_fixed.pdf` name |
| Destination.SalvageResult | app/src/main/java/com/recovereasy/app/RecoverEasyEngine.kt:264-288 | Only the `_fixed.zip` name changes. The result is null iff the folder or document cannot be had or the entry loop was cut short. The document holds the entries salvaged up to the stopping point |
| Destination.SalvageKeepsEveryEntry | app/src/main/java/com/recovereasy/app/RecoverEasyEngine.kt:264-288 | A complete salvage of an archive with distinct names keeps every entry in order, each with its readable bytes |
| Destination.RepairFrame | app/src/main/java/com/recovereasy/app/RecoverEasyEngine.kt:54-61 | Any repair changes at most its output document and that document's `.part` file, and a returned handle is one of those two and exists |
| Destination.PlainCopyUnderOwnName | app/src/main/java/com/recovereasy/app/RecoverEasyEngine.kt:58-60 | A non-PDF document or an unknown file is copied byte for byte under its own name |
| Destination.DestDir.CreateDestFile | app/src/main/java/com/recovereasy/app/RecoverEasyEngine.kt:314-318 | The new folder and result are those of `Create` on the old folder |
| Destination.DestDir.SafeCopyWithDigest | app/src/main/java/com/recovereasy/app/RecoverEasyEngine.kt:290-303 | Creating the `.part` file, streaming the source into it and renaming it leaves the folder and result that `SafeCopy` gives |
| Destination.DestDir.RepairImageToJpeg | app/src/main/java/com/recovereasy/app/RecoverEasyEngine.kt:212-221 | The folder and result are those of `RepairImage`: the JPEG name, an empty document left when decoding fails, the encoded bytes otherwise |
| Destination.DestDir.RemuxVideoMp4 | app/src/main/java/com/recovereasy/app/RecoverEasyEngine.kt:223-251 | The folder and result are those of `RemuxVideo` |
| Destination.DestDir.RemuxAudioContainer | app/src/main/java/com/recovereasy/app/RecoverEasyEngine.kt:253-257 | The folder and result are those of `RemuxAudio`: probe first, then a copy |
| Destination.DestDir.RepairPdfBasic | app/src/main/java/com/recovereasy/app/RecoverEasyEngine.kt:259-262 | The folder and result are those of `RepairPdf`: probe first, then a copy |
| Destination.DestDir.SalvageZipLike | app/src/main/java/com/recovereasy/app/RecoverEasyEngine.kt:264-288 | The folder and result are those of `Salvage`, built with the entry loop |
| Destination.DestDir.RepairBestEffort | app/src/main/java/com/recovereasy/app/RecoverEasyEngine.kt:54-61 | The folder and result are those of `Repair`, which dispatches by kind |
| Scan.Digits | app/src/main/java/com/recovereasy/app/RecoverEasyEngine.kt:99 | A row id is written as a non-empty string of decimal digits whose value, read back, is the id |
| Scan.IntToStringInjective | app/src/main/java/com/recovereasy/app/RecoverEasyEngine.kt:99 | Two ids are written the same way iff they are equal, including negative ids |
| Scan.WithAppendedId | app/src/main/java/com/recovereasy/app/RecoverEasyEngine.kt:99 | An item URI starts with its collection URI and `/`, and the rest is the id written in decimal |
| Scan.WithAppendedIdInjective | app/src/main/java/com/recovereasy/app/RecoverEasyEngine.kt:99 | Two rows of one collection get the same URI iff their ids are equal, so the URI-keyed selection tells them apart |
| Scan.AppendCursor | app/src/main/java/com/recovereasy/app/RecoverEasyEngine.kt:98-106 | The cursor loop appends one item per selected row, in cursor order |
| Scan.QueryByVolume | app/src/main/java/com/recovereasy/app/RecoverEasyEngine.kt:74-109 | The result is the images, then the videos, then the audio of the volume; a null cursor contributes nothing |
| Scan.CursorItemsSpec | app/src/main/java/com/recovereasy/app/RecoverEasyEngine.kt:89-106 | Each item carries the volume, its guessed kind and a URI under the collection. Trashed rows are kept only when the trash is included, and then there is one item per row |
| Scan.VolumeItemsSpec | app/src/main/java/com/recovereasy/app/RecoverEasyEngine.kt:74-109 | Every item of a volume scan carries the volume and its guessed kind; without the trash no item is trashed |
| Scan.VolumeItemsCount | app/src/main/java/com/recovereasy/app/RecoverEasyEngine.kt:89-108 | With the trash included, the scan has as many items as the three cursors have rows |
| Scan.ScanPhoneAll | app/src/main/java/com/recovereasy/app/RecoverEasyEngine.kt:41-42 | The phone scan is the scan of the primary volume, and every item carries it |
| Scan.ScanRemovableAll | app/src/main/java/com/recovereasy/app/RecoverEasyEngine.kt:44-50 | The result is the concatenation of the scans of the non-primary volumes, in volume order |
| Scan.RemovableSkipsPrimary | app/src/main/java/com/recovereasy/app/RecoverEasyEngine.kt:45-48 | Every item of the removable scan comes from a listed volume other than the primary one |
| Scan.RemovableCoversEveryVolume | app/src/main/java/com/recovereasy/app/RecoverEasyEngine.kt:45-48 | Every item of every non-primary volume appears in the removable scan |
| Scan.Walk | app/src/main/java/com/recovereasy/app/RecoverEasyEngine.kt:114-126 | The recursive walk appends the files of a listing in depth-first order, descending into each folder where it occurs |
| Scan.ListFromTree | app/src/main/java/com/recovereasy/app/RecoverEasyEngine.kt:111-129 | An unresolvable tree gives no items; otherwise the depth-first list of its files |
| Scan.ForestItemsSpec | app/src/main/java/com/recovereasy/app/RecoverEasyEngine.kt:115-124 | One item per file, none of them trashed, each with the volume parsed from its URI and its guessed kind |
| MediaAdapterModel.AllSelected | app/src/main/java/com/recovereasy/app/MediaAdapter.kt:81-82 | `isAllSelected` is true iff the list is non-empty and every URI of it is selected |
| MediaAdapterModel.SelectedOf | app/src/main/java/com/recovereasy/app/MediaAdapter.kt:84-85 | `selectedItems` holds exactly the list items whose URI is selected, and no more items than the list |
| MediaAdapterModel.SelectedOfAppend | app/src/main/java/com/recovereasy/app/MediaAdapter.kt:84-85 | The filter works item by item in list order: it distributes over concatenation |
| MediaAdapterModel.NothingSelected | app/src/main/java/com/recovereasy/app/MediaAdapter.kt:73 | With nothing selected, as after `clearSelection`, `selectedItems` is empty |
| MediaAdapterModel.EverythingSelected | app/src/main/java/com/recovereasy/app/MediaAdapter.kt:84-85 | When every URI is selected, `selectedItems` is the whole list |
| MediaAdapterModel.SelectAllThenQuery | app/src/main/java/com/recovereasy/app/MediaAdapter.kt:75-85 | After select-all, `isAllSelected` holds iff the list is non-empty, and `selectedItems` is the whole list |
| MediaAdapterModel.AllSelectedMeansWholeList | app/src/main/java/com/recovereasy/app/MediaAdapter.kt:81-85 | When `isAllSelected` holds, `selectedItems` is the whole, non-empty list |
| MediaAdapterModel.Toggle | app/src/main/java/com/recovereasy/app/MediaAdapter.kt:48-50 | The listener makes the row's URI selected iff the box is checked, and no other URI changes |
| MediaAdapterModel.ToggleRoundTrip | app/src/main/java/com/recovereasy/app/MediaAdapter.kt:48-50 | Checking and then unchecking an unselected row restores the selection |
| MediaAdapterModel.RowLabel | app/src/main/java/com/recovereasy/app/MediaAdapter.kt:45 | The label is `[TRASH] ` plus the name exactly when the item is trashed, else just the name |
| MediaAdapterModel.DiffConsistent | app/src/main/java/com/recovereasy/app/MediaAdapter.kt:28-35 | Both callbacks are equivalences: reflexive, symmetric and transitive. Equal contents imply the same item. The same item with different contents differs in a field other than the URI |
| MediaAdapterModel.MediaAdapter.SubmitList | app/src/main/java/com/recovereasy/app/MediaAdapter.kt:20-22 | A new list replaces the current one and keeps the selection |
| MediaAdapterModel.MediaAdapter.Bind | app/src/main/java/com/recovereasy/app/MediaAdapter.kt:43-47 | A bound row shows the row label and is checked iff its URI is selected |
| MediaAdapterModel.MediaAdapter.SameItemBindsAlike | app/src/main/java/com/recovereasy/app/MediaAdapter.kt:29-31 | Two rows that diffing treats as the same item, because they share a URI, bind with the same checkbox state |
| MediaAdapterModel.MediaAdapter.OnCheckedChanged | app/src/main/java/com/recovereasy/app/MediaAdapter.kt:48-50 | The checkbox listener updates the selection by `Toggle` and leaves the list alone |
| MediaAdapterModel.MediaAdapter.OnRowClicked | app/src/main/java/com/recovereasy/app/MediaAdapter.kt:51 | A row click flips that row's URI in the selection |
| MediaAdapterModel.MediaAdapter.ClearSelection | app/src/main/java/com/recovereasy/app/MediaAdapter.kt:73 | The selection becomes empty |
| MediaAdapterModel.MediaAdapter.SetAllSelected | app/src/main/java/com/recovereasy/app/MediaAdapter.kt:75-79 | Selecting adds every URI of the current list and keeps earlier ones; deselecting empties the set |
| MediaAdapterModel.CalcSample | app/src/main/java/com/recovereasy/app/MediaAdapter.kt:105-113 | Returns the power of two at which the halved sizes first stop both reaching the request. Every smaller power passes the test. The result is 1 when a halved size is already below its request, and the doubling stays within `Int` |
| MediaAdapterModel.CalcSampleStopsForGood | app/src/main/java/com/recovereasy/app/MediaAdapter.kt:109 | With positive requests, once the loop test fails it fails for every larger power of two |
| MainActivityModel.PutSpec | app/src/main/java/com/recovereasy/app/MainActivity.kt:102 | `setItemChecked` keeps the check states sorted by position, sets that position, and leaves every other position alone |
| MainActivityModel.GetSpec | app/src/main/java/com/recovereasy/app/MainActivity.kt:101 | A position is checked iff the sparse array holds it with value true |
| MainActivityModel.SetRangeSpec | app/src/main/java/com/recovereasy/app/MainActivity.kt:102 | Setting positions `0..total-1` gives them the new value and leaves every other position as it was |
| MainActivityModel.SelectAllTwice | app/src/main/java/com/recovereasy/app/MainActivity.kt:97-103 | On a non-empty list a second select-all press flips "some row is unchecked" again |
| MainActivityModel.CheckedKeysMembers | app/src/main/java/com/recovereasy/app/MainActivity.kt:168-176 | The list built by `checkedIndices` holds exactly the keys whose value is true |
| MainActivityModel.CheckedKeysIncreasing | app/src/main/java/com/recovereasy/app/MainActivity.kt:168-176 | That list is strictly increasing, following the sparse array's key order |
| MainActivityModel.CheckedKeysSpec | app/src/main/java/com/recovereasy/app/MainActivity.kt:168-176 | Exactly the checked keys, increasing, and empty iff no entry is checked |
| MainActivityModel.FirstCheckedIsLeast | app/src/main/java/com/recovereasy/app/MainActivity.kt:159-166 | The first true entry's key is checked, no smaller position is checked, and it heads the checked list |
| MainActivityModel.Successes | app/src/main/java/com/recovereasy/app/MainActivity.kt:50-55 | The copy counter is at most the number of pending items; it equals it iff every copy succeeded, and is 0 iff none did |
| MainActivityModel.MainActivity.SetItems | app/src/main/java/com/recovereasy/app/MainActivity.kt:141-145 | The items become the given list, element for element, and the status reads "Found" with its size; check states and pending indices stay |
| MainActivityModel.MainActivity.ToggleSelectAll | app/src/main/java/com/recovereasy/app/MainActivity.kt:97-103 | With no rows nothing changes. Otherwise every row becomes checked if any row was unchecked, and unchecked if all were checked. Other positions and the rest of the state stay |
| MainActivityModel.MainActivity.FirstCheckedIndex | app/src/main/java/com/recovereasy/app/MainActivity.kt:159-166 | null iff nothing is checked; otherwise the least checked position, equal to the first of `checkedIndices` |
| MainActivityModel.MainActivity.CheckedIndices | app/src/main/java/com/recovereasy/app/MainActivity.kt:168-176 | null iff nothing is checked; otherwise exactly the checked keys in key order |
| MainActivityModel.MainActivity.OnCopyClicked | app/src/main/java/com/recovereasy/app/MainActivity.kt:118-123 | With nothing checked it shows "Select items" and leaves the pending indices; otherwise it stores the checked positions as pending |
| MainActivityModel.MainActivity.OnDestPicked | app/src/main/java/com/recovereasy/app/MainActivity.kt:36-61 | Pending indices are cleared first. A cancelled pick or no pending indices copies nothing. A stale position ends in the error toast. Otherwise the status reports the successes out of the pending count |
| MainActivityModel.ThumbSample | app/src/main/java/com/recovereasy/app/MainActivity.kt:249-253 | `sample` is the least power of two at which both dimensions divided by it are within the size; the loop terminates and stays within `Int` |
| MainActivityModel.ThumbStaysWithin | app/src/main/java/com/recovereasy/app/MainActivity.kt:251 | Once both dimensions fit at a power of two they fit at every larger one |

## Left out

- The Android platform is not part of this model. Each platform result is a parameter:
  - the MediaStore cursors, the volume list and `DocumentFile` listings;
  - the content resolver's streams and file descriptors;
  - `BitmapFactory` decoding and JPEG compression;
  - `MediaExtractor`/`MediaMuxer`;
  - `PdfRenderer` and `MediaMetadataRetriever`;
  - `renameDocument`;
  - `Os.fsync`.
- The probes (`probeImage`, `probeVideo`, `probeAudio`, `probePdf`, `probeText`, `probeZipLike`, `probeGeneric`) are boolean inputs. Only the choice among them is modelled.
- SHA-256 is treated as an opaque function of its input. The model records the bytes fed to the digest, since the digest is never read back or compared.
- `Text.Lower` lowercases ASCII letters only. Kotlin's `lowercase()` covers all of Unicode.
- `requestUntrash` is not modelled; it only fires a system intent.
- Coroutines, dispatcher switches, thumbnail job cancellation and permission checks are not modelled; they are concurrency and UI.
- The `LruCache` sizing and the bitmap decode after the sample loops are not modelled.
- `EngineCompat.kt` is not part of this model; it holds call-through wrappers.
- Remux internals are not modelled. `RemuxVideoMp4` takes the bytes the muxer writes and whether it succeeded as input.
- Output-side write failures are not modelled: `write`, `flush`, `fsync` and JPEG `compress`. Only read failures, entry-level zip failures, stream availability and `createFile` are modelled.
- `Destination.DestDir.SafeCopyWithDigest`: a rename onto a name that already exists is modelled as replacing that document; the provider's own conflict handling is not modelled.
- The MIME argument of `createFile` is not modelled, and `findFile(...).delete()` is assumed to succeed.
- The provider's own exclusion of trashed rows when no trash filter is given is not modelled. The model keeps every row of the cursor it is given.
- `Zip.SalvageEntries`: an archive with no entries is written as an empty archive. `ZipOutputStream`'s refusal to finish a zip with no entries is not modelled.
- The preview button's action (opening the first checked item) is not modelled; only `firstCheckedIndex`, which it uses, is.
- `MediaAdapterModel.CalcSample` requires a positive request and `MainActivityModel.ThumbSample` a positive size. The app calls them only with 128×128 and 96.
- `MainActivityModel.MainActivity.OnDestPicked` takes each copy's outcome as a function argument rather than calling `DestDir.SafeCopyWithDigest`. The copy model is in `destination.dfy`, and the toast for an exception other than a stale position is not modelled.
- The insertion order of `MediaAdapter`'s linked set is not modelled: the selection is a `set`, since no member exposes that order.
- `notifyDataSetChanged` and view recycling are not modelled.
- The engine, as written, does not read the output back to check it, and it has no deduplication, progress reporting or cancellation; the model adds none. These follow the code:
  - an image whose decode fails leaves the empty `_fixed.jpg` document behind;
  - a zip entry whose copy fails partway keeps the bytes written before the failure.
