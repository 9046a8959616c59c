# Verified cores of an iPod library manager

This project models the parts of the library manager whose mistakes would cost a user their
music library or their artwork, and proves what those parts keep. Nothing in it reads a device:
file contents are maps from names to bytes, and image codecs, file reads and device writes are
arbitrary, so every result holds whichever of them fail.

**Import cycles** (`ImportGraph`, `ImportCycles`, `Ordering`). The architecture check's Tarjan search, with its
mutable maps, stack and low links, reports exactly the strongly connected components of two or
more modules, for every finite graph, and the report does not depend on visiting order.

**Artwork database** (`ArtworkDbFormat`, `ArtworkDbWriter`, `ArtworkDbReader`, `ArtworkDbRoundTrip`,
`ArtworkDbContents`, `ArtworkDbLayout`, `ArtworkDbNesting`, `ArtworkDbAccepts`, `Mhlf`, `LenientParser`,
`LenientAgreement`, with `Bytes`, `Utf16`, `Text`, `IthmbPaths` and `ArtworkTypes`). One nested chunk format,
one printer and three readers. Every byte that is printed is at a stated offset and reads back exactly,
the strict reader is total on arbitrary bytes and accepts exactly the properly nested ones, and all
readers agree on printed files.

**Artwork rewrite** (`ArtworkKeys`, `ArtworkDecisions`, `IthmbPlanner`, `IthmbShards`, `IthmbWriter`,
`ArtworkPayloads`, `ArtworkGallery`, `ArtworkEntries`, `ImageSizes`, `ArtworkCommit`, `ArtworkRewrite`,
`ArtworkUpdate`, `ArtworkOutcome`, `ShardAccounting`, `ForeignNameExample`). From the tracks and their files
over the decision for each, the shard plan, the frames that are converted, kept, copied or salvaged, the
numbered shards and the new database, to the renames that put them in place. After the commit,
every reference in the new database reads back the intended bytes, and a track that keeps its artwork
finds its own; before its last rename the old database is still there.

**Library cache and quick writes** (`PlaylistRows`, `PlaylistNotes`, `PlaylistOverlay`, `PlaylistSaves`,
`PlaylistTags`, `CommitExact`, `CacheModel`, `CaptureContents`, `OrderlyCache`, `LibraryCache`,
`QuickWriteProtocol`, `QuickWriteImages`, `QuickWrite`). Staged edits with a revision, a playlist overlay, and the protocol
that captures, writes, and commits or tries again. Over every interleaving one revision names one
capture, and a quiet system has written what it shows.

**Storage report** (`StorageWalk`, `StorageReport`, `StorageMerged`, `TextTruncation`). The chunk walk over
untrusted bytes, the byte accounting built on it, and UTF-16 truncation that never splits a
character.

**SysInfo authority** (`SysInfoText`, `SysInfoAuthority`). Which source each field is believed
from, over any number of identification runs and through the file between them.

**Captions and rasters** (`NalInjection`, `PackedGeometry`). Splitting an H.264 stream and inserting
caption units; resolving packed raster sizes and packing pixels.

Code that changes state is a class or a method proved against a function of the old state, and
the properties are proved about those functions.

## What the code does not keep

Where a property fails of the code, the model keeps the code, names what fails, and proves exactly
when the property holds.

- A file name with a trailing NUL does not survive the database (`NameRecovered`).
- Kept frames are protected per format only: a frame kept in the file that is named like the first
  shard of another format loses its bytes exactly when that format gets new bytes and keeps nothing
  there itself (`ForeignNameReplacedIff`; `KeptFrameLost` is one such request).
- Tracks that show the same frames get the width, height and padding of the first of them, since the
  key that joins them leaves these out (`OwnArtSurvives`; `GeometryIgnored` is an example).
- Committing playlists drops staged master rows, moves regular playlists that count as podcasts,
  and deletes untagged rows; `CommitKeepsAllIff`, `CommitKeepsViewExactly` and
  `UntaggedRowLostIff` say exactly when it keeps what was shown (`MasterRowDropped` and
  `PodcastRowMoves` show what happens otherwise).
- Editing a detached copy of a track writes a change that the live library lacks
  (`CommitTracksIff`, `DetachedEditLost`); an edit without changes makes a write pending without a
  new revision (`EmptyEditPendsIff`).
- A failed write, and any write with artwork, drops the edits staged meanwhile (`EditSurvivesIff`).
- The rows of a storage report add up exactly when the chunks under each label have room for their
  contents (`FitsIff`); a child that starts inside its parent and ends behind it breaks that
  (`OverrunReport`).
- A SysInfo value of spaces alone can leave nothing in the file, and what was seen before is then
  forgotten (`BestOfAllIff`, `BlankIsForgotten`).
- An H.264 unit may be empty, and then the insertion fails (`EmptyUnitIff`, `InjectedIff`).

## Model

| member | source | states |
|---|---|---|
| ImportCycles.Tarjan.StrongConnect | scripts/check_architecture.py:655-678 | from any valid state, numbers the node and everything first reached from it, leaves earlier low links alone, and either restores the stack or leaves a lower node on it that the node reaches |
| ImportCycles.Tarjan.Visit | scripts/check_architecture.py:662-667 | after one neighbour the low link accounts for every neighbour visited so far |
| ImportCycles.Tarjan.PopComponent | scripts/check_architecture.py:670-676 | pops exactly the stack from the node up and lists those modules, each once |
| ImportCycles.Tarjan.Conclude | scripts/check_architecture.py:669-678 | what is popped when low link and number agree is a whole component; otherwise the stack stays |
| ImportCycles.DetectImportCycles | scripts/check_architecture.py:645-684 | terminates on every finite graph and returns a report: exactly the components with two or more modules, each once, members and list in order |
| ImportCycles.ReportTogether | scripts/check_architecture.py:645-684 | two different modules are listed together exactly when each reaches the other |
| ImportCycles.ReportDisjoint | scripts/check_architecture.py:645-684 | no module is in two listed cycles |
| ImportCycles.ReportUnique | scripts/check_architecture.py:680-684 | a graph has one report only, whatever order its rows and imports are visited in |
| IthmbPaths.FileIndexInverts | src/iopenpod/artworkdb_writer/artwork_writer.py:87-97 | parsing the index out of a shard name gives back the index it was built from |
| IthmbPaths.SignedNumbers | src/iopenpod/artworkdb_writer/artwork_writer.py:87-97 | the index part is read as a number with an optional sign |
| IthmbPaths.UnderscoredNumber | src/iopenpod/artworkdb_writer/artwork_writer.py:87-97 | single underscores between its digits make no difference, so that a name that is not canonical can carry an index |
| IthmbPaths.MisplacedUnderscore | src/iopenpod/artworkdb_writer/artwork_writer.py:87-97 | underscores at either end, or two of them, make it no index |
| IthmbPaths.FilenameInjective | src/iopenpod/artworkdb_shared/ithmb_paths.py:8-9 | shards of different formats or indices never share a name |
| IthmbPaths.NormalizeShard | src/iopenpod/artworkdb_shared/ithmb_paths.py:12-18 | a shard name is left alone by normalization, for any format |
| IthmbPaths.NameRecovered | src/iopenpod/artworkdb_writer/artworkdb_chunks.py:79-122 | the reader gets back every file name the writer stores, exactly when the stored name does not end in NUL |
| ArtworkDbWriter.WriteMhodString | src/iopenpod/artworkdb_writer/artworkdb_chunks.py:67-76 | succeeds exactly when both lengths fit their words, and then gives the encoded string chunk |
| ArtworkDbWriter.WriteMhni | src/iopenpod/artworkdb_writer/artworkdb_chunks.py:79-122 | succeeds exactly when every field fits, negative paddings being written as zero, and then gives the name chunk with its file name child |
| ArtworkDbWriter.WriteMhii | src/iopenpod/artworkdb_writer/artworkdb_chunks.py:136-155 | one item with its formats in increasing order, or an error exactly when something does not fit |
| ArtworkDbWriter.WriteMhfd | src/iopenpod/artworkdb_writer/artworkdb_chunks.py:212-232 | the file header with the number of datasets and the copied reference fields, then the datasets, or an error exactly when something does not fit |
| ArtworkDbWriter.BuildArtworkDb | src/iopenpod/artworkdb_writer/artworkdb_chunks.py:235-247 | builds the bytes of the nested chunk format, whose every field is at the offset that `RootFields`, `FileInfoFields`, `ItemFields` and `FrameFields` read it from, and fails exactly when a value does not fit its field or a key is missing |
| ArtworkDbLayout.RootFields | src/iopenpod/artworkdb_writer/artworkdb_chunks.py:212-247 | in a built file: 132 bytes of root with its length at 8, 2 at 16 and 48, three datasets at 20, the next image id at 28, and the bytes 32 to 48 and 60 to 68 of the reference |
| ArtworkDbLayout.DatasetsAt | src/iopenpod/artworkdb_writer/artworkdb_chunks.py:201-247 | the three datasets stand one after the other from byte 132 to the end: the images, no albums, the files |
| ArtworkDbLayout.FileInfoFields | src/iopenpod/artworkdb_writer/artworkdb_chunks.py:180-198 | the k-th file entry stands 124 bytes after the one before it, with the k-th format id at 16 and the image size of that format at 20 |
| ArtworkDbLayout.ItemFields | src/iopenpod/artworkdb_writer/artworkdb_chunks.py:136-168 | the k-th image item has its number of formats at 12, its image id at 16, its track id in eight bytes at 20 and the source size at 48 |
| ArtworkDbLayout.FrameFields | src/iopenpod/artworkdb_writer/artworkdb_chunks.py:79-155 | the j-th frame of the k-th item, by increasing format id, has the format, offset, size, paddings, height and width of its payload at 16 to 36, the size again at 40, and its file name in UTF-16 behind its header |
| ArtworkDbLayout.MhifLaid | src/iopenpod/artworkdb_writer/artworkdb_chunks.py:180-188 | every one of the 124 bytes of a file entry: tag, lengths, id and size, and zeros |
| ArtworkDbLayout.MhniLaid | src/iopenpod/artworkdb_writer/artworkdb_chunks.py:79-122 | every byte of the header of an image name: its fields, and zeros |
| ArtworkDbLayout.StringLaid | src/iopenpod/artworkdb_writer/artworkdb_chunks.py:67-76 | every byte of a file name: its length, the encoding, the text, and zeros up to a multiple of four |
| ArtworkDbLayout.TypedLaid | src/iopenpod/artworkdb_writer/artworkdb_chunks.py:125-209 | every byte of the header of a container or a dataset: tag, lengths and type, and zeros |
| ArtworkDbLayout.LittleEndianRead | src/iopenpod/artworkdb_writer/artworkdb_chunks.py:67-247 | the words read are little-endian |
| ArtworkDbReader.FindName | src/iopenpod/artworkdb_writer/artworkdb_chunks.py:448-475 | the first file name among the children, stopping at the first chunk that is not one or does not fit |
| ArtworkDbReader.ParseItem | src/iopenpod/artworkdb_writer/artworkdb_chunks.py:362-440 | one image item: rejected, empty, or its usable frames, the last one of each format |
| ArtworkDbReader.ReadItemList | src/iopenpod/artworkdb_writer/artworkdb_chunks.py:309-348 | the image items of a dataset in order, rejecting on the first that does not fit |
| ArtworkDbReader.ReadExistingArtwork | src/iopenpod/artworkdb_writer/artworkdb_chunks.py:250-352 | on any bytes either returns or rejects, reading nothing outside the buffer; a missing file is an empty database |
| ArtworkDbRoundTrip.DatabaseRead | src/iopenpod/artworkdb_writer/artworkdb_chunks.py:235-352 | reading a built database back gives exactly the entries that were written, in order |
| ArtworkDbContents.EntryReadBack | src/iopenpod/artworkdb_writer/artworkdb_chunks.py:235-440 | each reusable entry reads back with its image id, track id, source size and, per format, the offset, size, width, height, padding and file name written |
| ArtworkDbContents.ExactlyWritten | src/iopenpod/artworkdb_writer/artworkdb_chunks.py:235-352 | an image id is in the database that is read exactly when it was written |
| ArtworkDbNesting.AcceptedIsNested | src/iopenpod/artworkdb_writer/artworkdb_chunks.py:263-352 | on arbitrary bytes, accepted datasets tile the file inside its declared length, items tile part of their dataset, and objects part of their item, each step at least a minimal header |
| ArtworkDbAccepts.AcceptedIff | src/iopenpod/artworkdb_writer/artworkdb_chunks.py:250-440 | on any bytes at all: the reader accepts exactly those whose datasets, image items and objects are chunks with the right tags that follow one another, as many as their parent says, each with a whole header and inside its parent; and whose thumbnails hold a whole image name |
| ArtworkDbAccepts.FrameKeptIff | src/iopenpod/artworkdb_writer/artworkdb_chunks.py:362-440 | on any bytes: a frame is kept exactly when it has bytes and its file is there; its fields are those at their offsets, a side being at least one and a negative padding none |
| ArtworkDbAccepts.NameAmongOthers | src/iopenpod/artworkdb_writer/artworkdb_chunks.py:448-475 | a frame's file name is the first among its objects, whatever objects come before it |
| ArtworkDbAccepts.TextOf | src/iopenpod/artworkdb_writer/artworkdb_chunks.py:443-475 | a string is as many bytes as it says or its chunk has, in UTF-16 or UTF-8 as it is marked, without trailing NULs |
| ArtworkDbAccepts.LastEntryKept | src/iopenpod/artworkdb_writer/artworkdb_chunks.py:337-345 | of the items with one image id the last is kept |
| ArtworkDbAccepts.LastFrameKept | src/iopenpod/artworkdb_writer/artworkdb_chunks.py:396-438 | of the frames of one format in an item the last is kept |
| Mhlf.ExtractFormatIds | src/iopenpod/artworkdb_shared/mhlf.py:9-46 | total on any bytes; gives the ids of the file list entries that lie in their dataset |
| Mhlf.IdsOfWholeFiles | src/iopenpod/artworkdb_shared/mhlf.py:28-46 | on any bytes: the ids of a list are those of its whole entries that follow one another, up to the first that is not whole |
| Mhlf.FormatIdsRead | src/iopenpod/artworkdb_shared/mhlf.py:9-46 | on every built database, exactly the format ids passed in, in order |
| LenientParser.ParseChildren | src/iopenpod/artworkdb_parser/mhii_parser.py:44-58 | the child loop gives the chunks in order, each starting where the one before says, or raises with the first that raises |
| LenientParser.Parse | src/iopenpod/artworkdb_parser/chunk_parser.py:5-66 | dispatches every tag as the mutually recursive parsers do, for any nesting limit, on any bytes |
| LenientParser.ParsedKinds | src/iopenpod/artworkdb_parser/chunk_parser.py:5-66 | whatever the bytes are, a parsed file has only datasets of the three kinds, an image only containers, and an image name only objects |
| LenientParser.OnlyContainers | src/iopenpod/artworkdb_parser/mhii_parser.py:44-58 | an image keeps each container among its objects as often as it occurs, and no other object |
| LenientAgreement.LenientReads | src/iopenpod/artworkdb_parser/mhfd_parser.py:6-61 | parses every built database, within seven nested calls, to its images with every field and file name |
| LenientAgreement.ReadersAgree | src/iopenpod/artworkdb_parser/chunk_parser.py:5-66 | on every built database the strict reader's entries are the lenient parser's images in the same order with the same fields, less frames whose files are missing |
| IthmbPlanner.SelectRewritePlan | src/iopenpod/artworkdb_writer/artwork_writer.py:100-175 | per format the lowest shard with room for all new frames, else the lowest with room for the largest; raises exactly when some new frame alone exceeds the shard budget |
| IthmbPlanner.PlannedRoom | src/iopenpod/artworkdb_writer/artwork_writer.py:134-173 | the planned shard has room for all new frames of its format whenever any shard up to the one after the last has, and is the lowest that has; otherwise it is the lowest with room for the largest |
| IthmbPlanner.NameInUseIff | src/iopenpod/artworkdb_writer/artwork_writer.py:105-113 | an index is in use exactly when it is at least one and some frame of the format is in a file with that index, and the name is that of the last such frame |
| IthmbPlanner.CollectPreserved | src/iopenpod/artworkdb_writer/artwork_writer.py:115-132 | bytes kept in each shard, each preserved asset counted once |
| IthmbPlanner.HopelessIffTooLarge | src/iopenpod/artworkdb_writer/artwork_writer.py:154-173 | the planner raises for a format exactly when one new frame alone exceeds the shard budget, however full the shards are |
| IthmbPlanner.PlannedFits | src/iopenpod/artworkdb_writer/artwork_writer.py:142-173 | when there is a plan every new frame fits a shard |
| IthmbPlanner.NameAtIndex | src/iopenpod/artworkdb_writer/artwork_writer.py:144-152 | the name of the planned shard parses back to the planned index, canonical or not |
| IthmbWriter.ShardWriter.NextUnprotected | src/iopenpod/artworkdb_writer/artwork_writer.py:1292-1302 | terminates and gives the first later index whose name is not protected |
| IthmbWriter.ShardWriter.OpenNext | src/iopenpod/artworkdb_writer/artwork_writer.py:1292-1308 | opens a new empty shard past every earlier one, passing over protected names only |
| IthmbWriter.ShardWriter.WritePayload | src/iopenpod/artworkdb_writer/artwork_writer.py:1310-1321 | appends the frame to the newest shard and returns where it is; no earlier frame moves |
| IthmbWriter.ShardWriter.WriteAsset | src/iopenpod/artworkdb_writer/artwork_writer.py:1334-1349 | one frame per format of the asset, none written twice, each at the location returned |
| IthmbWriter.ShardWriter.WriteEntries | src/iopenpod/artworkdb_writer/artwork_writer.py:1327-1349 | every entry's frames are where its locations say, each asset's frame of a format is stored once, and nothing but temporaries changes |
| IthmbShards.FrameInShard | src/iopenpod/artworkdb_writer/artwork_writer.py:1310-1321 | every frame ever written reads back from its shard, whatever was written after it |
| IthmbShards.WithinBudgetIff | src/iopenpod/artworkdb_writer/artwork_writer.py:1310-1321 | every shard is within the budget exactly when every frame is, in any order of entries |
| IthmbShards.OnlyFirstShard | src/iopenpod/artworkdb_writer/artwork_writer.py:1292-1321 | if all frames of a format fit one shard and the first name is free, that shard alone is written |
| IthmbShards.NextOnlyWhenFull | src/iopenpod/artworkdb_writer/artwork_writer.py:1310-1321 | over any sequence of writes a format goes on to another shard only with a frame that does not fit the one before |
| ArtworkCommit.CollectRenames | src/iopenpod/artworkdb_writer/artwork_writer.py:1417-1421 | each temporary once, shards in key order, the database last |
| ArtworkCommit.PendingArtworkWrite.Commit | src/iopenpod/artworkdb_writer/artwork_writer.py:234-244 | performs a prefix of the renames, all of them unless the device fails, and is committed exactly in the latter case |
| ArtworkCommit.PendingArtworkWrite.Abort | src/iopenpod/artworkdb_writer/artwork_writer.py:246-256 | removes the temporaries that can be removed and no finished file |
| ArtworkCommit.AfterSpec | src/iopenpod/artworkdb_writer/artwork_writer.py:234-244 | each target holds its temporary's bytes and every other finished file is untouched |
| ArtworkCommit.DatabaseLast | src/iopenpod/artworkdb_writer/artwork_writer.py:234-244 | no prefix of the commit shows the new database before all of its shards |
| ArtworkCommit.UntouchedIff | src/iopenpod/artworkdb_writer/artwork_writer.py:1417-1421 | the commit leaves a file alone exactly when it is neither the database nor a shard that was written |
| ArtworkRewrite.PrepareRewrite | src/iopenpod/artworkdb_writer/artwork_writer.py:1279-1421 | places every frame, and then builds the database from those locations and the renames for both, or raises exactly when a value does not fit the database |
| ArtworkRewrite.RewriteReadsBack | src/iopenpod/artworkdb_writer/artwork_writer.py:1279-1421 | after the commit, reading the new database and then the device gives, for each entry and format, the bytes encoded for it or the bytes it had before |
| ArtworkRewrite.ProtectedLeftAlone | src/iopenpod/artworkdb_writer/artwork_writer.py:1214-1219 | a frame left in place keeps its file, if the name is not a shard name of another format |
| ArtworkRewrite.ShardReplacedIff | src/iopenpod/artworkdb_writer/artwork_writer.py:1417-1421 | the commit replaces the file named like a shard exactly when that shard was written |
| ArtworkRewrite.ForeignNameReplacedIff | src/iopenpod/artworkdb_writer/artwork_writer.py:1214-1219 | protection is per format: the file named like the first shard of a format is replaced exactly when some entry has new bytes for the format and no frame of the format itself stays in that file, whatever other formats keep there |
| ForeignNameExample.KeptFrameLost | src/iopenpod/artworkdb_writer/artwork_writer.py:1214-1219 | one request in which a kept frame keeps its reference and loses its bytes to another format |
| ArtworkDecisions.CollectDecisions | src/iopenpod/artworkdb_writer/artwork_writer.py:600-723 | the decision loop with its song index and its memory of extracted files gives the decisions of the specification, in dictionary order |
| ArtworkDecisions.DecidedIff | src/iopenpod/artworkdb_writer/artwork_writer.py:627-721 | exactly when a track keeps its artwork, gets a new one from its file, or is cleared, by its hint, its existing entry and its file, and with which asset |
| ArtworkDecisions.LastDecides | src/iopenpod/artworkdb_writer/artwork_writer.py:600-723 | a track's decision is that of the last track with its id, from its own file, although files are looked into once for all paths to them |
| ArtworkDecisions.OneDecision | src/iopenpod/artworkdb_writer/artwork_writer.py:600-723 | there is one decision for each nonzero track id, in an order without repetition |
| ArtworkDecisions.LinkedIff | src/iopenpod/artworkdb_writer/artwork_writer.py:339-365 | a track's entry is the last that names the track, or, when none does, the one that the track's first link names |
| ArtworkKeys.PreservedAssetRef | src/iopenpod/artworkdb_writer/artwork_writer.py:585-597 | the loop builds the key of an entry's frames in increasing order of their formats |
| ArtworkKeys.SameAssetIff | src/iopenpod/artworkdb_writer/artwork_writer.py:585-597 | two entries share an asset exactly when they have the same formats, each in the same bytes of the same file: the text of the key determines all of its parts |
| ArtworkKeys.GeometryIgnored | src/iopenpod/artworkdb_writer/artwork_writer.py:585-597 | two entries that show the same bytes in different widths share an asset |
| ArtworkPayloads.CollectRewriteTargets | src/iopenpod/artworkdb_writer/artwork_writer.py:512-551 | per asset the required formats and every known one any of its entries has, and the unknown ones it keeps |
| ArtworkPayloads.TargetsIncludeRequired | src/iopenpod/artworkdb_writer/artwork_writer.py:533-540 | the targets of every live asset include every required format |
| ArtworkPayloads.ConvertOne | src/iopenpod/artworkdb_writer/artwork_writer.py:771-816 | every target that can be encoded, or nothing when a required one cannot |
| ArtworkPayloads.ConvertNewPcArt | src/iopenpod/artworkdb_writer/artwork_writer.py:740-828 | each new asset's conversion of the last image given for it; assets that cannot be completed are left out |
| ArtworkPayloads.DecodeAny | src/iopenpod/artworkdb_writer/artwork_writer.py:942-961 | an image decoded from some whole known frame, or none exactly when no frame gives one |
| ArtworkPayloads.LoadPreserved | src/iopenpod/artworkdb_writer/artwork_writer.py:899-1000 | one kept asset: frames in place or copied, missing ones re-encoded from another frame, or dropped |
| ArtworkPayloads.LoadPreservedArt | src/iopenpod/artworkdb_writer/artwork_writer.py:831-1002 | each kept asset from the first entry that has it |
| ArtworkPayloads.PreservedFrame | src/iopenpod/artworkdb_writer/artwork_writer.py:899-917 | a kept frame stays in place, or is copied byte for byte with its geometry when its shard is rewritten |
| ArtworkPayloads.GalleryComplete | src/iopenpod/artworkdb_writer/artwork_writer.py:771-1002 | an asset that is kept or converted has a payload for every required format, whichever reads, decodes or encodes failed |
| ArtworkGallery.TargetsIff | src/iopenpod/artworkdb_writer/artwork_writer.py:512-551 | a format is a target of an asset exactly when it is required, or known and one of the asset's entries has it |
| ArtworkGallery.KeptFrame | src/iopenpod/artworkdb_writer/artwork_writer.py:831-917 | in terms of the request: a sound frame of the first entry that keeps an asset stays exactly where it is, or is copied with its bytes and geometry when new frames go into its file |
| ArtworkGallery.UnknownFrame | src/iopenpod/artworkdb_writer/artwork_writer.py:512-551 | a frame of an unknown format stays exactly where the last entry of the asset has it |
| ArtworkGallery.SalvagedFrame | src/iopenpod/artworkdb_writer/artwork_writer.py:942-1000 | a frame that could not be carried over is encoded from the image of one whole known frame of the asset |
| ArtworkGallery.WholeAssetKept | src/iopenpod/artworkdb_writer/artwork_writer.py:831-1002 | an asset whose every target can be carried over is not dropped |
| ArtworkGallery.SalvagedAssetKept | src/iopenpod/artworkdb_writer/artwork_writer.py:919-1000 | nor is one of which some frame decodes to an image that can be encoded for every required format |
| ArtworkGallery.NewFrames | src/iopenpod/artworkdb_writer/artwork_writer.py:740-828 | a new asset has exactly the targets that its last image can be encoded for, each with that encoding, and that image's size |
| ArtworkGallery.NewAssetIff | src/iopenpod/artworkdb_writer/artwork_writer.py:771-828 | a new asset is there exactly when its last image loads and can be encoded for every required format |
| ArtworkEntries.AssembleEntries | src/iopenpod/artworkdb_writer/artwork_writer.py:1158-1189 | one entry per live track in order, with consecutive fresh ids and all of its asset's frames; `LiveExactly` says which tracks are live |
| ArtworkEntries.LiveAt | src/iopenpod/artworkdb_writer/artwork_writer.py:1162-1174 | the live tracks are those whose decision shows an asset that has frames; `LiveExactly` says it by the kind of decision |
| ArtworkEntries.LiveExactly | src/iopenpod/artworkdb_writer/artwork_writer.py:1162-1174 | a track is live with an asset exactly when it has an id and a decision that is not to clear its artwork, with that asset, and the asset has frames |
| ArtworkEntries.CollectFormats | src/iopenpod/artworkdb_writer/artwork_writer.py:1199-1219 | the formats in use, those written, and per format exactly the files whose frames stay |
| ImageSizes.MostCommon | src/iopenpod/artworkdb_writer/artwork_writer.py:1258-1265 | of the observed sizes the one that occurs most often, and of those the one met first |
| ImageSizes.OneMostCommon | src/iopenpod/artworkdb_writer/artwork_writer.py:1258-1265 | there is only one such size |
| ImageSizes.ObservedSizes | src/iopenpod/artworkdb_writer/artwork_writer.py:1255-1275 | each format in use has the most common size of its frames that have bytes, and a format of which none has any has no size |
| ArtworkUpdate.WriteArtworkDb | src/iopenpod/artworkdb_writer/artwork_writer.py:1005-1421 | the composition: plan made for the new payloads, kept ones loaded against it, entries assembled, image sizes observed, shards and database prepared, protection exactly the kept files; raises only when the device has no formats, a new frame fits no shard, or a value does not fit the database |
| ArtworkUpdate.TrackHasEntryIff | src/iopenpod/artworkdb_writer/artwork_writer.py:1162-1189 | a track has an entry in the new database exactly when it is among the tracks, has an id and a decision to make or keep artwork, new, existing or as a fallback, and its asset has frames |
| ArtworkUpdate.EntryOfTrack | src/iopenpod/artworkdb_writer/artwork_writer.py:1174-1189 | that entry has exactly the formats of the decision's asset, and the size of its source image |
| ArtworkUpdate.EveryEntryComplete | src/iopenpod/artworkdb_writer/artwork_writer.py:1116-1189 | every entry of the new database has a frame for every format the device requires |
| ArtworkUpdate.UpdateReadsBack | src/iopenpod/artworkdb_writer/artwork_writer.py:1005-1421 | each live track's entry reads back with every format of its asset and the intended bytes |
| ArtworkUpdate.PreservedArtSurvives | src/iopenpod/artworkdb_writer/artwork_writer.py:831-1421 | art that is kept reads back from the new database with the bytes and geometry the old reference gave |
| ArtworkOutcome.OwnArtSurvives | src/iopenpod/artworkdb_writer/artwork_writer.py:600-1421 | from the tracks to the device: a track that keeps its artwork finds through its own new entry the bytes its own old entry led to, also where tracks share them, unless their shard is rewritten and they could not be read; with its own geometry exactly when the first track to keep those frames had the same |
| ArtworkOutcome.OwnImageUsed | src/iopenpod/artworkdb_writer/artwork_writer.py:600-828 | a track whose artwork is made anew gets it from the image of its own file, if no two images have one digest |
| ArtworkOutcome.LosesArtworkIff | src/iopenpod/artworkdb_writer/artwork_writer.py:600-1189 | a track that had artwork has no entry exactly when it was to be cleared, its file is there without an image and it was not to be kept, or its asset could not be kept or made |
| ArtworkOutcome.AssetsSeparate | src/iopenpod/artworkdb_writer/artwork_writer.py:585-721 | no asset is both kept and made anew, and every kept entry is one of the device |
| ShardAccounting.WrittenWithinPlan | src/iopenpod/artworkdb_writer/artwork_writer.py:134-152 | every byte written for a planned format is a kept or new byte the planner counted, when nothing was re-encoded |
| ShardAccounting.PlannedShardOnly | src/iopenpod/artworkdb_writer/artwork_writer.py:142-153 | when kept and new frames fit the planned shard under its canonical name and nothing was re-encoded, exactly that shard is written |
| PlaylistOverlay.StageOnce | src/iopenpod/application/runtime.py:1072-1092 | saving keeps at most one staged row for each playlist of each dataset |
| PlaylistOverlay.SavedRows | src/iopenpod/application/runtime.py:1045-1092 | staged rows keep their id and are canonical, so that committing has nothing left to complete |
| PlaylistSaves.SaveShows | src/iopenpod/application/runtime.py:1045-1092 | after a save, each saved id and dataset has, staged and shown, the content of the last row saved for it, child count included, and every other key what it had |
| PlaylistSaves.ShownByKey | src/iopenpod/application/runtime.py:1007-1040 | what is shown at an id and dataset is the staged row for it, or else the first row of that bucket with the id |
| PlaylistSaves.SavedField | src/iopenpod/application/runtime.py:1045-1092 | every staged row has the values of the row that was saved |
| PlaylistSaves.EditField | src/iopenpod/application/runtime.py:261-294 | an edit of a merged row is laid over the row at each origin: the edit wins, and what it does not have comes from that row |
| PlaylistSaves.DisplaySaved | src/iopenpod/application/runtime.py:261-294 | such an edit is saved once at each distinct usable origin |
| PlaylistNotes.UsableIff | src/iopenpod/application/runtime.py:193-236 | the usable origins are those of the three datasets, each under its own key or the canonical one |
| PlaylistNotes.EditNotes | src/iopenpod/application/runtime.py:261-294 | the source and description of such an edit follow from the row at the origin with the edit laid over it |
| PlaylistSaves.MirroredIff | src/iopenpod/application/runtime.py:1057-1071 | a new playlist is saved to both regular datasets exactly when the device has the second one and it is neither smart nor a podcast |
| PlaylistNotes.NewNotes | src/iopenpod/application/runtime.py:1057-1071 | a mirrored row is tagged with its dataset and key, and has a source and its description noted |
| PlaylistSaves.NamedId | src/iopenpod/application/runtime.py:1048-1053 | a saved row keeps its id, or gets the new one if it has none |
| PlaylistSaves.NamedField | src/iopenpod/application/runtime.py:1048-1053 | and keeps every field but its notes |
| PlaylistSaves.SaveRefusedIff | src/iopenpod/application/runtime.py:1045-1075 | a save is refused exactly for an edit without a known dataset whose id lives at no place or at several |
| PlaylistNotes.KnownOriginIff | src/iopenpod/application/runtime.py:381-440 | an edit that does not say where it belongs is put where its id lives, exactly when that is one place; any other row is taken as it is |
| PlaylistNotes.FoundLiveIff | src/iopenpod/application/runtime.py:239-258 | what an edit is laid over is the first live row under the origin's key with its id that is tagged with the origin's dataset or not at all |
| PlaylistNotes.ShownNotes | src/iopenpod/application/runtime.py:367-378 | a shown row has its bucket's dataset, key and source, its description under both names, and every other field as it was |
| PlaylistNotes.DescribedNotes | src/iopenpod/application/runtime.py:367-368 | which text counts as the description, and that both names then have it |
| PlaylistNotes.TargetIff | src/iopenpod/application/runtime.py:1224-1237 | which of the three buckets a row is filed in, by its dataset, source, type and podcast flag |
| PlaylistOverlay.LayAt | src/iopenpod/application/runtime.py:1023-1038 | laying a staged row on top changes what is shown for its own id and dataset only |
| PlaylistOverlay.CommitMatchesOverlay | src/iopenpod/application/runtime.py:1196-1264 | the committed library is the overlay, with new rows counted under the dataset they are filed in |
| PlaylistTags.TagView | src/iopenpod/application/runtime.py:1007-1040 | the view with new rows counted as filed is the library with the rows as they will be filed on top, when each new row has an id of its own |
| PlaylistOverlay.CommitKeepsView | src/iopenpod/application/runtime.py:1196-1264 | committing keeps, for every id and dataset, the content that was shown |
| PlaylistOverlay.CommitKeepsViewIff | src/iopenpod/application/runtime.py:1212-1264 | for one edited row among tagged rows, exactly when it does: a master row must already be shown, any other must not be a regular playlist that counts as a podcast |
| CommitExact.CommitKeepsAllIff | src/iopenpod/application/runtime.py:1212-1264 | for any number of staged rows, one for each key, exactly when it does: each of them is such a row |
| CommitExact.CommitKeepsViewExactly | src/iopenpod/application/runtime.py:1212-1264 | for one row over bucket rows with any tags or none and any ids, exactly when it does, bucket by bucket: which row is replaced or removed, and what the bucket then shows |
| PlaylistOverlay.LayOnce | src/iopenpod/application/runtime.py:1023-1038 | no playlist is shown twice when no bucket has one twice |
| CommitExact.UntaggedRowLostIff | src/iopenpod/application/runtime.py:1245-1259 | where bucket rows carry their own dataset or none, exactly when it does: no other bucket has an untagged row with the id, which would be deleted |
| PlaylistOverlay.PodcastRowMoves | src/iopenpod/application/runtime.py:1234-1237 | a regular playlist with the podcast flag is filed with the podcasts and vanishes from the regular ones |
| PlaylistOverlay.MasterRowDropped | src/iopenpod/application/runtime.py:1213-1215 | a staged master row is shown while pending and dropped by the commit |
| LibraryCache.ItunesDbCache.UpdateTrackFlags | src/iopenpod/application/runtime.py:1268-1286 | stages every field of every track with an id, keeping the oldest original, and bumps the revision exactly when a field was staged |
| LibraryCache.ItunesDbCache.UpdateTrackArtwork | src/iopenpod/application/runtime.py:1348-1370 | stages the image for every track with an id and bumps the revision exactly when there is one |
| LibraryCache.ItunesDbCache.GetPlaylists | src/iopenpod/application/runtime.py:1007-1040 | the three buckets retagged, with the staged rows on top |
| LibraryCache.ItunesDbCache.SaveUserPlaylist | src/iopenpod/application/runtime.py:1045-1092 | stages one row per target and bumps the revision, or refuses and changes nothing; `SaveShows` says what is then staged and shown under every key |
| LibraryCache.ItunesDbCache.RemoveUserPlaylist | src/iopenpod/application/runtime.py:1103-1165 | removes every matching staged and committed row unless one is a master, bumping the revision exactly when a row went |
| PlaylistSaves.RemoveExactly | src/iopenpod/application/runtime.py:1103-1165 | a removal takes exactly the rows with the id, in the dataset if one is given, staged and committed, and does nothing if one of them is a master |
| LibraryCache.ItunesDbCache.RenameMasterPlaylist | src/iopenpod/application/runtime.py:1167-1182 | retitles the masters of two buckets |
| PlaylistSaves.RenameExactly | src/iopenpod/application/runtime.py:1167-1182 | the masters of the two regular buckets have the new title, and nothing else has changed |
| LibraryCache.ItunesDbCache.CommitUserPlaylists | src/iopenpod/application/runtime.py:1196-1264 | files every staged row in turn and leaves none staged |
| LibraryCache.ItunesDbCache.CaptureForWrite | src/iopenpod/application/jobs.py:1915-1982 | the library, what is staged and the revision that names them, as `CapturedField` and `CapturedRest` say field by field |
| CaptureContents.CapturedField | src/iopenpod/application/jobs.py:1915-1982 | each captured track has every staged value of its id, if it is the last record with it, and otherwise the live value, without the path of a pending image |
| CaptureContents.CapturedRest | src/iopenpod/application/runtime.py:1423-1434 | a capture hands over exactly the staged images, and shows each playlist as the library does |
| CaptureContents.FlagsStaged | src/iopenpod/application/runtime.py:1268-1287 | after an edit each edited record has the new values, they are staged for its id, and nothing else has changed |
| CaptureContents.FlagsOriginal | src/iopenpod/application/runtime.py:1268-1287 | what is staged as a field's original is what the first edited record had before it was first staged |
| CaptureContents.ArtStaged | src/iopenpod/application/runtime.py:1348-1370 | after an image is set it is staged for the id of every target and carried by its record, and nothing else has changed |
| LibraryCache.ItunesDbCache.CommitQuickWriteState | src/iopenpod/application/runtime.py:1439-1456 | commits exactly when the revision is the expected one, and otherwise changes nothing |
| CacheModel.RevisionStep | src/iopenpod/application/runtime.py:1045-1456 | every operation either raises the revision or leaves a capture the same |
| CacheModel.RevisionNamesOneCapture | src/iopenpod/application/runtime.py:1423-1456 | over any sequence of operations one revision never names two captures |
| CacheModel.CommitTracksIff | src/iopenpod/application/runtime.py:1439-1456 | the tracks written are the live ones after the commit exactly when every staged change is in the live row it was captured for |
| CacheModel.ApplyFaithful | src/iopenpod/application/runtime.py:1268-1456 | every operation on live rows that leaves ids alone keeps that so |
| CacheModel.DetachedEditLost | src/iopenpod/application/runtime.py:1271-1286 | editing a copy of a live row writes a change that the live cache does not have |
| CacheModel.EmptyEditPendsIff | src/iopenpod/application/runtime.py:1268-1287 | an edit makes a write pending under an old revision exactly when it changes nothing, for a track with an id, and nothing was pending |
| QuickWrite.QuickWriteWorker.Complete | src/iopenpod/application/jobs.py:2037-2071 | a successful write without artwork commits at its revision and reports whether newer changes are pending; any other reloads |
| QuickWrite.QuickWriteController.WorkerEnds | src/iopenpod/application/jobs.py:2037-2071 | a finished worker leaves the cache, what was written and its result as the protocol says |
| QuickWrite.QuickWriteController.StartQuickWrite | src/iopenpod/application/controllers.py:230-285 | captures when something is staged or a write is forced and none is under way, and takes the force back |
| QuickWrite.QuickWriteController.OnQuickWriteDone | src/iopenpod/application/controllers.py:328-343 | a result with newer changes pending forces another write |
| QuickWriteProtocol.RunTraced | src/iopenpod/application/jobs.py:1915-1982 | in every run a write under way carries exactly what its revision names |
| OrderlyCache.ApplyOrderly | src/iopenpod/application/runtime.py:1045-1370 | editing live rows, saving rows that can be filed, removing, renaming and discarding keep the cache in order |
| OrderlyCache.NewPlaylistSound | src/iopenpod/application/runtime.py:1045-1092 | a new playlist with an id of its own can be filed, whether it is mirrored or not |
| OrderlyCache.CommitOrderly | src/iopenpod/application/runtime.py:1196-1264 | a commit keeps the cache in order and shows the same playlists, new ones under the dataset they were filed in |
| QuickWriteProtocol.RunOrderly | src/iopenpod/application/jobs.py:2037-2071 | over every interleaving of such steps, with writes that commit, are refused or reload, the cache stays in order |
| QuickWriteProtocol.AcceptedCommit | src/iopenpod/application/jobs.py:2037-2061 | in every run an accepted commit wrote exactly the live library, record by record and playlist by playlist, took no staged image away, and leaves nothing staged |
| QuickWriteProtocol.RefusedCommit | src/iopenpod/application/jobs.py:2048-2061 | after a refused commit, in every run until the next write ends: the cache is what it was with the later edits replayed, every staged edit is still staged, a write that has started captured such a cache, and otherwise a write is forced and starts once the result is delivered |
| QuickWriteProtocol.NextScheduled | src/iopenpod/application/controllers.py:230-343 | once the cache is ahead of the device, a write stays scheduled until one is accepted |
| QuickWriteProtocol.OneWriteSettles | src/iopenpod/application/controllers.py:230-343 | from any idle state nothing starts exactly when nothing is staged or forced; otherwise one write without edits meanwhile leaves nothing staged, forced or to be written, whether it succeeds or not |
| QuickWriteProtocol.QuietMeansWritten | src/iopenpod/application/controllers.py:230-343 | over every interleaving, when nothing is staged, forced, under way or undelivered, the device holds what the cache shows |
| QuickWriteImages.StartCarries | src/iopenpod/application/jobs.py:1915-1982 | in every run a write that starts carries every image that is staged by then |
| QuickWriteImages.ImageStays | src/iopenpod/application/jobs.py:2037-2071 | in every run an image stays staged until a discard or the end of a write that reloads; no commit takes it away |
| QuickWriteImages.ImageWasHandedOver | src/iopenpod/application/jobs.py:2037-2071 | an image that was staged when a write started is in what that write was handed, until it ends |
| QuickWriteProtocol.EditSurvivesIff | src/iopenpod/application/jobs.py:2048-2071 | an edit staged while a write is under way is still staged after it exactly when the write succeeded and had no artwork; otherwise it is dropped and nothing is reported pending |
| StorageWalk.WalkChunk | src/iopenpod/application/database_storage.py:521-577 | terminates on any bytes, with each child loop stopping at the first chunk that is not there |
| StorageWalk.WalkLaid | src/iopenpod/application/database_storage.py:521-577 | on any bytes every reported chunk lies in them and starts before its boundary, children follow the header without gaps, and a list is its header and its children |
| StorageWalk.RecordExactly | src/iopenpod/application/database_storage.py:521-625 | on any bytes, what a reported chunk is: its tag and header, its length by its kind, as many children as it announces or as have headers inside it, and the payload of a string object |
| StorageWalk.WalkRoundTrip | src/iopenpod/application/database_storage.py:521-603 | on the bytes of every well-formed chunk tree, exactly that tree |
| StorageReport.AccumulateContainer | src/iopenpod/application/database_storage.py:416-441 | merges a chunk and everything under it by label, at every depth; `ReportedExactly` says what is then under each label |
| StorageMerged.ReportedExactly | src/iopenpod/application/database_storage.py:416-441 | what merged chunks report: their bytes, headers and number; for every label the data objects directly inside them whose type has that label, with their bytes, number, payload and first type, and no other label; and for every other label the containers inside them, merged in the same way |
| StorageMerged.ObjectsMerged | src/iopenpod/application/database_storage.py:423-432 | merging into any container adds, for every label, the bytes, number and payload of the data objects with that label to what was there |
| StorageMerged.TypedIff | src/iopenpod/application/database_storage.py:423-426 | a record counts under a label exactly when it is a data object directly inside one of the chunks whose type has that label |
| StorageReport.AccumulatedFits | src/iopenpod/application/database_storage.py:416-441 | merging nested chunks leaves containers whose parts account for no more bytes than they have, at every depth |
| StorageReport.DataObjectNodes | src/iopenpod/application/database_storage.py:503-518 | exactly one row for each label, with that label's name, type and bytes, largest first, and together the bytes of all data objects |
| StorageReport.ContainerNode | src/iopenpod/application/database_storage.py:444-500 | the row of a container is, at every depth, its headers, its data objects, one row for each label of containers inside it, and what is left; the rows under every row add up exactly when no container's parts overrun it |
| StorageReport.LeavesAll | src/iopenpod/application/database_storage.py:444-500 | where rows add up at every depth, the bottom rows account for every byte once |
| StorageReport.BuildClassicRoot | src/iopenpod/application/database_storage.py:382-413 | the report conserves exactly when the merged container fits; on the bytes of a well-formed tree it does, at every depth, and its bottom rows make up the file |
| StorageMerged.FitsIff | src/iopenpod/application/database_storage.py:416-441 | merged chunks fit, at every depth, exactly when those under each label together have room for their headers and children |
| StorageMerged.OverrunReport | src/iopenpod/application/database_storage.py:521-577 | bytes whose report does not conserve: a child that starts inside its parent and ends behind it |
| TextTruncation.CutDecodes | src/iopenpod/application/database_storage.py:284-299 | a cut through encoded text decodes exactly when it falls between code points |
| TextTruncation.CutReplaced | src/iopenpod/artworkdb_writer/artworkdb_chunks.py:443-475 | where errors are replaced, a cut decodes to the code points before it and one replacement character if it goes through a code point |
| TextTruncation.TruncateTextToBytes | src/iopenpod/application/database_storage.py:284-299 | the longest prefix of code points whose UTF-16 encoding fits, so no surrogate pair is split |
| TextTruncation.ShortenedOnce | src/iopenpod/application/database_storage.py:284-299 | shortening twice to one limit is shortening once |
| TextTruncation.TruncatedOnce | src/iopenpod/application/database_storage.py:247-281 | truncating a track again with the same limit changes nothing, lyrics flag included |
| TextTruncation.TruncatedFits | src/iopenpod/application/database_storage.py:247-281 | the field fits the limit, other fields are kept, and no flag promises lyrics that are gone |
| TextTruncation.CutToNothing | src/iopenpod/application/database_storage.py:247-305 | a field loses all of its text exactly when its first character does not fit the limit, and no other field does |
| TextTruncation.TruncateTrackMhodValues | src/iopenpod/application/database_storage.py:247-281 | every track is truncated, also one listed twice, and the count is the number of tracks that changed |
| SysInfoText.FileRoundTrip | src/iopenpod/device/authority.py:354-383 | what is written is read back up to the spaces around each value |
| SysInfoText.ParsedPlain | src/iopenpod/device/authority.py:354-368 | whatever a file holds, the fields read from it can be written and read back unchanged |
| SysInfoAuthority.FormatKeepsValue | src/iopenpod/device/authority.py:244-290 | formatting a trimmed value does not change what it normalises to |
| SysInfoAuthority.FormatOnce | src/iopenpod/device/authority.py:244-268 | a formatted GUID is behind "0x" and a formatted model number does not start with "M"; formatting again changes nothing |
| SysInfoAuthority.SameValueIff | src/iopenpod/device/authority.py:271-290 | which texts stand for the same value: a GUID or a model number whatever its case, any other text only itself |
| SysInfoAuthority.PrefixIgnored | src/iopenpod/device/authority.py:271-290 | prefixes of GUIDs and model numbers, and zeros before product ids, make no difference |
| SysInfoAuthority.RankIs | src/iopenpod/device/authority.py:52-84 | the rank of a source is its place among the 24 listed, most reliable first, and after all of them if it is not listed |
| SysInfoAuthority.DecideField | src/iopenpod/device/authority.py:646-751 | one field: added, kept with the better source, replaced, or left |
| SysInfoAuthority.Converges | src/iopenpod/device/authority.py:646-751 | over any runs a field that is not derived holds the value of the best-ranked source seen since the last run that left nothing, the latest among equals, under that source, and its entry stands for the same value |
| SysInfoAuthority.BestOfAllIff | src/iopenpod/device/authority.py:646-751 | it holds the best of everything ever seen exactly when something was seen since that run and the best of it is as good |
| SysInfoAuthority.VisibleHolds | src/iopenpod/device/authority.py:646-751 | values with something other than spaces in them never leave nothing, so that it then does |
| SysInfoAuthority.DerivedIsLatest | src/iopenpod/device/authority.py:704-723 | a derived field always takes the value seen last |
| SysInfoAuthority.FoundAgain | src/iopenpod/device/authority.py:578-702 | a value found again keeps its text, and of the source that found it and the one it had the better is noted |
| SysInfoAuthority.AfterTampering | src/iopenpod/device/authority.py:506-553 | after a change from outside a field with an entry takes what any source at least as good as the file finds, however good its own source was, and what is not derived takes nothing else |
| SysInfoAuthority.BlankIsForgotten | src/iopenpod/device/authority.py:665-678 | a value of spaces alone is written as nothing, and the next value replaces it whatever its source |
| SysInfoAuthority.UpdateSysInfo | src/iopenpod/device/authority.py:623-764 | one run on the two files: every mapped field decided, every other field kept with its entry, sources distrusted first when the files were changed |
| SysInfoAuthority.DeviceConverges | src/iopenpod/device/authority.py:623-764 | the same convergence, with the same exact condition, for a device whose files are written and read back each run |
| NalInjection.FindStartCodes | scripts/ipod_caption_probe.py:268-279 | every start code, none overlapping another |
| NalInjection.UnitsOfData | scripts/ipod_caption_probe.py:269-286 | the units of any data are the data from its first start code on, each ending where the next code starts |
| NalInjection.UnitsOfConcat | scripts/ipod_caption_probe.py:269-286 | scanning the bytes of such units finds exactly them |
| NalInjection.EmptyUnitIff | scripts/ipod_caption_probe.py:284-287 | a unit is empty exactly when another code follows at once or a four-byte code ends the data |
| NalInjection.InjectedIff | scripts/ipod_caption_probe.py:281-312 | the insertion succeeds exactly when no unit is empty and every request is for a frame that exists, counting the units of type 1 and 5, with one to thirty-one pairs of two bytes |
| NalInjection.ProblemIs | scripts/ipod_caption_probe.py:281-312 | an insertion that fails reports the first problem in the stream, an empty unit or an invalid request at its frame; missing frames are reported exactly when there is no such problem and some request is for a frame that is not there |
| NalInjection.InjectWhere | scripts/ipod_caption_probe.py:290-309 | captions stand exactly before the requested frames, with the requested pairs |
| NalInjection.CaptionBytes | scripts/ipod_caption_probe.py:297-308 | every byte of a caption unit: the message type and its length, the country, provider and "GA94", the number of pairs, each pair behind its marker, and the marker and stop bits at the end |
| NalInjection.PayloadShort | scripts/ipod_caption_probe.py:297-305 | the payload of valid pairs always fits its one length byte, so that error cannot occur |
| NalInjection.OutputRescans | scripts/ipod_caption_probe.py:269-313 | scanning the output again gives the original units with the captions among them, and without them the input from its first start code |
| NalInjection.InjectCaptions | scripts/ipod_caption_probe.py:269-313 | the loop builds exactly that output, or fails with the first problem in stream order |
| PackedGeometry.ResolvePackedGeometry | src/iopenpod/artworkdb_writer/ithmb_codecs.py:134-277 | of the rasters that are tried, each with the priority it is first tried with, the one that comes before all others that fit; when none fits, that of the payload cut to its format; or none |
| PackedGeometry.RasterIff | src/iopenpod/artworkdb_writer/ithmb_codecs.py:134-277 | a raster is found exactly when one with the payload's pixels and the required parity is within two pixels of the visible or padded size or shares a side with those or the format, and it is such a one; the padded visible raster whenever it fits; otherwise the payload is cut to its format if it is at most 256 bytes longer |
| PackedGeometry.TrimmedIff | src/iopenpod/artworkdb_writer/ithmb_codecs.py:257-274 | a payload is cut to the rows of its format exactly when it has between one and 256 bytes more |
| PackedGeometry.PixelSurvives | src/iopenpod/artworkdb_writer/ithmb_codecs.py:92-119 | every 565 pixel and every 555 pixel survives unpacking and packing |
| PackedGeometry.UnpackedIff | src/iopenpod/artworkdb_writer/ithmb_codecs.py:92-119 | a 565 pixel unpacks to the one colour that packs to it and whose missing bits repeat its highest |
| PackedGeometry.Unpacked555Iff | src/iopenpod/artworkdb_writer/ithmb_codecs.py:92-119 | and so does a 555 pixel |
| PackedGeometry.BytesSurvive | src/iopenpod/artworkdb_writer/ithmb_codecs.py:438-460 | packed pixels survive being written as bytes and read, in either byte order |
| PackedGeometry.RepackSame | src/iopenpod/artworkdb_writer/ithmb_codecs.py:92-119 | encoding, decoding and encoding an image again gives the same bytes |

## Left out

Conditions on main results:

- ArtworkUpdate.UpdateReadsBack: assumes of frames kept from the old database that their names are plain file names (no separator, no space at either end, no trailing NUL) and not a shard name of another format, that their sizes are positive, and that encoders give positive dimensions and as many bytes as they say; `ForeignNameReplacedIff` and `NameRecovered` show what happens otherwise.
- ArtworkUpdate.PreservedArtSurvives: for assets that are not given anew as well, which none is (`AssetsSeparate`); says nothing about a frame that must be copied and cannot be read, which is salvaged.
- ShardAccounting.PlannedShardOnly: only for formats where nothing was re-encoded from another frame, since the planner does not count such bytes, and for requests in which no asset is both kept and made anew, as `AssetsSeparate` shows of every one made from tracks.
- ArtworkOutcome.OwnArtSurvives: for formats that are known and whose frames agree with their geometry, in every entry that shows the same frames; and for paths to one file giving one image.
- ArtworkRewrite.ForeignNameReplacedIff: for the first shard of a format; whether a later shard is written depends on how its frames fill the shards before it (`ShardReplacedIff`).
- ArtworkDbWriter.WriteMhodString: strings of type 3 only, the only ones the writer makes; type 1 would be encoded as UTF-8.
- PlaylistOverlay.CommitKeepsView: the condition that is enough for several rows at once; the exact ones are `CommitKeepsViewIff`, `CommitKeepsAllIff`, `CommitKeepsViewExactly` and `UntaggedRowLostIff`.
- QuickWriteProtocol.AcceptedCommit: for runs whose edits are of live rows and leave ids alone (`CommitTracksIff` shows that this is needed), whose saved rows can be filed (no master row, no regular playlist that counts as a podcast, and an id of its own for a row without a dataset, as `NewPlaylistSound` shows of every new playlist), and whose parsed libraries have distinct tracks and tagged playlists. A new playlist counts as one of the dataset it is filed in.
- QuickWriteProtocol.QuietMeansWritten: for the same runs; removals and master renames stage nothing, so they must happen while a forced write is under way or queued, as the callers that write them arrange.

Not modelled:

- Qt: threads, signals, timers and widgets. Cache operations and worker steps are atomic.
- Python's recursion limit, for the search over imports and the chunk walk; the lenient parser's nesting limit is a parameter.
- Collecting the import graph from source files.
- Errors while temporaries are written, path joining, and creation of the artwork directory.
- Kinds of error: readers and parsers give one failure where the code raises different exceptions.
- Decimal digits outside ASCII in shard numbers, and `upper()` outside ASCII.
- How the hint of a track is spelled and which of its attributes hold its links; extraction of images from files and their digests are arbitrary functions.
- Decoding, encoding and resizing of images, and the comparison of a kept frame's size with its format's geometry, are arbitrary functions.
- Progress, logging and summary counters.
- The device write guard and database generations; a commit either happens in a prefix of its renames or whole.
- `set_data`, `clear_pending_*`, `clear_pending_scrobble_counts` and `invalidate`, which are not steps of the protocol; `update_track_flags_by_track`, which differs from `update_track_flags` in taking one set of changes for each track.
- Reloading the library, which discards and parses in one step.
- Playlist dictionaries shared between the cache and its callers, and numeric strings in their tag fields.
- Strings with lone surrogates.
- Storage accumulators are values rather than updated dictionaries; rows of equal size are not ordered by label, and their detail texts and the SQLite report are absent.
- Values of data objects inside the storage walk.
- The SysInfoExtended cache, and the hashes that detect outside changes, which are one yes-or-no input; integer USB ids; carriage returns in the SysInfo file.
- Caption events for frames that are not positive numbers are requests for frames that do not exist; reading and writing the video file.
- `infer_image_format`, padded strides, byte order, UYVY, I420, JPEG and the 1019 layout.
- Fields of the lenient parser that images do not use.
