# Media Library Manager — a Dafny model

This project models the core of a small command-line media library manager.
The library holds media files: videos, audio, documents and images. Each file
has a path, a name, a type and a list of keyword/value metadata entries. The
user loads files from JSON, lists them by value or by key/value pair, and
adds, rewrites and deletes their metadata. Files are referred to by their
position in the last result set. The model covers:

- the media file and its keyword→values multimap (`MediaFile`);
- the four file types, which check their required keywords and report the
  ones missing (`VideoFile`, `AudioFile`, `DocumentFile`, `ImageFile`, and
  the dispatch in `FileTypes`);
- the collection with its value→files multimap (`Collection`);
- whitespace trimming of arguments (`Text`);
- argument checks and path resolution (`CommandLineParser`);
- the import loop, which admits a record only when it passes its check and
  no admitted record has its path, and the report of rejected records
  (`Importer`);
- the flattening of a file's metadata for export (`Exporter`);
- the result set and the `load`, `list`, `list-meta`, `add`, `set`, `del` and
  `del-all` handlers (`Cli`).

Swift classes are reference objects mutated in place. The model makes them
values instead:

- A library is a `store` of files plus the `collection` and value buckets.
  The collection and buckets hold ids, which are indices into the store.
  Creating a file appends it to the store.
- Each handler returns an `Outcome`: the library after the call and either
  a result set or an error. The library is part of the outcome even on
  error, because the Swift handlers mutate the library before they throw.
- A Swift runtime trap (a negative index, reading past the end of the
  argument list) is the error `Trap`.
- `rewriteMetadata` is called by the collection but is not defined in the
  code base. It is a function parameter `rewrite` of type `Rewrite`.
- The file system, the home directory and the current directory are
  parameters of `load`.
- Swift dictionaries have no fixed iteration order. The importer's input
  therefore carries the order in which the decoded dictionary is walked.

The model follows the code where the code and the project's own description
of itself disagree:

- The value buckets are not kept consistent with the files' metadata.
  `removeMetadataFromMultiMap` looks only at the last file in a bucket. A
  rewrite files the file under the new value whether or not the rewrite
  succeeded.
- Loading the same JSON twice adds every file twice (`Cli.LoadTwiceDuplicates`).
- `del <n> <key>` removes every value of the key, not one entry.
- The exporter writes each file's metadata as a value→keyword dictionary.
  Reading that dictionary back swaps keywords and values
  (`Exporter.ExportImportSwaps`).

## Model

| member | source | states |
|---|---|---|
| Seqs.Contains | MediaLibraryManager/multiMediaFile.swift:58-67 | the `contains` test on a key's value list is true exactly when the value occurs in it |
| Seqs.Filter | MediaLibraryManager/multiMediaFile.swift:154-158 | removing entries keeps exactly the entries that satisfy the condition and never lengthens the list |
| Seqs.RemoveWhereReversed | MediaLibraryManager/multiMediaFile.swift:146-158 | the in-place removal walking indices from the end backwards leaves exactly the filtered list, in the original order |
| MetaData.HasKeyword | MediaLibraryManager/MultiMediaFileTypes/VideoMultiMediaFile.swift:36-41 | the keyword search of the validity checks is true exactly when some entry has that keyword |
| MetaData.Values | MediaLibraryManager/multiMediaCollection.swift:43-49 | the values the collection files a file under are the entries' values, position by position |
| MediaFile.NewFile | MediaLibraryManager/multiMediaFile.swift:29-35 | a new file keeps its metadata, name, path and type, has an empty keyword multimap (so contains nothing and returns nothing per key), and starts with no keyword marked missing |
| MediaFile.Tag | MediaLibraryManager/multiMediaFile.swift:45-54 | the values of a key turn into entries of that key, one per value and in order |
| MediaFile.GetMetaDataFromKey | MediaLibraryManager/multiMediaFile.swift:45-54 | an absent key gives nothing; otherwise one entry per value filed under the key, in filing order |
| MediaFile.ContainsMetadata | MediaLibraryManager/multiMediaFile.swift:58-67 | true exactly when the keyword is in the multimap and the value is among its values |
| MediaFile.AddMetadata | MediaLibraryManager/multiMediaFile.swift:71-85 | succeeds exactly when the pair is not already there; on success the entry is appended and the value filed last under its key; on refusal the file is unchanged; other keys keep their values; the pair is contained afterwards; path, name and type are kept |
| MediaFile.Delete | MediaLibraryManager/multiMediaFile.swift:139-162 | succeeds exactly when the keyword is in the multimap; on success every entry with that keyword leaves the list; a single-valued key leaves the multimap, otherwise only the given value leaves it and the other values keep their order; other keys are untouched; on refusal nothing changes |
| MediaFile.DeleteMetaData | MediaLibraryManager/multiMediaFile.swift:98-129 | a keyword the file's type requires is refused with the file unchanged; any other keyword is deleted as above |
| MediaFile.GetMetaDataAgreesWithContains | MediaLibraryManager/multiMediaFile.swift:45-67 | a pair is among the entries returned for its key exactly when the file contains it |
| MediaFile.AddGrowsByOne | MediaLibraryManager/multiMediaFile.swift:71-85 | adding a new pair lengthens the metadata by one and makes the pair contained |
| MediaFile.AddPreservesWellFormed | MediaLibraryManager/multiMediaFile.swift:71-85 | adding keeps the multimap well formed: no empty value lists and no repeated value under a key |
| MediaFile.DeletePreservesWellFormed | MediaLibraryManager/multiMediaFile.swift:139-162 | deleting keeps the multimap well formed |
| MediaFile.DeleteKeepsRequiredKeywords | MediaLibraryManager/multiMediaFile.swift:98-129 | no deletion removes the last entry of a keyword the file's type requires |
| MediaFile.AddThenDeleteRestores | MediaLibraryManager/multiMediaFile.swift:71-162 | adding a pair under a fresh optional keyword and then deleting it gives back the original file, and the deletion reports success |
| VideoFile.IsValid | MediaLibraryManager/MultiMediaFileTypes/VideoMultiMediaFile.swift:33-65 | a video is valid exactly when creator, resolution and runtime are all present; each missing keyword is recorded and nothing else about the file changes |
| VideoFile.GetErrors | MediaLibraryManager/MultiMediaFileTypes/VideoMultiMediaFile.swift:74-86 | one message per recorded missing keyword, creator first and runtime last |
| AudioFile.IsValid | MediaLibraryManager/MultiMediaFileTypes/AudioMultiMediaFile.swift:29-51 | an audio file is valid exactly when creator and runtime are present; the missing ones are recorded and resolution is left alone |
| AudioFile.GetErrors | MediaLibraryManager/MultiMediaFileTypes/AudioMultiMediaFile.swift:60-69 | one message per recorded missing keyword, creator before runtime |
| DocumentFile.IsValid | MediaLibraryManager/MultiMediaFileTypes/DocumentMultiMediaFile.swift:25-38 | a document is valid exactly when creator is present; an invalid one differs from the input only in its creator-missing flag, now set, and a valid one is unchanged |
| DocumentFile.GetErrors | MediaLibraryManager/MultiMediaFileTypes/DocumentMultiMediaFile.swift:47-53 | the creator message when creator is marked missing, otherwise nothing |
| ImageFile.IsValid | MediaLibraryManager/MultiMediaFileTypes/ImageMultiMediaFile.swift:17-39 | an image is valid exactly when creator and resolution are present; the missing ones are recorded and runtime is left alone |
| ImageFile.GetErrors | MediaLibraryManager/MultiMediaFileTypes/ImageMultiMediaFile.swift:41-50 | a missing resolution is reported as "'contents' missing", never as a resolution message, after the creator message |
| FileTypes.IsValid | MediaLibraryManager/Utils/importer.swift:87-102 | whatever the type, valid means every keyword the type requires is present; only the missing-keyword marks change |
| FileTypes.RequiredInOrder | MediaLibraryManager/MultiMediaFileTypes/VideoMultiMediaFile.swift:74-86 | the keywords a type's report scans are exactly the keywords the type requires |
| FileTypes.GetErrors | MediaLibraryManager/MultiMediaFileTypes/VideoMultiMediaFile.swift:74-86 | whatever the type, the report is one message per required keyword whose missing flag is set, in the order the type scans them, and it is empty exactly when no required keyword is flagged |
| FileTypes.ReportedPerType | MediaLibraryManager/MultiMediaFileTypes/ImageMultiMediaFile.swift:41-50 | written out per type, the report has the creator message first, then resolution (worded as 'contents' for an image) and runtime, each only when flagged |
| FileTypes.FreshFileErrorsIffInvalid | MediaLibraryManager/Utils/importer.swift:87-102 | a newly built file that has been checked reports no errors exactly when it passed |
| FileTypes.ValidityIgnoresIndex | MediaLibraryManager/MultiMediaFileTypes/VideoMultiMediaFile.swift:33-65 | validity looks at the metadata list only, not the multimap, and the check leaves list and multimap alone |
| FileTypes.DeleteKeepsValidity | MediaLibraryManager/multiMediaFile.swift:98-129 | a valid file stays valid after any deletion |
| Collection.Empty | MediaLibraryManager/multiMediaCollection.swift:29-32 | a new collection holds no files, counts zero and has empty buckets |
| Collection.Alloc | MediaLibraryManager/multiMediaCollection.swift:41-51 | creating a file gives it the next id and leaves collection, buckets and count alone |
| Collection.AddMetadataToMultiMap | MediaLibraryManager/multiMediaCollection.swift:76-82 | the file is appended to the bucket of the value, which is created if absent; no other bucket changes |
| Collection.AddToBucketKeepsRefs | MediaLibraryManager/multiMediaCollection.swift:76-82 | filing a known file keeps every bucket pointing at known files |
| Collection.IndexEntries | MediaLibraryManager/multiMediaCollection.swift:43-49 | after filing a file's entries the buckets are the old ones plus one per entry value |
| Collection.IndexEntriesBucket | MediaLibraryManager/multiMediaCollection.swift:43-49 | the bucket of a value gains the file once for each entry carrying that value, after the files it held |
| Collection.IndexEntriesKeepsRefs | MediaLibraryManager/multiMediaCollection.swift:43-49 | filing a known file's entries keeps every bucket pointing at known files |
| Collection.AddFile | MediaLibraryManager/multiMediaCollection.swift:41-51 | adding a file appends it to the collection, raises the count by one and leaves the files alone; every value's bucket keeps what it held and gains the file once per entry with that value, so no bucket loses a file |
| Collection.AddFileIndexesOncePerEntry | MediaLibraryManager/multiMediaCollection.swift:41-51 | after adding a file, each value's bucket holds it once more for every entry with that value |
| Collection.SearchItemAfterAddFile | MediaLibraryManager/multiMediaCollection.swift:41-51 | after adding a file, a key/value search gives the old hits plus the new file if it contains the pair |
| Collection.Add | MediaLibraryManager/multiMediaCollection.swift:60-67 | a pair the file already has changes nothing; otherwise the file gains it and the file is appended to the value's bucket, leaving other buckets, the collection and the count alone |
| Collection.AddKeepsIndexed | MediaLibraryManager/multiMediaCollection.swift:60-67 | after adding, the file contains the new pair and every pair it had, keeps its identity, and no other file changes |
| Collection.RemoveMetadataFromMultiMap | MediaLibraryManager/multiMediaCollection.swift:132-143 | reports true exactly when the value's bucket is not empty; only the last file of the bucket is looked at and is dropped if it has the file's path; nothing else changes |
| Collection.PopIfPath | MediaLibraryManager/multiMediaCollection.swift:132-143 | one bucket removal drops the last file exactly when the bucket is non-empty and that file has the path, and otherwise keeps the bucket; what is left is a prefix of the bucket |
| Collection.PopTimes | MediaLibraryManager/multiMediaCollection.swift:157-160 | repeated bucket removals leave a prefix of the bucket that still refers to known files |
| Collection.RemoveMetadataFromFile | MediaLibraryManager/multiMediaCollection.swift:112-122 | a refused file deletion changes nothing and reports false; otherwise the file is replaced by its deleted form, the result is true exactly when the value's bucket was non-empty, that bucket loses its last file only if it has the file's path, and every other bucket is unchanged |
| Collection.RemoveFromEach | MediaLibraryManager/multiMediaCollection.swift:90-94 | removing from a list of files touches only those files and the bucket of the value, which can only lose files from its end, and keeps the collection and the count |
| Collection.RemoveFromEachIsPerFile | MediaLibraryManager/multiMediaCollection.swift:90-94 | for a list without repeats, every listed file ends up as its own deletion result |
| Collection.RemoveFromEachSparesRequired | MediaLibraryManager/multiMediaCollection.swift:90-94 | a file whose type requires the keyword is never changed |
| Collection.PoppedBucket | MediaLibraryManager/multiMediaCollection.swift:90-143 | the value's bucket after the removal loop, computed from the files before it: each listed file whose delete succeeds drops the bucket's last file when that file has its path; the result is a prefix of the bucket |
| Collection.PoppedBucketFrame | MediaLibraryManager/multiMediaCollection.swift:132-143 | the popped bucket depends only on the listed files and on the paths, so rewriting other files' entries does not change it |
| Collection.RemoveFromEachBucket | MediaLibraryManager/multiMediaCollection.swift:90-143 | for a list without repeats, the loop leaves the value's bucket exactly as PoppedBucket computes it |
| Collection.Remove | MediaLibraryManager/multiMediaCollection.swift:90-94 | removing a pair from the library deletes it from each collected file independently, spares files that require the keyword and files outside the collection, and leaves other buckets, the collection and the count alone; the value's bucket only loses files from its end, and for a collection without repeats it is exactly the bucket PoppedBucket computes |
| Collection.RemoveEachFromMultiMap | MediaLibraryManager/multiMediaCollection.swift:157-160 | unfiling a file's old values touches only the buckets of those values |
| Collection.RemoveEachBuckets | MediaLibraryManager/multiMediaCollection.swift:157-160 | unfiling a file's old values takes the bucket removal once from each value's bucket per old entry with that value, and leaves other buckets alone |
| Collection.ReindexForRewrite | MediaLibraryManager/multiMediaCollection.swift:155-161 | the index update of a rewrite gives each bucket its rewritten form: the removals for the key's old values, then the file appended to the new value's bucket |
| Collection.RewriteMetadataToFile | MediaLibraryManager/multiMediaCollection.swift:155-165 | the file becomes the rewrite's result and the flag is the rewrite's, while every bucket takes its rewritten form whatever the rewrite answered (old values' buckets lose their last file when it has the path, the new value's bucket gains the file at its end); collection and count are kept |
| Collection.RewriteReindexes | MediaLibraryManager/multiMediaCollection.swift:155-165 | after a rewrite, whether or not it succeeds, the file is last in the new value's bucket, and buckets of unrelated values are unchanged |
| Collection.SearchTerm | MediaLibraryManager/multiMediaCollection.swift:175-182 | a value search gives the value's bucket, or nothing for an unknown value |
| Collection.SearchItem | MediaLibraryManager/multiMediaCollection.swift:204-214 | a key/value search gives, in collection order, exactly the collected files that contain the pair |
| Collection.All | MediaLibraryManager/multiMediaCollection.swift:191-193 | the listing of all files has as many files as the count and refers only to known files |
| Collection.AllTracksOperations | MediaLibraryManager/multiMediaCollection.swift:191-193 | the listing of all files gains exactly the added file when a file is added, and stays the same under adding, removing and rewriting metadata |
| Collection.HasPath | MediaLibraryManager/multiMediaCollection.swift:227-234 | true exactly when some listed file has the path |
| Collection.FirstWithPath | MediaLibraryManager/multiMediaCollection.swift:243-250 | gives the first listed file with the path, or nothing when no listed file has it |
| Collection.ContainsFile | MediaLibraryManager/multiMediaCollection.swift:227-234 | the collection contains a path exactly when one of its files has that path |
| Collection.GetFile | MediaLibraryManager/multiMediaCollection.swift:243-250 | the lookup by path gives a collected file with the path and no earlier collected file has it; it gives nothing exactly when no collected file has the path |
| Collection.ContainsFileIffGetFile | MediaLibraryManager/multiMediaCollection.swift:227-250 | the collection contains a path exactly when looking the path up finds a file |
| Text.TrimIsTight | MediaLibraryManager/cli.swift:325-327 | a trimmed argument neither starts nor ends with whitespace |
| Text.TrimCutsOnlyWhitespace | MediaLibraryManager/cli.swift:325-327 | trimming keeps one contiguous slice of the argument and cuts only whitespace on either side |
| Text.TrimOfTight | MediaLibraryManager/cli.swift:325-327 | trimming leaves an argument without surrounding whitespace unchanged |
| Text.TrimIdempotent | MediaLibraryManager/cli.swift:325-327 | trimming twice is trimming once |
| CommandLineParser.SplitSign | MediaLibraryManager/Utils/commandLineParser.swift:59 | a leading '-' or '+' is taken off as the sign; anything else is left as digits to read |
| CommandLineParser.ParseInt | MediaLibraryManager/Utils/commandLineParser.swift:59 | a string parses only if it is an optional sign followed by at least one digit; a digit string, with or without '+', parses to its value exactly when that fits in 64 bits; with '-' it parses to the negated value exactly when that fits |
| CommandLineParser.ParseIntExamples | MediaLibraryManager/Utils/commandLineParser.swift:59 | a plus sign and leading zeros are accepted ("+5" is 5, "-007" is -7); the empty string, a lone sign and two signs are refused |
| CommandLineParser.ShowNat | MediaLibraryManager/Utils/commandLineParser.swift:59 | the decimal form of a natural number is a non-empty digit string |
| CommandLineParser.ShowInt | MediaLibraryManager/Utils/commandLineParser.swift:59 | the decimal form of an integer starts with '-' exactly for a negative number and its unsigned part is a non-empty digit string |
| CommandLineParser.DigitsOfShowNat | MediaLibraryManager/Utils/commandLineParser.swift:59 | reading back the decimal form of a natural number gives the number |
| CommandLineParser.ParseShowRoundTrip | MediaLibraryManager/Utils/commandLineParser.swift:59 | every 64-bit integer, written out in decimal, parses back to itself |
| CommandLineParser.ParseIntRefusesStrangers | MediaLibraryManager/Utils/commandLineParser.swift:59 | an argument with any character that is neither a digit nor a sign does not parse |
| CommandLineParser.ValidFormat | MediaLibraryManager/Utils/commandLineParser.swift:57-63 | arguments are well formed exactly when there are enough of them and the first parses as an integer |
| CommandLineParser.ValidFormatOfShown | MediaLibraryManager/Utils/commandLineParser.swift:57-63 | a written-out 64-bit integer followed by enough further arguments passes the check |
| CommandLineParser.ValidFormatRefusesStrangers | MediaLibraryManager/Utils/commandLineParser.swift:57-63 | a first argument with a character that is neither a digit nor a sign fails the check |
| CommandLineParser.ReplaceTilde | MediaLibraryManager/Utils/commandLineParser.swift:34-35 | without a tilde nothing changes; with a tilde-free home no tilde survives; a leading tilde becomes the home directory and any other first character is kept |
| CommandLineParser.ReplaceTildeConcat | MediaLibraryManager/Utils/commandLineParser.swift:34-35 | the expansion of a joined string is the join of the expansions, and a single character expands to the home directory if it is a tilde and to itself otherwise |
| CommandLineParser.ReplaceTildeWithTilde | MediaLibraryManager/Utils/commandLineParser.swift:34-35 | replacing tildes by "~" gives the argument back |
| CommandLineParser.GetCommand | MediaLibraryManager/Utils/commandLineParser.swift:32-44 | a path with a tilde has every tilde expanded; otherwise an absolute path is kept and anything else is put under the current directory |
| CommandLineParser.GetCommandAbsolute | MediaLibraryManager/Utils/commandLineParser.swift:32-44 | with an absolute, tilde-free home and current directory, the resolved path is absolute and has no tilde |
| CommandLineParser.GetCommandIdempotent | MediaLibraryManager/Utils/commandLineParser.swift:32-44 | resolving a resolved path again changes nothing |
| Importer.EntriesOf | MediaLibraryManager/Utils/importer.swift:39-43 | the entries built from a decoded dictionary are exactly its listed pairs, keyword from the key and value from the value |
| Importer.EntriesOfDistinctKeywords | MediaLibraryManager/Utils/importer.swift:39-43 | entries built from a dictionary never repeat a keyword |
| Importer.ImportedEntriesMatchDictionary | MediaLibraryManager/Utils/importer.swift:39-43 | for a full walk of the dictionary, a keyword has an entry exactly when it is a key, each entry carries the key's value, and no keyword repeats |
| Importer.GetMultiMediaFile | MediaLibraryManager/Utils/importer.swift:87-102 | the file built from a record has its path, type, the read's file name and its entries; it passes exactly when every keyword its type requires has an entry |
| Importer.BuiltErrorsIffFails | MediaLibraryManager/Utils/importer.swift:87-102 | a built file reports no errors exactly when it passed its check |
| Importer.PassesIffRequiredKeysPresent | MediaLibraryManager/Utils/importer.swift:87-102 | a record passes exactly when its dictionary has every key its type requires |
| Importer.Candidates | MediaLibraryManager/Utils/importer.swift:36-44 | each record gives one built file with its pass flag, in order, with the record's path |
| Importer.PathTaken | MediaLibraryManager/Utils/importer.swift:47-52 | true exactly when some admitted file already has the path |
| Importer.ReadPrefix | MediaLibraryManager/Utils/importer.swift:36-58 | after n records, every record has gone to the admitted list or to the garbage |
| Importer.ReadPrefixPaths | MediaLibraryManager/Utils/importer.swift:36-58 | a path is taken after n records exactly when one of them passed with that path |
| Importer.ReadPrefixFollowsRule | MediaLibraryManager/Utils/importer.swift:36-58 | the loop admits exactly the records that pass and whose path no earlier passing record had, and discards exactly the rest, each in input order |
| Importer.ReadPrefixAdmitsCleanFiles | MediaLibraryManager/Utils/importer.swift:36-58 | admitted files have distinct paths and each passed its check |
| Importer.Read | MediaLibraryManager/Utils/importer.swift:26-75 | a read returns the records the admission rule picks, in record order, never more files than records, with pairwise distinct paths |
| Importer.ReadAdmits | MediaLibraryManager/Utils/importer.swift:26-75 | a read returns exactly the admissible records, with distinct paths and no errors |
| Importer.Garbage | MediaLibraryManager/Utils/importer.swift:26-75 | the garbage is exactly the records not admitted, so admitted and garbage together account for every record |
| Importer.ReportOne | MediaLibraryManager/Utils/importer.swift:116-171 | a rejected file is reported as a duplicate exactly when it has no errors, otherwise with its errors, under its path |
| Importer.HandleGarbage | MediaLibraryManager/Utils/importer.swift:113-174 | one report per rejected file, in order |
| Importer.GarbageReportTruthful | MediaLibraryManager/Utils/importer.swift:113-174 | a rejected record is reported as a duplicate exactly when it passed its check |
| Importer.RejectedPasserHasAdmittedTwin | MediaLibraryManager/Utils/importer.swift:47-57 | a record that passed but was rejected has an earlier admitted record with the same path |
| Importer.FirstPasserAdmitted | MediaLibraryManager/Utils/importer.swift:47-57 | among the records up to a passing one, some record with its path was admitted |
| Exporter.Flatten | MediaLibraryManager/Utils/exporter.swift:18-24 | the exported dictionary is keyed by exactly the values of the file's entries |
| Exporter.FlattenLastWins | MediaLibraryManager/Utils/exporter.swift:18-24 | a value shared by several entries maps to the keyword of the last of them |
| Exporter.FlattenBindsEntry | MediaLibraryManager/Utils/exporter.swift:18-24 | every exported value maps to the keyword of some entry with that value |
| Exporter.Export | MediaLibraryManager/Utils/exporter.swift:18-24 | one exported record per file, in order, with the file's path, type and flattened metadata |
| Exporter.ExportImportSwaps | MediaLibraryManager/Utils/exporter.swift:18-24 | when a file's values are distinct, importing its export yields exactly its entries with keyword and value exchanged |
| Cli.HasResults | MediaLibraryManager/cli.swift:125-127 | a result set has results exactly when it is not empty |
| Cli.GetFileAtIndex | MediaLibraryManager/cli.swift:131-137 | an index within the results finds that file, one at or beyond the end finds nothing, and a negative one traps |
| Cli.LookupAgreesWithResults | MediaLibraryManager/cli.swift:125-137 | a result set has results exactly when index 0 finds a file; an index finds a file exactly when it is within the results, and looking up every index gives back the results |
| Cli.AppendNewByPath | MediaLibraryManager/cli.swift:282-290 | the list only grows and gains only files it was offered |
| Cli.HasPathInPathSet | MediaLibraryManager/cli.swift:283-288 | the path search of the list finds a path exactly when it is among the list's paths |
| Cli.AppendNewByPathPaths | MediaLibraryManager/cli.swift:282-290 | after offering files, the list's paths are its old paths plus the offered files' paths |
| Cli.AppendNewByPathDistinct | MediaLibraryManager/cli.swift:282-290 | a list without repeated paths keeps that property when files are offered |
| Cli.FirstByPath | MediaLibraryManager/cli.swift:279-292 | the reference de-duplication keeps only files it was given and never more of them |
| Cli.FirstByPathPaths | MediaLibraryManager/cli.swift:279-292 | de-duplication loses no path: a path is among the kept files exactly when it is among all of them |
| Cli.AppendNewByPathIsFirstByPath | MediaLibraryManager/cli.swift:282-290 | offering files to a de-duplicated list gives the de-duplication of the whole, so the loop keeps exactly the first file per path |
| Cli.ListLoopIsFirstByPath | MediaLibraryManager/cli.swift:279-292 | the search loop of `list` gives the first file per path among all the hits, in the order the terms find them |
| Cli.TermPathsMembers | MediaLibraryManager/cli.swift:280-292 | a path is among the search paths exactly when some term's bucket has a file with it |
| Cli.ListLoop | MediaLibraryManager/cli.swift:279-292 | the search loop keeps paths distinct and ends with exactly the paths found for the terms |
| Cli.List | MediaLibraryManager/cli.swift:270-295 | an empty library is an error; no terms lists the collection; otherwise the result is the first file per path among the terms' hits, in the order found, so it has no repeated paths and its paths are exactly those of the files filed under some term |
| Cli.ListFindsExactlyTermHits | MediaLibraryManager/cli.swift:270-295 | a path is listed exactly when some term's search finds a file with it |
| Cli.Pairs | MediaLibraryManager/cli.swift:320-327 | the pairs read from the arguments are as many as fit, so at most one argument is left over |
| Cli.PairCount | MediaLibraryManager/cli.swift:320-327 | the number of full pairs is half the argument count, rounded down, and none for no arguments |
| Cli.PairsAt | MediaLibraryManager/cli.swift:320-327 | the k-th pair is made of the two trimmed arguments at its position, both of which exist |
| Cli.DanglingIffParity | MediaLibraryManager/cli.swift:320-327 | an argument is left without a partner exactly when the argument count has the wrong parity |
| Cli.PairPathsMembers | MediaLibraryManager/cli.swift:321-340 | a path is among the pair search paths exactly when some pair's search finds a file with it |
| Cli.ListMetaLoop | MediaLibraryManager/cli.swift:319-340 | the search loop keeps paths distinct and ends with exactly the paths found for the pairs |
| Cli.ListMetaLoopIsFirstByPath | MediaLibraryManager/cli.swift:319-340 | the search loop of `list-meta` gives the first file per path among all the pair hits, in the order the pairs find them |
| Cli.ListMeta | MediaLibraryManager/cli.swift:315-346 | an empty library is an error; fewer than two arguments are a format error; an odd count traps on the missing value; otherwise the result is the first file per path among the pairs' hits, so it has no repeated paths and its paths are exactly those found for the pairs |
| Cli.ListMetaHitsAreIndexed | MediaLibraryManager/cli.swift:328 | a file is a pair search hit exactly when it is collected and contains the pair |
| Cli.AddPairs | MediaLibraryManager/cli.swift:373-381 | adding pairs touches only the chosen file and keeps its identity |
| Cli.AddPairsKeeps | MediaLibraryManager/cli.swift:373-381 | adding pairs never loses a pair the file had |
| Cli.AddPairsIndexesAll | MediaLibraryManager/cli.swift:373-381 | after adding pairs the file contains each of them |
| Cli.AddPairsIndexesExactly | MediaLibraryManager/cli.swift:373-381 | after the loop the file contains a pair exactly when it had it before or it is one of the given pairs |
| Cli.AddPairsAppendsListed | MediaLibraryManager/cli.swift:373-381 | the loop keeps the file's entries as a prefix and every entry it appends is one of the given pairs |
| Cli.AddPairsBuckets | MediaLibraryManager/cli.swift:373-381 | each value's bucket keeps what it held and gains the file once for each given pair with that value the file lacked, and nothing else |
| Cli.AddPairsAddsExactly | MediaLibraryManager/cli.swift:373-381 | the loop adds exactly the given pairs: contents, entries and buckets change as the three lemmas above say |
| Cli.Add | MediaLibraryManager/cli.swift:368-390 | a bad format is an error with nothing changed; a negative index traps; an index past the last result is reported; otherwise the chosen file keeps its identity and contains exactly its old pairs and the given ones, its entries only grow by given pairs, each bucket gains the file once per new pair with its value, no other file changes, and the result is the whole collection |
| Cli.SetPairs | MediaLibraryManager/cli.swift:402-416 | the rewrite loop touches only the chosen file and, when it stops, names a pair it was given |
| Cli.SetPairsSucceedsWhenRewritesDo | MediaLibraryManager/cli.swift:402-416 | when every rewrite succeeds, the loop never stops early |
| Loops.RunStopsAtFirstFailure | MediaLibraryManager/cli.swift:402-416 | a loop that stops at the first failing step ends with no failure exactly when every step succeeds, and then holds the state of all steps; otherwise it names the first failing step, every earlier step succeeded, and it holds the state after that step |
| Cli.AppliedStep | MediaLibraryManager/cli.swift:402-416 | before the loop no rewrite has run, and the library after k+1 rewrites is the library after k rewritten by pair k, whose flag decides whether pair k succeeds |
| Cli.SetPairsStopsAtFirstFailure | MediaLibraryManager/cli.swift:402-416 | the rewrite loop ends with no failure exactly when every rewrite succeeds, leaving all of them applied; otherwise it stops at the first failing pair, after all earlier ones succeeded, with the rewrites up to and including that pair applied |
| Cli.FirstFailureIsStop | MediaLibraryManager/cli.swift:402-416 | when pair k is the first whose rewrite fails, the loop stops at k with the rewrites up to and including k applied |
| Cli.SetFinish | MediaLibraryManager/cli.swift:405-420 | a stopped loop reports the keyword of the failing pair, keeping the library as the loop left it |
| Cli.SetAt | MediaLibraryManager/cli.swift:402-420 | only the chosen file changes; success gives the whole collection and needs an odd argument count; a trap needs an even one |
| Cli.SetAtErrorNamesKey | MediaLibraryManager/cli.swift:409-411 | every error other than a trap names the keyword argument of one of the pairs |
| Cli.SetStopsAtFirstFailure | MediaLibraryManager/cli.swift:402-416 | when pair k is the first whose rewrite fails, `set` fails naming the keyword argument of pair k as typed, keeps the rewrites up to and including k, and leaves the file last in the bucket of pair k's value |
| Cli.AppliedEndsWithFile | MediaLibraryManager/multiMediaCollection.swift:155-165 | after pair k's rewrite, whether it succeeded or not, the file is last in the bucket of pair k's value |
| Cli.SetAllRewritesSucceed | MediaLibraryManager/cli.swift:402-420 | when every rewrite succeeds, `set` applies them all, succeeds exactly when the argument count is odd, and traps exactly when it is even |
| Cli.Set | MediaLibraryManager/cli.swift:397-421 | a bad format is an error with nothing changed; a negative index traps; an index past the last result is reported; otherwise the outcome is the rewrite loop on the chosen file |
| Cli.RemoveEach | MediaLibraryManager/cli.swift:435-441 | deleting a key's entries touches only the chosen file |
| Cli.RemoveEachNoNewKeys | MediaLibraryManager/cli.swift:435-441 | deleting never adds a keyword to the file |
| Cli.RemoveEachKeepsWellFormed | MediaLibraryManager/cli.swift:435-441 | deleting keeps the file's multimap well formed |
| Cli.RemoveEachClearsKey | MediaLibraryManager/cli.swift:435-441 | when every deletion of a key's entries succeeds, the key is gone from the file |
| Cli.DelKeys | MediaLibraryManager/cli.swift:432-446 | deleting keys touches only the chosen file |
| Cli.DelKeysAbsentIsNoop | MediaLibraryManager/cli.swift:432-446 | keys the file does not have change nothing and report success |
| Cli.DelKeysRefusesRequired | MediaLibraryManager/cli.swift:437-441 | a first key that the file's type requires and that has values is refused with nothing changed |
| Cli.DelKeysNoNewKeys | MediaLibraryManager/cli.swift:432-446 | deleting keys never adds a keyword to the file |
| Cli.DelKeysClearsKeys | MediaLibraryManager/cli.swift:432-446 | when the deletion succeeds, every named key is gone from the file |
| Cli.Del | MediaLibraryManager/cli.swift:428-453 | a bad format is an error with nothing changed; a negative index traps; an index past the last result is reported; otherwise only the chosen file changes, and the result is the whole collection exactly when every deletion succeeded, else a not-allowed error |
| Cli.DelRemovesKeys | MediaLibraryManager/cli.swift:428-453 | after a successful `del` none of the named keys is left on the file |
| Cli.RemovePairs | MediaLibraryManager/cli.swift:460-466 | removing pairs never changes a file outside the collection |
| Cli.RemovePairsIsPerFile | MediaLibraryManager/cli.swift:460-466 | each collected file ends up as its own deletions of the pairs, in order |
| Cli.RemovePairsSparesRequired | MediaLibraryManager/cli.swift:460-466 | a file whose type requires every given keyword is never changed |
| Cli.DelAll | MediaLibraryManager/cli.swift:458-471 | fewer than two arguments are an error with nothing changed; otherwise the pairs are removed from the whole library, and the result is the whole collection for an even count and a trap for an odd one |
| Cli.LastPathComponent | MediaLibraryManager/Utils/importer.swift:38 | the file name is the part of the path after its last '/' |
| Cli.NewIds | MediaLibraryManager/cli.swift:242-244 | the files created by a load get consecutive new ids |
| Cli.AddFiles | MediaLibraryManager/cli.swift:242-244 | the read files are appended to the store and to the collection, in order |
| Cli.LoadFile | MediaLibraryManager/cli.swift:238-247 | a path that is not decoded changes nothing and gives its error (missing file and failed read named by path); otherwise the files the importer admits are appended, in order, to the store and the collection under new consecutive ids |
| Cli.StageError | MediaLibraryManager/cli.swift:240-246 | the error for a path that was not decoded is the invalid-file error exactly when the file is missing and the read error exactly when the read failed |
| Cli.AddFilesConcat | MediaLibraryManager/cli.swift:242-244 | adding two lists of files one after the other is adding them joined |
| Cli.LoadPaths | MediaLibraryManager/cli.swift:236-248 | loading only appends files, never changes earlier ones |
| Cli.LoadPathsInOrder | MediaLibraryManager/cli.swift:236-248 | when the paths of the first k arguments are decoded, the loop adds their files in argument order; it ends there if there are no more arguments, and stops with the error of argument k if its path is not decoded |
| Cli.Load | MediaLibraryManager/cli.swift:234-253 | no arguments is an error with nothing changed; loading only appends files; success gives an empty result set |
| Cli.LoadInOrder | MediaLibraryManager/cli.swift:234-253 | when every path is decoded, `load` adds the files of all arguments in argument order and succeeds with an empty result set; when argument k is the first path not decoded, it fails with that path's error after adding the files of the arguments before it |
| Cli.LoadOneIsLoadFile | MediaLibraryManager/cli.swift:234-253 | loading one argument loads its resolved path and reports that load's error, if any |
| Cli.AddFilesTwice | MediaLibraryManager/cli.swift:242-244 | adding the same files twice gives two copies of each, one after the other |
| Cli.LoadTwiceDuplicates | MediaLibraryManager/cli.swift:234-253 | loading the same path twice puts every admitted file in the collection twice, under two different ids with equal contents |

## Left out

- Printing is not modelled: the import summary and the garbage log in
  `Utils/importer.swift`, and `showResults` in `cli.swift`. `Importer.HandleGarbage`
  returns the reports instead of printing them.
- Reading a file, converting it to UTF-8 and decoding the JSON are a
  parameter `fs` of `load`. `FileManager.fileExists` is the `Absent` outcome
  of that parameter.
- `rewriteMetadata` is not defined in the code base. It is the parameter
  `rewrite` of `set`.
- `FileManager.default.currentDirectoryPath` and the home directory used by
  `expandingTildeInPath` are parameters of `CommandLineParser.GetCommand`.
- Cli.LastPathComponent: a path ending in '/' gives an empty name. Foundation's
  `lastPathComponent` skips trailing slashes. Imported paths that end in '/'
  are not modelled.
- CommandLineParser.ValidFormat: requires at least one argument or a minimum
  count of at least one. With a minimum of zero and no arguments, the Swift
  code reads `params[0]` and traps. Every handler asks for at least two
  arguments, so this case is never reached.
- CommandLineParser.ParseInt: models `Int(String)` as an optional sign and
  decimal digits within 64 bits. Other Swift integer sizes are not modelled.
- Counters and indices are unbounded integers. The collection's `count` and
  the import's `validFileCount` cannot overflow in the model.
- `del-all` is commented out in the command dispatch of `main.swift`. The
  handler is modelled on its own, as the code defines it.
- Not modelled: the `help`, `clear`, `quit`, `save` and `save-search`
  handlers, the read-eval loop of `main.swift`, and the JSON encoding and
  writing in `Utils/exporter.swift`. They are I/O or outside this core.
- Swift dictionary iteration order is unspecified. The importer takes that
  order as input (`DecodedItem.order`).
- Cli.SetAllRewritesSucceed: the parity statement assumes every rewrite
  succeeds. Whether a rewrite succeeds depends on `rewriteMetadata`, which is
  not in the code base; `Cli.SetStopsAtFirstFailure` covers the other case.
- Strings are compared character by character. Swift's `String` equality
  and dictionary keys use Unicode canonical equivalence, so two spellings of
  the same accented text are equal in Swift but different here. This
  affects value search (`Collection.SearchTerm`), path comparisons
  (`Collection.HasPath`, `Cli.AppendNewByPath`, `Importer.PathTaken`) and
  keyword lookups.
- Collection.RemoveFromEachIsPerFile, Collection.RemoveFromEachBucket and
  Collection.Remove: the per-file result and the exact bucket of the removed
  value are stated for a collection without repeated ids; with repeats only
  the prefix bound on that bucket is promised. Loading the same JSON
  twice adds new ids, so ids repeat only if a file is added twice directly.
