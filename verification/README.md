# Exact comparison and transactional ledgers: a verified model

This project models the part of the shader recovery tool that decides whether two things are the same and
that records what an export has done, and proves what its callers rely on.

* **Canonical comparison of Release shader objects.** Two decoded value trees are compared member by member;
  maps are unordered, floats are compared by their bits, byte arrays may be stored packed or element by
  element. On top stand nineteen field verdicts, a reference comparison by stable identity, a comparison of
  compiled archives that does not see their segmentation, and the report object that gathers it all.
* **Certificate tables.** Two strict tab-separated tables are parsed in place from one buffer and appended to
  a table that changes only on success.
* **Byte pre-images.** The encodings that are hashed into identities, and the JSON string encoder.
* **Material export.** Materials are classified, grouped by shader with a counting sort, projected,
  published in a fixed order while the files they depend on are held, and counted; two censuses re-derive the
  ledger afterwards.
* **Native texture transaction.** Target textures are discovered once each, staged from held files, and
  committed only if every held file closed unchanged; a census re-derives the result.

## How the model is built

`TypeTree`, `CanonicalCompare`, `CanonicalForm`, `CanonicalSound`, `CanonicalLimits` and `MapOrder` cover the tree
comparison: the loops of the program are methods proved against recursive verdict functions, and the theorems are
about those functions. `FieldCompare`, `References`, `Archives` and `CertificateReport` build the nineteen fields;
`CertificateReport.Report` is a class whose methods write the fields, counters and first problem in place, and
`ReleaseIdentity` says what a certificate of identity means for the two objects. `Decimals` and `CertificateTables`
hold the table grammar and its printer, `CertificateRows` what rows and tables say column by column, `TableParser`
the in-place parsers over `array<char>`. `Preimages` and `JsonBytes` hold the encoders.

On the material side, `MaterialLedger` holds the records, the counters and the two censuses,
`MaterialGrouping` the counting sort over arrays, `MaterialDependencies` the projection and the lease book,
`Publication` the output tree and the publication of one material, `ExportRun` and `ExportSteps` what holds
between two steps of a run, `ExportReasons` why records fail, `MaterialExport` the class that performs the
export, and `ExportCensus` the last census. On the texture side, `TextureTargets` is discovery,
`TexturePublication` one publication, `TextureRecords`, `TextureRun` and `TextureSteps` what holds between two
steps, `TextureReasons` why records fail, `TextureTransaction` the class, and `TextureCensus` the publication snapshot.

The environment is nondeterministic: opening a file, closing a held identity, visiting a snapshot, running out of
memory and every publication may come out either way, and other processes may create files at any moment.
Publication itself never overwrites: equal bytes read as unchanged, different bytes as a collision, and an I/O error
may leave the exact file behind. Functions of the environment that answer the same question the same way (pointer
resolution, emitted documents, SHA-256, asset identities, resource and asset paths; for textures the fields of
`TextureRecords.Environment`) are parameters, so every theorem holds for each of them. So are answers that a run asks
for at most once: the reference policy's for each texture property, and for each texture its decoded object, its
memory and its directory. Fixed promises of such a parameter are written as a predicate in the contract that needs
it, for example `ExportCensus.AllSane` for the pointer resolver.

What an operation decides is stated apart from the functions it runs on wherever the two could share a mistake: trees
in `CanonicalForm.WellFormed` and `CanonicalSound.Sound`, pointers in `References.SameObject`, archives in
`Archives.HoldsPayloads`, table rows in `CertificateRows.PrintsSides`, a certificate in `ReleaseIdentity.SameRelease`,
the policy's answers in `MaterialDependencies.Describes`, and reasons in `TextureReasons.HasReason`.

`OutputStore.history` records the output tree after every publication, so "at every moment" is a statement
about its entries. `LeaseBook` records which held identities are open, closed, and found changed; each one handed
out is open or closed, never both, and closing requires it to be open, so nothing can be closed twice.
`MaterialBatch.backings` records what was held while each material was published, and `TextureBatch.resources` the
resource files a texture batch read. `hide` statements keep proofs small.

Where a property the program might be expected to have is false, the model keeps the program as it is, shows an
input and proves the exact condition. EQUAL is not transitive through packed byte arrays: through a tree without
maps it is exactly when, wherever the middle tree packs an array that the outer ones do not, their elements there
carry the same headers and signedness (`CanonicalLimits.TransitiveExactlyWhenShapesAgree`). Verdicts need not be
symmetric on maps, and are symmetric on every tree without one. DIFFERENT against INVALID can depend on map order
on malformed trees; `MapOrder.MapOrderMatters` says exactly when, for every list of keys. The canonical decimal
grammar accepts `-0`, its only second spelling of a number.

## Model

| member | source | states |
|---|---|---|
| CanonicalCompare.CompareValues | src/app/release_shader_object_certificate.c:266-328 | the recursive comparison with its member and map loops terminates on every tree and computes the verdict function the theorems below are about |
| CanonicalCompare.CompareMaps | src/app/release_shader_object_certificate.c:152-224 | the one-directional map search, key validation first, computes the map verdict |
| CanonicalCompare.CompareArrays | src/app/release_shader_object_certificate.c:226-264 | packed and per-element byte arrays are compared number by number, other arrays by position |
| CanonicalForm.VerdictDecidesCanon | src/app/release_shader_object_certificate.c:103-328 | on well-formed trees (a name and a type everywhere, known kinds, texts of exactly their recorded length, whole buffers, map entries of two members named "first" and "second") the verdict is never INVALID and is EQUAL exactly when the two canonical forms (maps as finite maps, one list form for both byte storages, floats as bits) coincide |
| CanonicalForm.MapVerdictDecidesCanon | src/app/release_shader_object_certificate.c:152-224 | searching from the expected side only, with equal counts and distinct keys on both sides, decides equality of the two finite maps |
| CanonicalForm.VerdictIsEquivalence | src/app/release_shader_object_certificate.c:266-328 | EQUAL is reflexive, symmetric and transitive on well-formed trees, and every verdict is symmetric there |
| CanonicalForm.MapOrderIsIrrelevant | src/app/release_shader_object_certificate.c:152-224 | permuting the entries of a map on either side changes no verdict |
| CanonicalSound.SelfVerdict | src/app/release_shader_object_certificate.c:103-328 | every tree compared with itself is EQUAL or INVALID, and EQUAL exactly when it has a name and a type everywhere, known kinds, texts of exactly their recorded length, whole buffers, no packed map, and maps whose entries are two members named "first" and "second" with keys that are DIFFERENT from every earlier key |
| CanonicalSound.PackedAgainstElements | src/app/release_shader_object_certificate.c:242-256 | packed bytes equal a per-element array exactly when each element is an integer of that number; the first that is not decides, INVALID when it is no integer or negative, and the two directions agree |
| CanonicalLimits.TransitiveExactlyWhenShapesAgree | src/app/release_shader_object_certificate.c:226-328 | over all trees whose middle one holds no map: if `x` equals `y` and `y` equals `z`, then `x` equals `z` if and only if, wherever `y` stores an array packed and `x` and `z` store it element by element, their elements there carry the same headers and signedness |
| CanonicalLimits.PackedMiddleIsTransitive | src/app/release_shader_object_certificate.c:242-256 | the array case of that: two per-element byte arrays that both equal one packed array are EQUAL to each other if and only if their elements carry the same headers and signedness position by position |
| CanonicalLimits.NotTransitive | src/app/release_shader_object_certificate.c:242-256 | a concrete triple on which EQUAL is not transitive |
| CanonicalLimits.NotSymmetric | src/app/release_shader_object_certificate.c:198-222 | under every map header there is a concrete pair of maps, their entries free of maps, on which EQUAL is not symmetric |
| CanonicalLimits.MapFreeIsSymmetric | src/app/release_shader_object_certificate.c:226-328 | every verdict is symmetric as soon as one of the two trees holds no map, malformed or not |
| CanonicalLimits.SymmetricExactlyOffMaps | src/app/release_shader_object_certificate.c:234-241 | over all arrays of map-free elements under one header, the verdict is symmetric if and only if the header is not a map's |
| MapOrder.EntriesOrderMatters | src/app/release_shader_object_certificate.c:198-223 | every order of the expected entries gives the same verdict if and only if no entry is looked up as INVALID while another is looked up as DIFFERENT |
| MapOrder.MapOrderMatters | src/app/release_shader_object_certificate.c:152-224 | the same for the whole map, key validation included and whatever its keys: the verdict is one and the same for every order of the expected entries if and only if no order of them or the other side is valid, or every order is valid and no INVALID lookup stands beside a DIFFERENT one, or only some orders are valid and every set of entries around a DIFFERENT lookup that is closed under having to come before holds an INVALID one |
| MapOrder.SymmetricMapOrderMatters | src/app/release_shader_object_certificate.c:152-224 | when the expected keys compare alike in both directions the condition is only that a side has invalid keys or no INVALID lookup stands beside a DIFFERENT one |
| MapOrder.MapFreeKeysAreSymmetric | src/app/release_shader_object_certificate.c:163-197 | keys that hold no map compare alike in both directions, so reordering them keeps key validation as it was |
| MapOrder.LookupOrderMatters | src/app/release_shader_object_certificate.c:203-220 | a lookup finds the same in every order of the actual entries if and only if all actual entries that answer its key agree |
| MapOrder.ActualOrderMatters | src/app/release_shader_object_certificate.c:198-223 | for the loop over the expected entries, at every point where it may end: its verdict is the same for every order of the actual entries if and only if the answers to each entry agree that is reached because all earlier ones are EQUAL in every order |
| MapOrder.VerdictNeverUnavailable | src/app/release_shader_object_certificate.c:266-328 | the comparison of two trees itself never answers UNAVAILABLE |
| CanonicalLimits.MalformedVerdictDependsOnOrder | src/app/release_shader_object_certificate.c:198-222 | under every map header, malformed values exist for which swapping two map entries turns DIFFERENT into INVALID |
| FieldCompare.EqualChildren | src/app/release_shader_object_certificate.c:343-361 | in two EQUAL trees a named child is present on both sides or on neither, and EQUAL when present |
| FieldCompare.CompareNamedList | src/app/release_shader_object_certificate.c:380-390 | the loop over the names reports the worst verdict among them |
| FieldCompare.CompareTopology | src/app/release_shader_object_certificate.c:392-427 | the subshader loop computes the topology verdict and the subshader at fault |
| FieldCompare.CompareProgramPart | src/app/release_shader_object_certificate.c:438-489 | the loop over the six program stages computes the verdict on program variants or parameters and the stage at fault |
| FieldCompare.CompareSequences | src/app/release_shader_object_certificate.c:491-589 | the loops over subshaders and passes compute the verdict of each sequence category and the subshader, pass and stage at fault |
| FieldCompare.BackstopSubsumesSequences | src/app/release_shader_object_certificate.c:392-589 | if the whole parsed forms are EQUAL, no subshader, pass or program sequence is ever DIFFERENT, UNAVAILABLE arises for program variants only, and on schema-shaped trees none is INVALID and the topology is EQUAL, and none is UNAVAILABLE when no editor programs are recorded |
| FieldCompare.BackstopSubsumesFields | src/app/release_shader_object_certificate.c:354-390 | under the same hypothesis each named field is EQUAL when present and INVALID only when absent |
| CertificateReport.NoMismatchUnderBackstop | src/app/release_shader_object_certificate.c:1121-1195 | while the residual field matches, no category between properties and parameter bindings reports MISMATCH, and on schema-shaped objects each matches, program variants being possibly unavailable only when editor programs are recorded |
| References.ReferencesIgnoreNumbering | src/app/release_shader_object_certificate.c:612-768 | renumbering file and path identifiers, with the resolver renumbered alike, changes no dependency or texture status |
| References.PointerStatusMeaning | src/app/release_shader_object_certificate.c:612-644 | two pointers match exactly when both are null, or neither is and the resolver gives both the same identity; they mismatch exactly when one alone is null or the identities differ; authority is invalid exactly when one cannot be read, and unavailable exactly when one of two non-null pointers has no answer |
| References.DependencyStatusDecidesLists | src/app/release_shader_object_certificate.c:651-683 | the dependency list matches exactly when both sides have as many pointers and every position names one object; otherwise the count, or the first position that does not, decides with its own verdict |
| References.CompareDependencies | src/app/release_shader_object_certificate.c:651-683 | the loop over the two lists computes that status and position |
| References.ParsedPointerMeaning | src/app/release_shader_object_certificate.c:596-610 | a pointer is read exactly when the first members of its two names hold integers in 32 and 64 bits, and has those numbers |
| References.TextureTableMeaning | src/app/release_shader_object_certificate.c:686-712 | a texture table is read exactly when every element is a pair of an exact text and a pointer and no two texts are the same, and has those rows |
| References.TextureStatusNamesFirstRow | src/app/release_shader_object_certificate.c:714-768 | a texture table that does not match is decided by its first row without agreement: MISMATCH when the key is missing on the other side, else the verdict on the two pointers |
| References.CompareTextures | src/app/release_shader_object_certificate.c:686-768 | the uniqueness scan and the two search loops compute the status and the row at fault |
| References.TextureStatusDecidesTables | src/app/release_shader_object_certificate.c:714-768 | the texture table matches exactly when both tables, as finite maps, have the same keys and each pair of pointers is null on both sides or resolves to the same stable identity |
| References.TextureOrderIsIrrelevant | src/app/release_shader_object_certificate.c:686-768 | reordering either texture table leaves a match a match |
| References.ResolveReference | src/app/release_shader_certificate_job.c:515-538 | the linear search returns the stable identity of the first row with the side, owner and pointer asked for |
| References.ResolutionIgnoresRowOrder | src/app/release_shader_certificate_job.c:283-299 | in a reference map without duplicates the row order never changes what a pointer resolves to |
| Archives.CompareArchives | src/app/release_shader_object_certificate.c:812-880 | the entry and byte loops compute the archive report |
| Archives.ReportDecidesArchives | src/app/release_shader_object_certificate.c:812-880 | archives are EQUAL exactly when both are well-shaped with equal stage counts and equal payloads entry by entry; otherwise size and payload mismatches name the least differing entry and byte |
| Archives.ReportMeaning | src/app/release_shader_object_certificate.c:789-880 | in terms of the stored bytes: EXPECTED_INVALID exactly when some segment is missing or empty or some entry does not lie in its segment, ACTUAL_INVALID likewise for a whole expected side, then stage and entry counts, then EQUAL exactly when both sides hold the same payloads |
| Archives.PlatformsMeaning | src/app/release_shader_object_certificate.c:882-900 | a platform list is read exactly from an array kept by element of distinct 32-bit integers |
| Archives.SegmentationIsIrrelevant | src/app/release_shader_object_certificate.c:789-880 | cutting the bytes of either archive into other segments, each entry keeping its place in the joined bytes, changes nothing in the report |
| Archives.MergedIsSameBytes | src/app/release_shader_object_certificate.c:789-810 | joining all segments into one and moving every offset by the lengths of the segments before it gives a valid archive with the same bytes |
| Archives.ArtifactsIgnoreSegments | src/app/release_shader_object_certificate.c:942-1021 | over all platforms, re-segmenting any archive of either object changes neither the status, the location nor the three counts of the artifact field |
| Archives.MergingIsIrrelevant | src/app/release_shader_object_certificate.c:942-1021 | in particular an object whose archives are stored whole is compared as one stored in pieces, on either side |
| Archives.PlatformStatusDecidesSets | src/app/release_shader_object_certificate.c:913-940 | the platform check, searching one way, matches exactly when both platform sets are the same |
| Archives.CompareArtifacts | src/app/release_shader_object_certificate.c:942-1021 | the walk over the expected platforms computes the artifact result, and its overflow guards never fire |
| Archives.ArtifactsDecideObjects | src/app/release_shader_object_certificate.c:942-1021 | the artifacts match exactly when the platform sets agree and each platform's archives have equal payloads; then expected, actual and matched counts are equal |
| CertificateReport.Report.RecordField | src/app/release_shader_object_certificate.c:65-88 | a field is written once; the counters stay the true counts; and if the first problem was the least field that does not match, it still is if and only if the new status matches, there was no problem yet, or the recorded problem has a smaller number |
| CertificateReport.CountsAfterUpdate | src/app/release_shader_object_certificate.c:73-79 | recording a field not yet evaluated adds exactly one to the evaluated count and one to the matched count when it matches |
| CertificateReport.Report.FillRemaining | src/app/release_shader_object_certificate.c:90-101 | whatever was recorded before, the fields still open, and only those, receive the given status, and a first problem found this way is the least of them, without coordinates |
| CertificateReport.Report.CertifyEqual | src/app/release_shader_object_certificate.c:1066-1258 | every path writes each of the nineteen fields once with the status its early return or comparison calls for, the first problem is the least field that does not match and carries the coordinates of its comparison, the report status is the worst field severity on the full path, identity is certified exactly when all fields match, and source and visual claims stay false |
| CertificateReport.ArtifactCountsAgree | src/app/release_shader_object_certificate.c:942-1021 | when the artifact field matches, the three artifact counts of the report agree |
| ReleaseIdentity.SequencesMeaning | src/app/release_shader_object_certificate.c:438-589 | each sequence category is EQUAL exactly when both sides have as many subshaders and passes and in each of them every field the category reads, named one by one, is there and EQUAL; program variants also need empty editor program lists |
| ReleaseIdentity.CertifiedExactlyWhenSame | src/app/release_shader_object_certificate.c:1066-1258 | identity is certified exactly when both objects are decoded under one valid schema, profile, file version and target platform, their names and whole parsed forms are EQUAL with every field the categories read and no editor programs, their dependency lists name the same objects position by position, their texture tables agree as maps, their baked flags are the same zero or one, and they have the same platforms with the same payloads |
| Decimals.CanonicalDecimalsAreUnique | src/app/release_shader_certificate_job.c:69-95 | two canonical decimals with one value are the same text, or are `0` and `-0` |
| Decimals.CanonicalDecimalIsPrinted | src/app/release_shader_certificate_job.c:69-82 | printing the value of a canonical decimal returns the text, `-0` excepted |
| CertificateTables.ParseAccepts | src/app/release_shader_certificate_job.c:202-281 | a table is accepted exactly when size, final newline, header, every row, uniqueness and row limit are in order, and then holds one row per line |
| CertificateTables.RejectionNamesFirstBadLine | src/app/release_shader_certificate_job.c:240-281 | the line a rejection names is the first that cannot be accepted, all before it being good, for the reason reported |
| CertificateTables.IdGuardsNeverReject | src/app/release_shader_certificate_job.c:134-200 | a row that passed the field checks never fails the identifier length guards |
| CertificateTables.PairsParseWhatIsPrinted | src/app/release_shader_certificate_job.c:222-281 | parsing a printed pair table returns its rows in order |
| CertificateTables.PairsPrintWhatIsParsed | src/app/release_shader_certificate_job.c:222-281 | printing a parsed pair table returns the text up to carriage returns before line ends |
| CertificateTables.ReferencesParseWhatIsPrinted | src/app/release_shader_certificate_job.c:318-385 | parsing a printed reference map returns its rows in order |
| CertificateTables.ReferencesPrintWhatIsParsed | src/app/release_shader_certificate_job.c:318-385 | printing a parsed reference map returns the text up to carriage returns and the spelling `-0` |
| CertificateRows.PairFieldsMeaning | src/app/release_shader_certificate_job.c:105-200 | six columns are a pair row exactly when they print two sides, each as `o:`, occurrence digest and path, `s:`, digest and path, and the digest, with 32-byte digests, 64-bit paths and zero possibly signed |
| CertificateRows.PrintedSidesParse | src/app/release_shader_certificate_job.c:105-200 | the line printed from any two sides is accepted with those columns |
| CertificateRows.PairTableMeaning | src/app/release_shader_certificate_job.c:202-281 | a text parses to a pair table exactly when it is at most 64 MiB, ends its last line, holds the header and up to 1048576 lines of that form, and no occurrence is listed twice on its side |
| CertificateRows.ReferenceRowMeaning | src/app/release_shader_certificate_job.c:318-370 | a line gives a reference row exactly when its five columns print that row: side, owner digest, 32-bit file id, 64-bit path id, not both zero, and identity |
| CertificateRows.ReferenceTableMeaning | src/app/release_shader_certificate_job.c:318-385 | a text parses to a reference map exactly when it is at most 64 MiB, ends its last line, holds the header and up to 1048576 such lines, and no side, owner and pointer comes twice |
| TableParser.SplitTabs | src/app/release_shader_certificate_job.c:121-132 | cutting a line in place at its tabs leaves exactly its fields as terminated strings, or reports one field too many, and touches nothing behind the line |
| TableParser.ParsePairs | src/app/release_shader_certificate_job.c:222-281 | the in-place parser delivers the specified rows, or the status and line of the first error with the caller's table unchanged |
| TableParser.ParseReferences | src/app/release_shader_certificate_job.c:318-385 | the same for the reference map |
| TableParser.ParsedReferencesAreUnique | src/app/release_shader_certificate_job.c:283-316 | a parsed reference map holds no side, owner and pointer twice |
| Preimages.ReleaseDigest | src/app/shader_catalog_object.c:22-53 | the successive hash updates feed exactly the release pre-image |
| Preimages.LittleEndianReadsBack | src/app/native_texture_batch.c:673-683 | a number that fits a word is read back from its bytes, least significant first |
| Preimages.ReleasePreimageDecodable | src/app/shader_catalog_object.c:22-53 | two release records have one pre-image exactly when they agree, an absent member name counting as empty |
| Preimages.RenderStateDigest | src/app/release_shader_object_certificate.c:1023-1057 | the nested loops feed exactly the count-and-digest stream |
| Preimages.RenderStatePreimageDecodable | src/app/release_shader_object_certificate.c:1023-1057 | the nested count-and-digest stream determines the passes of every subshader |
| Preimages.TextureIdentityDecodable | src/app/native_texture_batch.c:685-713 | the texture identity bytes determine both digests, the path and the class |
| Preimages.MaterialIdentityDecodable | src/app/material_batch.c:782-800 | the material identity bytes determine the source digest, the path and the document digest |
| JsonBytes.AppendJsonBytes | src/app/material_batch.c:613-636 | the loop appends the quoted and escaped bytes |
| JsonBytes.JsonIsPrintable | src/app/material_batch.c:613-636 | whatever the bytes, the string is printable and stands between two quotes |
| JsonBytes.JsonRoundTrip | src/app/material_batch.c:613-636 | reading the string back under section 7 of RFC 8259 returns the bytes, for every byte sequence and whatever follows |
| MaterialGrouping.GroupByShader | src/app/material_batch.c:1191-1234 | offsets, cursors and placements fill the index array with all groups in shader order; every write is in bounds, every cursor ends at the next offset, and the guard against the catalog size holds |
| MaterialGrouping.SliceIsGroup | src/app/material_batch.c:1191-1240 | the slice between two neighbouring offsets is that shader's group |
| MaterialGrouping.MembersAscend | src/app/material_batch.c:1222-1231 | a group lists exactly its shader's grouped materials, in increasing catalog order |
| MaterialGrouping.GroupsArePermutation | src/app/material_batch.c:1222-1231 | the grouped order lists every grouped material once and nothing else |
| MaterialGrouping.OffsetsFit | src/app/material_batch.c:1194-1204 | the sum of the groups never exceeds the catalog, so the overflow guard cannot fire |
| MaterialDependencies.ProjectOne | src/app/material_batch.c:420-609 | one property's record describes the graph's answer and the policy's: an accepted reference is the answered one, each other status the answered one, and a rejection has its cause in the answer, the missing closer or a lease found changed; the counters grow by what the status stands for, the failure is the one of its branch, and a lease offered and not accepted is closed on the spot |
| MaterialDependencies.ConsultPolicy | src/app/material_batch.c:493-590 | an answer is rejected exactly when it says so, when its reference is not in order, when it is exported without a lease or a closer, when it is not exported but leased, or when the lease beside a refusal cannot be given back or is found changed; a lease is kept exactly for an accepted exported reference |
| MaterialDependencies.ProjectDependencies | src/app/material_batch.c:395-611 | after every property the six counters are the tally of the recorded statuses, the failure is the first one recorded, a lease found unstable on the way is a failure; with a closer the only leases still open are the accepted ones, each taken meanwhile and for an exported dependency, and without one no dependency is exported |
| MaterialDependencies.CloseLeases | src/app/material_batch.c:149-164 | every accepted lease is closed, and only those; the result is stable exactly when none of them was found changed and, without a closer, none was held |
| MaterialDependencies.FirstFailureMeaning | src/app/material_batch.c:416-610 | the projection reports no failure exactly when no dependency failed |
| Publication.OutputStore.PublishExact | src/app/material_batch.c:896-921 | an exact publication never alters or removes a file, and names what it wrote |
| Publication.PublishInOrder | src/app/material_batch.c:892-921 | companions first: in every state between, a material file written by this call has both companions beside it, byte for byte |
| Publication.PublishPrepared | src/app/material_batch.c:863-977 | nothing existing is altered; on failure every file this call wrote stands in the record's ledger and raises its residue flag, a collision is with another file at one of the three paths, and an I/O failure follows an I/O error; publishing again over the same files reports all three unchanged |
| MaterialExport.MaterialBatch.PublishRecord | src/app/material_batch.c:1011-1070 | a material is published only while its accepted leases are open; afterwards, when a closer was supplied, every lease handed out meanwhile is closed, a published material was backed by one lease for each exported dependency, all closed and none found changed, its files hold exactly its documents, and a failed projection or an unstable lease leaves it unpublished |
| MaterialExport.MaterialBatch.PublishGroup | src/app/material_batch.c:1236-1320 | a group is published between the opening and the closing of its shader files; if either file was found changed, none of its materials stays published |
| MaterialExport.MaterialBatch.FailGroup | src/app/material_batch.c:1262-1286 | a group that cannot be published fails as a whole for the one reason found |
| MaterialExport.MaterialBatch.SettleGroup | src/app/material_batch.c:1295-1319 | a group whose shader files closed stable keeps its records and gets them counted; one whose files closed unstable keeps no published material |
| MaterialExport.MaterialBatch.Export | src/app/material_batch.c:1072-1329 | every run ends with each record in the state its catalog entry calls for and every counter true; every failed record carries the first reason that applies to it (catalog state, shader index, incomplete graph, what the shader batch recorded, its own projection, documents or output, a lease or shader file found changed), a collision is with another file where its documents belong, every recorded dependency is what the graph and the reference policy answered, and only materials of groups in order are published; with a closer every lease handed out during the run is closed; every published material was backed by one lease per exported dependency and by both files of its shader, each closed and none found changed; no file is altered; companions stand beside every material the run wrote, also one left behind by an I/O error, at every state of the run; every file written is named in a record; and every published material holds exactly the documents emitted from its recorded dependencies |
| ExportRun.AnswersAreRecorded | src/app/material_batch.c:420-609 | over the whole export a reference is recorded exactly when the policy was asked, its answer accepts and nothing turns it down, and it is the answered reference; a rejected one was turned down, and any other refusal is recorded as answered |
| MaterialLedger.ExportPartitionsRecords | src/app/material_batch.c:1156-1320 | unselected, unassociated, emitted, unchanged and failed partition the records, and every chosen material is published or failed |
| MaterialLedger.IsComplete | src/app/material_batch.c:1334-1488 | the completeness census decides the predicate it stands for, shader groups included |
| MaterialLedger.CensusAcceptsExport | src/app/material_batch.c:1334-1488 | producer meets checker: an export is accepted, under selection bits read later, exactly when nothing failed and no shader of a ready decoded material has changed its bit |
| MaterialLedger.TexturesAreClosed | src/app/material_batch.c:1572-1644 | the dependency census decides completeness, closure of every dependency with its evidence, and equality of the six counters with the tally |
| ExportCensus.ClosureCensusOfExport | src/app/material_batch.c:1506-1644 | with a resolver that keeps its promises the dependency census accepts an export exactly when no material failed, no texture was left unexported, and no published material has a texture property with an empty name |
| ExportCensus.ClosureCensusOfEmitted | src/app/material_batch.c:1506-1644 | the last condition falls away when the material emitter rejects empty names, since every published material was emitted |
| TextureTargets.Gather | src/app/native_texture_batch.c:306-360 | discovery yields the population of the selection, and selected is texture2d plus render texture, each the true count |
| TextureTargets.FirstOccurrencesAreFirsts | src/app/native_texture_batch.c:254-304 | the population is the sequence of exactly the first occurrences, in the order in which they are met |
| TextureTargets.FirstOccurrencesDiffer | src/app/native_texture_batch.c:254-304 | no source and path occurs twice |
| TextureTargets.PopulationCovers | src/app/native_texture_batch.c:306-360 | every native texture a selected material points at is in the population exactly once |
| TextureTargets.PopulationMatches | src/app/native_texture_batch.c:1455-1481 | the later check accepts exactly the population of the selection as it reads then |
| TextureTargets.PopulationIsListed | src/app/native_texture_batch.c:1518-1543 | if the resolver answers with objects their sources list, every texture of the population is found in its source by digest, occurrence, class and path |
| TextureRecords.CountersPartition | src/app/native_texture_batch.c:70-97 | with no record pending, emitted, unchanged and failed add up to the records |
| TextureTransaction.TextureBatch.Fail | src/app/native_texture_batch.c:70-97 | failing a record in any state keeps every counter true, takes a publication back with its residue, and keeps the first reason |
| TextureTransaction.TextureBatch.AcquireAnchor | src/app/native_texture_batch.c:124-173 | anchors keep distinct paths, and exactly the anchored files stay open |
| TextureTransaction.TextureBatch.StageBytes | src/app/native_texture_batch.c:793-842 | staging fails with the path exactly when a stream has no path or no held file, with the range exactly when offset and size exceed the file, with the identity exactly when none can be derived from what is drawn, for memory exactly when the copy gets none, and otherwise stages the slice |
| TextureTransaction.TextureBatch.StageSourceRecords | src/app/native_texture_batch.c:192-252 | afterwards every pending decoded record of the source is staged from the slice its object names, or has failed, and whatever has failed so far has its reason in its object, the held files and what the batch relies on |
| TextureTransaction.TextureBatch.CloseAnchors | src/app/native_texture_batch.c:515-541 | each anchor is closed once, a resource file found changed fails every record that read it, and every record stays anchored in the files that were held |
| TextureTransaction.TextureBatch.ReadSources | src/app/native_texture_batch.c:568-658 | the transaction stands exactly when every source had an open snapshot, every snapshot was open with a path and visited without error, memory sufficed, and no held file was found changed when closed; otherwise every record has failed; all snapshots are closed and nothing is published |
| TextureTransaction.TextureBatch.TakeStaged | src/app/native_texture_batch.c:886-911 | at commit the size and digest checks on the staged bytes cannot reject |
| TextureTransaction.TextureBatch.Commit | src/app/native_texture_batch.c:877-1089 | a commit happens only in a standing transaction with every anchor closed; it publishes or fails the record, alters no file, names every file it wrote, keeps metadata before asset over the run so far, and a published record holds the documents emitted from the slice of the held resource file its object names, with their sizes and digests on record |
| TexturePublication.PublishTexture | src/app/native_texture_batch.c:999-1088 | metadata first at every state; every file written is in the ledger and, on failure, marked as residue; a collision is with another file at one of the two paths, and an I/O failure follows an I/O error |
| TextureTransaction.TextureBatch.FinalizeRecords | src/app/native_texture_batch.c:1091-1114 | no record stays pending, nothing is published unless the transaction stands, and the staging failures and residues never occur |
| TextureTransaction.ExportTextures | src/app/native_texture_batch.c:1287-1314 | the whole run: emitted plus unchanged plus failed is selected, all snapshots and anchors are closed, a broken transaction leaves the output tree untouched, no file is altered, at every state of the run each asset it wrote has its metadata beside it, every file written is named in a record; the resource files read had one path each, were held during the run, are closed, and in a standing transaction none was found changed; every failed texture has its reason (`TextureReasons.HasReason`): range only when its slice exceeds the held file, and so for each other failure of decoding, staging, emission and naming, while the failures of the transaction itself stand for trouble the batch met and occur in no standing one; a collision is with another file where its documents belong; and every published texture has the identity derived from its source and bytes and holds the documents emitted from the slice its object names of the resource file its stream resolves to |
| TextureCensus.ValidateSnapshot | src/app/native_texture_batch.c:1483-1624 | the snapshot census over the catalog, the selection and the files as they are then decides the predicate it stands for and reports each record's publication |
| TextureCensus.RecordIsPublished | src/app/native_texture_batch.c:1123-1260 | reopening a record: flags, identity and GUID derived again, both files matched by size and digest, and the metadata equal to what is emitted again |
| TextureCensus.CensusAcceptsTextures | src/app/native_texture_batch.c:1483-1624 | producer meets checker: over a catalog, a selection and files read later an export is accepted exactly when the transaction stood, nothing failed, the selection still needs the same textures, the catalog still lists them with the same source digests, and the later files match the files the export left, metadata byte for byte and assets in size and digest |
| TextureCensus.CensusAcceptsCleanExport | src/app/native_texture_batch.c:1483-1624 | a complete export without failures is accepted on the files it left and on every later tree that keeps them |

## Left out

- The file, snapshot and directory primitives (`common_file_view_*`, `unity_input_snapshot_*`,
  `common_output_*`): their bodies are not part of the repository's core; they are nondeterministic here.
- The TypeTree accessors and `unity_pptr_resolve`: their bodies are not part of this model; the first child of
  a name, the array of a structure and a resolver that answers the same question alike are taken as given.
- Schema-profile validation, TypeTree parsing and archive decompression: validity is an input of the report,
  and archives are given as entries over decompressed segments.
- SHA-256, GUID derivation, YAML and metadata emission, file name slugs: functions of their inputs, about
  which nothing else is assumed except that a derived GUID is 32 hexadecimal digits. Digests may collide, so the
  later census sees an asset only by size and digest.
- Copying the decoded strings and names of a record, freeing memory, and null-argument guards.
- Bundle members and platform path separators in resource paths: `paths` is any function that resolves no
  empty name.
- The pointer comparisons of the texture snapshot (a decoded name or stream path is the record's own copy) and
  the copies of a digest in hexadecimal: a record has one of each here.
- TextureCensus.ValidateSnapshot: `calm` says for each record that reopening and closing its files meets no error
  and finds neither changed meanwhile; which of the two fails is not told apart.
- The texture decoder: `decode` is any function of the target; its object carries the class and path of the entry
  it was asked for. A source's metadata can be read or not, the same at every visit.
- TextureTransaction.ExportTextures: that a resource file could not be opened, or an output file not written, is an
  outcome of the environment; the reason says only that there was a file to open or a text to write.
- The reference policy `native_texture_batch_resolve_reference`: material export is proved for every policy.
- Broken array and structure storages (negative count, unknown tag, missing buffer) are one constructor each.
- The records of a batch are a sequence that methods reassign; pointers into the record array are copies.
- The string tables that name statuses, and the pair-by-pair job loop with its tally, which is a fold over
  certificate results.
- CanonicalForm.VerdictDecidesCanon: assumes one header and signedness for the elements of byte arrays and pairwise
  distinct map keys, because without them the claim is false; `CanonicalLimits` and `MapOrder` say how far it holds.
- CanonicalLimits.TransitiveExactlyWhenShapesAgree: says nothing of a middle tree with maps, where a key may be
  found more than once; for well-formed trees `CanonicalForm.VerdictIsEquivalence` covers maps.
- MapOrder.ActualOrderMatters: quantifies over every point where the outer loop may end; for the full list alone
  it gives that the condition suffices.
- Termination and memory bounds of the C integers: counters are natural numbers; the places where the source
  checks a size against a limit are kept where they decide a branch.
