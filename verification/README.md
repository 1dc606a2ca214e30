# iroha-zip: a verified model

iroha-zip wraps an archive backend it does not trust. It copies, fingerprints,
serialises, lists, re-extracts and publishes directory trees, and re-checks
every step itself. This project models that logic in Dafny and proves what the
checks buy.

Names are byte strings, paths are sequences of names, and a directory tree is a
map from paths to files and directories (`Trees`). SHA-256 is an arbitrary
function from bytes to 32-byte digests; no theorem assumes it injective, each
one names the particular byte strings that would have to collide. Unicode
lowercasing and the volume's own case folding are arbitrary functions. Whatever
the environment may do (rewriting files between two accesses, short reads,
failing I/O, everything a backend does inside its sandbox) is a
nondeterministic choice, so each theorem holds for every such behaviour.

How the modules fit together:

- `Base`, `Numerals`, `Unicode`, `Streams`, `Paths`: bytes, checked arithmetic,
  numerals, UTF-8 and UTF-16, concatenated records, path order.
- `PaxFormat`, `PaxRoundTrip`, `Pax`, `PaxTree`: the pax interchange format as a
  description, a reader written independently of the writer, the stateful
  writer, and whole trees. The format is that of IEEE Std 1003.1-2017, `pax`
  utility, "pax Interchange Format" and "ustar Interchange Format".
- `Policy`, `Components`, `Listing`: name, path and listing validation.
- `Trees`, `Walks`, `Directories`: worklist walks over a tree and what they accept.
- `Fingerprint`, `Audit`, `Snapshot`, `Transfer`, `Commit`: tree fingerprints,
  audited copies under interference, publication.
- `Selection`: which selector lists are unambiguous and what they copy.
- `Sandboxes`, `Staging`, `Create`: the two protocols around backend runs.
- `Extraction`, `Extractor`: what a stream of archive members calls for, and the
  member-by-member extractor driven by an arbitrary decoder.
- `CommandLine`, `Password`, `DirectoryBuffer`: Windows argument quoting, the
  one-line password channel, the directory enumeration buffer.
- `Dpi`, `Seal`: exact scaling arithmetic, and three entry counts that agree.

Some results are worth pointing out because they differ from a first reading of
the source:

- `create_archive` can report an error although the archive has been published:
  it succeeds exactly if it published and the first sandbox could be cleaned up, and
  what it published has been verified either way. `Create.CreateArchive` says exactly
  when an error comes with something at a fresh output path.
- The removals on error paths discard their result (`src/snapshot.rs:114`,
  `src/pax.rs:31`, `src/transfer.rs:162`, `src/transfer.rs:206`,
  `src/selection.rs:53`), so a failure does not always leave nothing behind. A
  half-made file or tree stays exactly if it was made and could not be removed
  (`Snapshot.AuditedFile.CopyToNew`, `Transfer.CopySession.CopyAuditedTree`,
  `Commit.Publisher.CommitTree`, `PaxTree.WriteTree`).
- `copy_to_new` also removes a target that existed before and made the creation fail
  (`src/snapshot.rs:111-117`). `create_archive` looks for an existing output first,
  but a file that another party puts there afterwards meets that removal:
  `Create.CreateArchive` states the case. `write_tree_archive` and
  `materialize_selection` remove what they find in the same way, as
  `PaxTree.WriteTree` and `Selection.MaterializeSelection` say exactly.
- The extractor's directory counter equals the number of directories it made,
  except when the limit and the counter are both 2^64 - 1 and one more is made;
  `CountsDirectories` in `Extractor` states exactly that.
- The device names that `validate_component` refuses are more than those it means: the
  number after COM and LPT goes through the integer parser, which takes leading zeros
  and a plus sign, so that COM01 is refused like COM1 (`Components.PortsInDisguise`).
- A record body of seven bytes has two self-consistent pax lengths, so taking the
  least one is a choice (`PaxFormat.TwoRecordLengths`).
- The second path validation in `validated_member_path`, the UTF-16 unit limit on
  passwords and the depth test of the tree audits never reject anything by
  themselves. Neither does the per-directory cap, unless the file and directory
  limits together exceed 2^64 - 1: the cap then saturates, and stays a condition of
  its own.
- Scaling to another resolution and back does not always return the value. It does
  exactly if the first result, scaled back without rounding, is at most half a target
  pixel off, ties away from zero, with only the inner side counting at a bound
  (`Dpi.ReturnsExactly`). Going up and back down this is lost only when the value
  passes a bound by more than half a target pixel (`Dpi.UpAndBackExactly`); going
  down and back up the remainder of the first division decides
  (`Dpi.DownAndBackExactly`).

## Model

| member | source | states |
|---|---|---|
| PaxFormat.LeastRecordLength | src/pax.rs:328-346 | Repeating "length implied by the guess" from body + 2 reaches the least self-consistent record length, never beyond 2 * body + 4. |
| PaxFormat.TwoRecordLengths | src/pax.rs:334-346 | Leastness is real content: a seven-byte body admits the lengths 9 and 10, and 9 is chosen. |
| Pax.PaxRecord | src/pax.rs:328-352 | For every key and value the loop terminates, the result is the record with the least self-consistent length, and the check after the loop never fails; only a length beyond 64 bits is refused. |
| Pax.WriteOctal | src/pax.rs:362-374 | Succeeds exactly when the octal digits leave room for the final NUL, and then fills the field with zero-extended digits and a NUL, leaving the rest of the header alone. |
| Pax.StoreChecksum | src/pax.rs:252-260 | Writes six octal digits, NUL and space into bytes 148 to 155 and nothing else, exactly when the sum has at most six digits. |
| Pax.HeaderBytes | src/pax.rs:235-261 | The header filled in place is the described ustar block, produced exactly when every field fits. |
| Pax.ArchiveWriter.WriteEntry | src/pax.rs:194-233 | Appends extended header, padded records and the entry's own header; refuses exactly on an invalid path, an unencodable field, an exhausted index or a full device. |
| Pax.ArchiveWriter.PadToBlock | src/pax.rs:263-272 | Appends zeros up to the next multiple of 512 bytes. |
| Pax.ArchiveWriter.Finish | src/pax.rs:274-282 | Appends the two zero blocks that end an archive. |
| Pax.BuildArchivePath | src/pax.rs:299-326 | Accepts exactly the valid relative paths and joins their components with slashes, with one trailing slash for a directory. |
| Pax.EncodableExactly | src/pax.rs:194-261 | No file size is too large for the format: an entry is encodable if and only if its attribute text fits eleven octal digits. |
| Pax.WriteTreeArchive | src/pax.rs:36-87 | Whatever happens to the files while they are serialised, success means everything was found to be of its planned kind and the archive has one entry for each planned one, of its path and kind; undisturbed, it occurs exactly when every entry is archivable and the device has room, and the entries are the planned ones. |
| Pax.ArchiveWriter.WriteFile | src/pax.rs:65-82 | A file that changes between hashing and copying is either refused or written with content of exactly the size its header declares. |
| Pax.ArchiveIsBlocks | src/pax.rs:263-282 | Every archive is a whole number of 512-byte blocks and ends with two zero blocks. |
| PaxRoundTrip.EntryIsAligned | src/pax.rs:194-272 | Each entry, and the headers in front of its content, occupy whole blocks, so every header starts on a block boundary. |
| PaxRoundTrip.ReadOfHeader | src/pax.rs:235-261 | Every header block that fits is read back in all its fields: valid checksum, magic and version, name, mode, ids, size, time, type, owner names, and NULs in the rest. |
| PaxRoundTrip.ReadOfArchive | src/pax.rs:36-87 | An independent reader recovers exactly the paths, kinds, sizes and contents of every encodable entry sequence, and finds every header as it should be: directories of mode 0755, files of mode 0644, extended headers of mode 0644, and sizes from 8 GiB on stored as zero and given by their record. |
| PaxRoundTrip.TimeRecord | src/pax.rs:205-211 | The time record in front of every entry is the text "11 mtime=0" and a line end. |
| PaxRoundTrip.ModeFields | src/pax.rs:223-226 | The mode field of a directory is the text "0000755" and a NUL, that of a file "0000644" and a NUL. |
| Pax.ArchiveRoundTrip | src/pax.rs:36-87 | What the writer accepts reads back entry for entry, under those headers. |
| PaxTree.WriteTree | src/pax.rs:20-34 | For any interference after the enumeration, success means a complete new archive from which a reader gets the enumerated paths and kinds; undisturbed, it occurs exactly when the tree is acceptable, the entry limit does not overflow, the attribute texts fit and the device has room, and the contents are the tree's. After a failure the output stays exactly if it was there and could not be removed, and an output that existed before is removed too. |
| PaxTree.ParentComesFirst | src/pax.rs:36-70 | In the order the entries are written, every entry is new and its parent directory has already been written. |
| PaxTree.TreeRoundTrip | src/pax.rs:20-87 | Reading the archive and unpacking it strictly in order, without ever creating a missing parent, rebuilds the same tree. |
| Policy.AcceptedComponent | src/policy.rs:341-389 | An accepted component is not empty, `.` or `..` and contains no separator and no colon. |
| Components.AcceptedExactly | src/policy.rs:341-396 | A component is accepted if and only if it is the UTF-8 form of a non-empty text that does not end in a dot or a space, has no control character and none of the characters Windows or a path reserves, and does not name a device: no device name in any case, alone or followed by blanks and an extension. |
| Components.DevicesAreRefused | src/policy.rs:371-386 | CON, PRN, AUX, NUL, CONIN$, CONOUT$, CLOCK$ and the numbered ports, with plain or superscript digits and in any case, are refused with any number of blanks and any extension after them. |
| Components.PortsInDisguise | src/policy.rs:378-386 | The numbered names are wider than COM1 to COM9: the integer parser also takes COM01 and lpt+7. |
| Components.NotDevices | src/policy.rs:371-386 | They are not wider than that: COM0, COM10 and NULL name no device. |
| Policy.ValidateRelativePath | src/policy.rs:180-229 | Accepts exactly the non-empty paths of valid components within depth and byte limits; the byte counter never overflows on one. |
| Policy.MemberNameIsRelativePath | src/policy.rs:302-339 | A member name is accepted if and only if its path, split and without directory marker, passes the on-disk path test: both accountings coincide. |
| Policy.MemberStaysBelowRoot | src/policy.rs:302-339 | Resolving an accepted member component by component ends strictly below any root. |
| Listing.MarkerDoesNotMatter | src/policy.rs:283-339 | One separator after a name, of either kind, changes neither acceptance nor what the name aliases; a second one means refusal. |
| Unicode.DecodesByRanges | src/policy.rs:242-254 | What is taken for UTF-8 is exactly what the byte ranges of RFC 3629, section 4, allow. |
| Unicode.KnownForms | src/password.rs:41-74 | A character of each length, written out in UTF-8 and UTF-16. |
| Listing.ValidateArchiveListing | src/policy.rs:242-300 | Accepts exactly the UTF-8 listings of valid, pairwise unaliased members within the limit, tolerating one root marker in created archives; the result counts the members, and the lines of an external listing. |
| Listing.AcceptedListingIsSafe | src/policy.rs:242-339 | Every accepted member leads strictly below any root and passes the path test, and no two members lead to the same place. |
| Listing.MembersOfWritten | src/policy.rs:255-275 | A listing written one name per line is taken apart into exactly those names. |
| Listing.LinesExactly | src/policy.rs:260 | For every text: no line holds a newline, and the lines written out are the text again, with one newline more exactly if it is not empty and has no final one. |
| Listing.ReturnsDoNotMatter | src/policy.rs:261 | A carriage return at the end of every line changes nothing about what is accepted and how many members there are. |
| Listing.DotsDoNotMatter | src/policy.rs:262-275 | In the listing of a created archive a leading dot and slash before every member changes nothing either, and one root marker is skipped. |
| Listing.DotsMatterOutside | src/policy.rs:262-275 | In any other listing a root marker or a leading dot and slash means refusal. |
| Listing.AliasesExactly | src/policy.rs:283-292 | Two members alias each other if and only if their names, with slashes for both separators and without directory mark, fold to the same. |
| Listing.CaseVariantsAreRefused | src/policy.rs:283-292 | A listing with two such members, wherever they stand, is not accepted. |
| Walks.AuditTree | src/policy.rs:79-178 | Succeeds exactly on acceptable trees without shared file identities and within the saturated per-directory cap, with the exact counts; depth and overflow tests decide nothing. |
| Walks.EnumerateTree | src/pax.rs:89-177 | Succeeds exactly on acceptable trees when the entry limit does not overflow, and lists every entry with its kind in path order. |
| Paths.PathLessExactly | src/pax.rs:89-177 | The order of the entries: the first component that differs decides, bytewise, and an ancestor comes before what is below it. |
| Paths.BytesLessExactly | src/pax.rs:89-177 | The order of components: the first byte that differs decides, and a beginning comes before what it begins. |
| Walks.CheckResourceLimits | src/monitor.rs:8-104 | On a tree that holds still, succeeds exactly when no entry is special and every size and count is within the limits. |
| Walks.WalksAgree | src/policy.rs:79-178 | When the sum of the limits does not overflow, audit, fingerprint walk, enumeration and monitor accept under one and the same condition; the per-directory cap and the depth and overflow tests reject nothing extra. |
| Trees.CapIsImplied | src/transfer.rs:603-605 | No directory of an acceptable tree has more entries than the cap. |
| Audit.BuildTreeAudit | src/transfer.rs:238-382 | Succeeds exactly on acceptable trees within the cap, and returns the fingerprint, file fingerprints and directory identities of the tree, whatever the order of enumeration. |
| Fingerprint.ReadOfItems | src/transfer.rs:254-381 | The tag, length, path, length, digest stream decodes uniquely. |
| Fingerprint.ItemLayout | src/transfer.rs:254-381 | Byte by byte, what is hashed for an entry: a letter for its kind, the length of its path in eight bytes, the path, and for a file its length in eight bytes and its digest. |
| Fingerprint.ItemText | src/transfer.rs:254-381 | The path is hashed with the system's separator between components. |
| Fingerprint.FingerprintDeterminesShape | src/transfer.rs:254-381 | If the two streams do not collide, equal fingerprints mean the same paths, kinds, lengths and digests. |
| Fingerprint.FingerprintDeterminesTree | src/transfer.rs:254-381 | If the contents involved do not collide either, they mean equal trees. |
| Fingerprint.SameShapeSameFingerprint | src/transfer.rs:254-381 | Only paths, kinds, lengths and digests enter the fingerprint. |
| Fingerprint.SameTreeSameFingerprint | src/transfer.rs:254-381 | Equal trees have equal fingerprints: identities, timestamps and order play no part. |
| Snapshot.AuditedFile.HashOpenFile | src/snapshot.rs:225-250 | Terminates on a file that keeps growing; success reports length and digest of exactly the bytes that this loop read, in order, within the limit, and on a quiet file of its content. |
| Snapshot.AuditedFile.Fingerprinted | src/snapshot.rs:67-101 | Success means the bytes hashed were read between two looks at the metadata and at what the path leads to, all of which agree with the fingerprint. The fingerprint of a quiet file is exactly its own, produced exactly when size and path identity allow. |
| Snapshot.AuditedFile.VerifyUnchanged | src/snapshot.rs:182-223 | Success means that metadata and path were looked at, in this order, and showed the recorded size, identity and times; on an untouched file it always succeeds. |
| Snapshot.AuditedFile.CopyToWriter | src/snapshot.rs:148-180 | Whatever others do meanwhile, success means the bytes written were read between two checks of metadata and path against the fingerprint, and have its length and digest. |
| Snapshot.AuditedFile.CopyToNew | src/snapshot.rs:111-146 | As above for a new file, even if others write to it before it is re-read. An existing target always means failure. After a failure the target is absent exactly if there was nothing to remove or the removal worked, and else holds what was left there. |
| Transfer.CopySession.CopyTree | src/transfer.rs:474-601 | For any interference, success means the target matches the audit exactly, although only counts and one-way membership are compared, and every file and directory was opened with the audited fingerprint or identity. |
| Transfer.CopySession.CopyAuditedTree | src/transfer.rs:183-224 | For any changes to the source between audit and copy, and to the copy before its audit, success means the target has the audited fingerprint; if nobody wrote to the copy it has the audited shape, and on a quiet source the same contents. After a failure a target stays exactly if it was there and could not be removed, and an existing target is never touched. |
| Transfer.MatchesShape | src/transfer.rs:183-224 | Matching the audit's key sets and fingerprints is having the audited tree's shape. |
| Commit.Publisher.HandoffEach | src/transfer.rs:412-446 | Completed means that exactly the given files were handed over, in order, and all accepted; Incomplete occurs only under best effort and means that exactly the first ones were accepted and the next refused; a refusal under Required is an error, and any other error means a file had gone missing after the ones before it were accepted. |
| Commit.Publisher.PerformHandoff | src/transfer.rs:384-446 | The files are given in path order and only while a session is open; when policy requires the handoff, a refusal of any file is that error and no other. |
| Commit.Publisher.AuditAgain | src/transfer.rs:125-153 | Success means the tree left by the service has the staged fingerprint and file identities and was found to carry its mark. |
| Commit.Publisher.HandOff | src/transfer.rs:92-153 | Success means the staged tree was marked first, the outcome is true of the verdicts given, and the tree about to be published passed the second audit. |
| Commit.Publisher.PublishPartial | src/transfer.rs:113-165 | After any handoff effect on the partial tree and with another party free to create the destination: failure publishes nothing, success publishes a tree with the staged fingerprint and file identities, and an outcome that is true of the verdicts given. |
| Commit.Publisher.CommitTree | src/transfer.rs:77-165 | Failure at any step leaves the destination as it was, or as another party made it meanwhile, and makes exactly one attempt to remove the partial directory, which stays exactly if that fails; success publishes the complete copy of the audited source, marked and found marked when that was asked for, and reports what the service said of every file. A refusal that policy makes fatal never publishes, and nothing is touched when the destination exists or its name is no acceptable component. |
| Commit.PublishedIsSource | src/transfer.rs:77-165 | If the strings involved do not collide, what is published is the source, file by file and with the staged identities, even if others wrote to the partial copy before it was audited. |
| Selection.ValidateSelectors | src/selection.rs:58-123 | Accepts exactly the lists of valid selectors, within the limit, whose folded keys are an antichain, and returns them in path order. |
| Selection.PrefixLookup | src/selection.rs:95-121 | Looking up the proper prefixes of every key decides the antichain property exactly. |
| Selection.CaseVariantsClash | src/selection.rs:95-121 | A selector that equals another one, or its beginning, up to case makes the list ambiguous. |
| Paths.SameKeyExactly | src/selection.rs:125-152 | Two paths have the same key if and only if they agree, component by component, up to the fold. |
| Selection.CopySelector | src/selection.rs:154-195 | Adds exactly the selector, its ancestors and everything below it as one audit of the changing source met it, touching nothing that earlier selectors put there; on a quiet source it succeeds exactly if the selector exists. |
| Selection.SelectorFits | src/selection.rs:35-49 | A selector never meets an existing target, and only directories on its way, whatever the source was when earlier ones were copied. |
| Selection.SelectsMeaning | src/selection.rs:10-56 | What was gathered from a source that holds still is exactly its selected part. |
| Selection.MaterializeSelection | src/selection.rs:10-56 | On a source that others rewrite: success means unambiguous selectors, a new target holding exactly the selected subtrees as audited and their ancestors, and the source's first fingerprint again at the end. A target that appears after it was found absent means failure, and what is there after a failed attempt stays exactly if its removal failed. On a quiet source success occurs exactly when the selectors are unambiguous and present, the target is new and the source acceptable; the target is then precisely the selected paths with the same contents. |
| Sandboxes.LimitsWithBaseline | src/monitor.rs:106-131 | A summary is within the derived limits if and only if it exceeds the baseline by no more than the budget; only overflow is refused. |
| Sandboxes.Sandbox.StageSource | src/platform/windows_impl.rs:620-625 | Succeeds exactly if the place is free: beside the root of an isolated sandbox, below it otherwise. The staged source is then the given copy, and everything else stays. |
| Sandboxes.Sandbox.InstallBackend | src/backend.rs:318-369 | Success means every pinned file is in the backend's directory, with its digest, and nothing elsewhere changed; in a new directory there is nothing else, and then it occurs, file operations permitting, exactly if all files read as pinned and their paths form a tree. |
| Sandboxes.Sandbox.InstallLister | src/staging.rs:356-382 | File operations permitting, succeeds exactly if the lister's directory is new; the two files made there pass the count of two. |
| Sandboxes.Sandbox.Run | src/platform/windows_impl.rs:715-738 | A process may change anything; it is recorded with what it found, what it left, its limits and its exit code, and what it left is within the monitor's limits. |
| Sandboxes.Sandbox.SealTree | src/platform/windows_impl.rs:769-791 | The directory is recorded as sealed, as it is; in an isolated sandbox, success means it has exactly the expected number of entries and no special object. |
| Sandboxes.Sandbox.FinishScratch | src/platform/windows_impl.rs:680-706 | Succeeds only if the backend left the scratch directory empty, and removes it. |
| Staging.CopyIn | src/staging.rs:97-128 | The input directory is new and every pinned file was installed; the lister's and the backend's directories were sealed with the right number of entries, and last the one that holds nothing but the archive, which has the snapshot's length and digest even if the caller's file is under attack. |
| Staging.SealedBackendIsPinned | src/staging.rs:103-112 | In an isolated sandbox nobody else writes to, counting entries suffices: the sealed backend is exactly the pinned one, with no file more. |
| Staging.ListMembers | src/staging.rs:159-202 | For any listing process, success means exactly one process ran, watched with a budget of exactly its two logs and kept within it, it exited with 0, its log was an acceptable listing, and the archive is unmodified. |
| Staging.RequireArchiveUnchanged | src/staging.rs:342-353 | Succeeds, file operations permitting, exactly if the sandbox's archive still has the guard's identity, times, length and digest. |
| Staging.ClearForExtraction | src/staging.rs:203-211 | The output directory did not exist, exists now, is empty, and nothing but the two logs went away; file operations permitting, this succeeds exactly if both logs are files and the output is absent. |
| Staging.Extract | src/staging.rs:263-328 | For any extraction process, success means exactly one process ran, watched with exactly the extraction budget and kept within it, it exited with 0, the archive is unmodified, and the summary is that of the extracted tree. |
| Staging.ChoosePayloadRoot | src/staging.rs:518-553 | Returns the single top-level directory named after the archive if there is one, the output directory otherwise. |
| Staging.StageArchive | src/staging.rs:67-340 | The whole staging guarantee: pinned tools, sealed directories, archive unmodified at four points, exactly two processes that both exited with 0, listing accepted before the output existed, extraction into an empty directory, summary of the extracted tree. |
| Staging.ArchiveIsSnapshot | src/staging.rs:342-353 | If these strings do not collide, the archive's bytes equal the snapshot's at all four points. |
| Create.Feed | src/create.rs:65-94 | Whatever others do meanwhile, the backend is given a complete pax archive with the written length and digest; if the program is alone with the sandbox until the launch, it is an archive of a staged copy of the audited source. |
| Create.StageCopy | src/create.rs:66-83 | The returned fingerprint is the audited source's; the staged tree was sealed with as many entries as the audit counted, and undisturbed it has the audited shape. |
| Create.EquipBackend | src/create.rs:52-65 | The output directory is new, every pinned file was installed, and the backend's directory was sealed with as many entries as the manifest implies. |
| Create.Launch | src/create.rs:84-94 | The file guarded during the run has the fingerprint of the stream that was written. |
| Create.RunInScratch | src/create.rs:112-154 | Success means exactly one process ran, between empty scratch directories, watched with exactly the creation budget and kept within it, and exited with 0. |
| Create.RunBackend | src/create.rs:112-175 | For any backend, success means exactly one process ran and exited with 0, the staged source and the pax stream still have their fingerprints, and the scratch directory is gone. |
| Create.VerifyCreatedArchive | src/create.rs:213-242 | Success means the whole staging guarantee held in a second sandbox for bytes of the returned length and digest, under the rules for created archives, and extracting them gave a tree with the expected fingerprint, although others may write to the archive all the while; on a quiet archive the fingerprint is its own. |
| Create.RequireTreeFingerprint | src/create.rs:244-254 | Succeeds exactly if the tree is there, acceptable and has the expected fingerprint. |
| Create.OpenVerifiedArchive | src/create.rs:198-211 | The file about to be published has the verified fingerprint, whatever happened to it since; undisturbed, it is opened exactly then. |
| Create.VerifyAndPublish | src/create.rs:156-177 | With others rewriting the sandbox between all steps: whatever is published was reproduced from the audited source and the staged source still matched; a failed attempt leaves exactly what could not be removed. |
| Create.CreateArchive | src/create.rs:16-188 | For every behaviour of both backends and of others from the start on: success occurs exactly if the archive was published and the clean-up worked, whatever was published was reproduced from the audited source, an output that existed at the start is never touched, and it is stated exactly what is at the output otherwise, including another party's file that appeared later. What is published rests on a source that passed the first audit, a backend that exited with 0 and two runs in the second sandbox that did. |
| Create.PublishedReproducesSource | src/create.rs:16-242 | If the strings involved do not collide, the published bytes are those of the second sandbox before and after both runs, and their extraction is the audited source. |
| Create.FedStreamIsSource | src/create.rs:84-94 | If the strings involved do not collide, the file the backend is given unpacks, entry by entry, to the audited source. |
| Extractor.Extractor.ValidatedMemberPath | src/platform/libarchive_windows.rs:446-471 | Accepts exactly valid, consistently marked, unaliased names; the second path validation rejects nothing more. |
| Extractor.Extractor.EnsureDirectoryChain | src/platform/libarchive_windows.rs:473-506 | Adds the missing directories of a chain and nothing else, counting each; earlier entries stay as they are on success and failure. |
| Extractor.Extractor.ExtractRegularEntry | src/platform/libarchive_windows.rs:509-580 | On success a new file holds all chunks; on failure, even halfway through a write, every limit still holds and no earlier entry changed. |
| Extractor.Extractor.ExtractMember | src/platform/libarchive_windows.rs:366-441 | A member is extracted only if it is admissible, unaliased, has a place on the disk and fits the limits, and always then unless a file operation fails. |
| Extractor.Extractor.ExtractEntries | src/platform/libarchive_windows.rs:361-443 | For every stream of headers and chunks: each state passed through keeps the limits and only adds to the one before; success leaves exactly the members and their ancestors, up to case, and, file operations permitting, occurs exactly on extractable streams. |
| Extraction.MemberDelivered | src/platform/libarchive_windows.rs:361-443 | One member's effect turns the exact output for a prefix of the stream into that for one member more. |
| Extraction.MemberDecides | src/platform/libarchive_windows.rs:361-443 | What is on the disk, the aliases and the counters decide about the next member exactly as the order-free condition on all members does. |
| Extraction.RejectedPrefix | src/platform/libarchive_windows.rs:361-443 | Stopping at the first refusal loses nothing: no continuation of a refused prefix is extractable. |
| Extraction.CaseVariantsAreRefused | src/platform/libarchive_windows.rs:446-506 | A stream with two members whose names fold to the same, or with a file in a place that another member needs, is never extractable. |
| CommandLine.DecodeOfQuoted | src/windows_command_line.rs:53-153 | Decoding a quoted argument gives the argument back. |
| CommandLine.DecodeSingle | src/windows_command_line.rs:120-153 | The in-place decoder computes the decoding rules on every input. |
| CommandLine.Encoder.AppendQuoted | src/windows_command_line.rs:53-91 | Appends the quoted form, exactly when the argument has no NUL and the result stays within the bound. |
| CommandLine.Encoder.AppendArguments | src/windows_command_line.rs:38-41 | Appends every argument after a space; NUL-free arguments fail exactly when their ideal text passes the bound. |
| CommandLine.Encode | src/windows_command_line.rs:25-45 | On success the quoted line and one NUL, within 32,767 units; for NUL-free inputs too long exactly when the ideal line is. |
| CommandLine.SplitOfLine | src/windows_command_line.rs:25-91 | Splitting at unquoted blanks yields exactly the program and each argument, every piece decoding back. |
| CommandLine.LineHasNoNul | src/windows_command_line.rs:25-45 | The only NUL of the output is the last unit. |
| Password.AcceptedExactly | src/password.rs:41-74 | Exactly the UTF-16 forms of non-empty texts without NUL and line breaks and of at most 1,022 UTF-8 bytes are accepted; the unit limit never decides. |
| Password.TransportIsLine | src/password.rs:76-89 | Every accepted password passes into a line of at most 1,023 bytes whose value decodes back to the same UTF-16 units. |
| Password.PasswordTransport.Line | src/password.rs:111-114 | Appends one carriage return to the transport's own buffer and returns it. |
| Password.SecondLineIsRefused | src/password.rs:111-114 | A second call yields a line the reader refuses. |
| Password.ReadOneUsePassword | src/platform/libarchive_windows.rs:252-281 | Accepts exactly one bounded non-empty UTF-8 value with its terminator, and returns that value. |
| Password.SendPassword | src/password.rs:41-114 | Through the whole channel, what is accepted arrives as its UTF-8 form and nothing accepted is refused. |
| DirectoryBuffer.ParseDirectoryBuffer | src/platform/windows_impl.rs:436-516 | For every buffer, reads are in bounds and the loop ends; success means a sound chain within the cap, and appends its names without the dot entries, in order. |
| DirectoryBuffer.LayoutIsRead | src/platform/windows_impl.rs:436-516 | Names laid out as aligned, linked records come back in order, whatever the ignored fields and the bytes after the last record hold. |
| DirectoryBuffer.FieldsOfEntry | src/platform/windows_impl.rs:436-516 | Byte by byte: the next offset is at 0, the name length at 60, the name at 104, least significant bytes first. |
| DirectoryBuffer.KeptExactly | src/platform/windows_impl.rs:490-496 | The directory and its parent are never among the names, and every other name is. |
| DirectoryBuffer.ParseLayout | src/platform/windows_impl.rs:436-516 | A laid-out buffer is accepted exactly when the cap allows, and yields its names but for the dot entries. |
| Dpi.Rounded | src/settings.rs:37-45 | No intermediate leaves 64 bits: the sum is the exact product moved by half the divisor, and stays above -2^63. |
| Dpi.LowestIntermediate | src/settings.rs:37-45 | The margin is exactly one. |
| Dpi.ScaleIsNearest | src/settings.rs:32-49 | For all values and resolutions the result is the nearest integer, ties away from zero, clamped to 32 bits. |
| Dpi.LogicalIsFromBase | src/settings.rs:11-25 | Logical scaling is rescaling from 96. |
| Dpi.ReturnsExactly | src/settings.rs:32-49 | For every value and every pair of resolutions, scaling there and back returns the value if and only if the error of the first step is at most half a target pixel, ties away from zero and, at a bound, counting only the inner side. |
| Dpi.UpAndBackExactly | src/settings.rs:32-49 | Up and back down: if and only if the value is not scaled past a bound by more than half a target pixel. |
| Dpi.DownAndBackExactly | src/settings.rs:32-49 | Down and back up: if and only if the remainder of the first division is small enough on the side it was rounded to. |
| Dpi.RoundTrip | src/settings.rs:32-49 | In particular, up and back down is the identity whenever the first step does not saturate. |
| Dpi.DownAndUpLoses | src/settings.rs:32-49 | In particular, one pixel at 192 comes back from 96 as two. |
| Dpi.BothSidesOccur | src/settings.rs:32-49 | Some values survive the way down and some survive saturation; the conditions above are not empty on either side. |
| Seal.CopiedEntryCount | src/backend.rs:240-260 | Counts the manifest's files and their distinct parent directories, unless the sum overflows. |
| Seal.CopyVerifiedTo | src/backend.rs:318-369 | Success creates exactly the manifest's files, with their digests, and the directories they need; it occurs if and only if every file reads as pinned and the paths form a tree. |
| Seal.SealTree | src/platform/windows_impl.rs:872-922 | Accepts a tree without special objects if and only if it has exactly the expected number of entries. |
| Seal.CopySize | src/backend.rs:240-369 | The number of entries created equals the number computed from the manifest. |
| Seal.PinnedAndCounted | src/backend.rs:240-369 | A directory with every pinned file and as many entries as the manifest implies holds nothing but these files and their directories. |
| Seal.SealCopy | src/platform/windows_impl.rs:872-922 | An untouched copy always passes the count and a tree with any other number of entries never does. |

## Left out

- Job objects, AppContainer profiles, tokens, access control lists, pipes and process creation: a run is an arbitrary change to the sandbox that the monitor's final look accepts.
- Decoding, decompression and decryption by libarchive: a stream of names, types, sizes, chunks and statuses stands for it, finite but otherwise arbitrary.
- The inside of SHA-256, operating-system timestamps and fresh names: an arbitrary digest function, arbitrary numbers, and fields that start out absent.
- Unicode lowercase tables and the volume's case folding: arbitrary functions.
- Canonicalization of operating-system paths, and the checks that an absolute path still lies below its root: trees are addressed by relative component sequences, and "inside the source" is an input of `CreateArchive` and of `MaterializeSelection`.
- Attachment Services: any verdict and any effect on the partial tree, followed by the second audit. Writing and checking Mark-of-the-Web streams are steps recorded with the tree they were taken on, which can fail; the streams themselves are not modelled.
- Links, devices and alternate streams are one node kind that every walk refuses; hard links are files that share an identity.
- Error messages, logging, zeroization, file permissions and the argument lists passed to the backends.
- `src/backend_evidence.rs`, `src/config.rs`, the user interface, the command-line front end and release tooling: field-by-field checks and dispatch.
- Walks.AuditTree: on a tree that holds still; a tree that changes during one audit is not modelled, only changes between audits and during copies.
- PaxTree.WriteTree: the enumeration itself meets a tree that holds still; the files may change while they are serialised.
- Create.Feed: that the stream holds the audited source is promised only if others leave the first sandbox alone until the launch, because the staged tree is compared with the audit only after the run.
- Create.RunBackend: between the checks of its two inputs nothing else changes the sandbox.
- Staging.StageArchive: others may write to the second sandbox until its archive is guarded, and the runs may do anything; in between, nothing else changes it. The caller's own archive file may change at any time. The lister's two files have arbitrary contents. Like `Create.CreateArchive`, it says what success guarantees, not when it must occur, because a run may always fail.
- Extractor.Extractor.ExtractEntries: the stream is finite; opening the archive and the status of closing it are not part of the model.
- Snapshot.AuditedFile.Fingerprinted: the security checks of the file and its parent directory before the handle is opened are not part of the model.
- DirectoryBuffer.ParseDirectoryBuffer: the buffer's words are taken as little-endian bytes, the only layout Windows uses.
