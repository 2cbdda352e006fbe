# Release evidence, proved

A Dafny 4.11 model of the release-evidence code of the Rutile repository: the `xtask` crate that
signs, validates, supervises, publishes, inspects and binds release evidence, together with three
smaller algorithms that the product and its fuzzing rely on. Each module follows one source file
or one component of it.

| module | what it models |
|---|---|
| `Cbor`, `Hex` | the deterministic CBOR encoder (sections 3 and 4.2.1 of RFC 8949) and hex texts |
| `Readiness`, `Keystone` | the signed readiness attestation, its twelve-stage validator, and the keystone that publishes it |
| `ReleaseAuthority` | the signed preview authorization |
| `Refs`, `AddressPattern` | safe repository paths and the private-address scanner, and the expression that documents it |
| `Calendar`, `Timestamp` | day counts, the Gregorian calendar and timestamps (sections 5.6 and 5.7 and appendix C of RFC 3339) |
| `Capture`, `SmokeWorld`, `Supervisor` | the process supervisor: two reader threads, a process group, a clock, and a cleanup loop |
| `Publication` | create-only publication by any number of publishers, with crashes and power loss |
| `ScanPolicy`, `Inspector`, `ZipReader`, `InspectVerdict`, `ReleaseInspection` | the artifact inspector |
| `Sorting`, `Order`, `EvidenceBind` | the evidence-index binder and the stable sort it and the palette call |
| `PackageSmoke` | the install, open and uninstall smoke |
| `CommandPalette`, `Metrics`, `HtmlInspector` | palette ranking, nearest-rank percentile, tag and attribute inspection |

Source code that updates state step by step is modelled by classes and methods with loops, each
proved against a function or predicate about which the lemmas then speak. Checks that only compute
are functions. Strings are their UTF-8 bytes (the palette uses Unicode scalar values).

SHA-256, ed25519, JSON, JSON schemas and zip decompression are function parameters about which
nothing is assumed. The network, the clock, the file system, child processes and other threads are
arbitrary: `SmokeWorld.Choice`, `Publication.Choice` and `PackageSmoke.Nature` range over all their
behaviours, and the inspector and the binder take what they read as arbitrary inputs.

## Where the code and its words differ

The model follows the code.

- The private-address scanner is octet-aligned. The regular expression in its comment is neither
  weaker nor stronger: it matches `1127.0.0`, which the scanner does not report, and does not match
  `172.016.1.1`, which the scanner does report. `AddressPattern` proves both;
  `AddressPattern.ScannerAndPatternAgree` says for exactly which strings the two agree.
- `inspect_directory` drops the error when reading the packaged executable for its digest fails. A
  disk image can then be preview-authorized without its executable ever having been compared with
  the manifest. `ReleaseInspection.PreviewExecutableLink` gives the exact condition,
  `ReleaseInspection.PreviewDoesNotNeedExecutable` shows it of every authorized image, and
  `ReleaseInspection.PreviewWithoutMeasuredExecutable` that there is one.
- `inspect_zip` passes over an entry with a directory's name before it looks whether it is a link and
  before it reads anything. An archive can then be accepted with a link, or forbidden bytes, in such an
  entry. `ZipReader.AcceptedZipIsSound` gives the exact condition, `ZipReader.DirectoriesAreUnseen` shows
  it of every archive, and `ReleaseInspection.PreviewWithUnseenLink` that there is one.
- The readiness publisher may return an error after its name was linked; the evidence-index
  publisher may not. `Publication.ErrorsAfterLinking` names the calls that fail when it does.
- `run_smoke` returns early, without uninstalling, when the log files of the install or open stage
  cannot be written, although its comment says that uninstall always runs (`PackageSmoke.RunSmoke`,
  `PackageSmoke.SmokeWithoutLogs`).
- `sign` signs a statement of any tier, although the record is for previews only; `verify` then refuses it
  (`ReleaseAuthority.SignedVerifies`).
- The summary of the pending verdict, which a failed cleanup would fall back to, is never used: a cleanup
  that fails always carries an error of its own (`Supervisor.CleanupGroup`).
- A timestamp printed for an epoch from year 10000 on is not accepted by the parser
  (`Timestamp.PrintThenParse`).
- A directory walk does not count its root before the entry limit, while an archive checks the limit
  before skipping directory entries; `Inspector.WithinLimits` and `ZipReader.CountIsWithin` differ
  accordingly.
- The second `MAX_RECORDS` check of `load_and_bind` cannot fail, because the plain index was already
  limited; it is not repeated in the model.

`dafny verify dfyconfig.toml` checks the whole project.

## Model

| member | source | states |
|---|---|---|
| `Cbor.HeadRoundTrip` | xtask/src/readiness.rs:707-725 | every head of every major type and every 64-bit value is read back exactly, whatever follows it |
| `Cbor.HeadIsShortest` | xtask/src/readiness.rs:707-725 | no shorter head can carry the value: the argument width is the least of 0, 1, 2, 4, 8 bytes that holds it (section 4.2.1 of RFC 8949) |
| `Cbor.DecodeRoundTrip` | xtask/src/readiness.rs:707-738 | a decoder recovers every sequence of encoded items, with exactly the following bytes left over |
| `Cbor.EncodeInjective` | xtask/src/readiness.rs:707-738 | different item sequences never encode alike |
| `Cbor.ItemIsPrefixFree` | xtask/src/readiness.rs:707-738 | no item's encoding is a proper prefix of another item's, whatever follows either |
| `Cbor.EncodePrefixFree` | xtask/src/readiness.rs:707-738 | among item sequences of one length no encoding is a proper prefix of another |
| `Cbor.EncodeAppend` | xtask/src/readiness.rs:727-738 | encoding a concatenation is concatenating the encodings |
| `Cbor.Encoder.Major` | xtask/src/readiness.rs:707-725 | the appending method adds exactly the shortest head to the buffer |
| `Cbor.Encoder.UInt` | xtask/src/readiness.rs:727-729 | adds one unsigned item to what the buffer encodes |
| `Cbor.Encoder.Text` | xtask/src/readiness.rs:731-734 | adds one text item, length first, to what the buffer encodes |
| `Cbor.Encoder.Array` | xtask/src/readiness.rs:736-738 | adds one array head to what the buffer encodes |
| `Hex.DecodeEncode` | xtask/src/readiness.rs:744-771 | decoding printed hex gives the bytes back, and printed hex is lower case |
| `Hex.EncodeDecode` | xtask/src/readiness.rs:744-771 | lower-case hex text is exactly the printing of what it decodes to |
| `Hex.DecodeInjective` | xtask/src/readiness.rs:744-771 | two lower-case texts that decode alike are the same text |
| `Readiness.CanonicalMessage` | xtask/src/readiness.rs:429-459 | the loops over probes and blockers build exactly domain, big-endian length and encoding of the signed items |
| `Readiness.AppendProbes` | xtask/src/readiness.rs:429-459 | the probe loop appends the items of all probes, in order |
| `Readiness.AppendBlockers` | xtask/src/readiness.rs:429-459 | the blocker loop appends the items of all blockers, in order |
| `Readiness.AssessmentIsExact` | xtask/src/readiness.rs:360-387 | the staged validator accepts a claim if and only if the claim satisfies the unstaged conditions of all twelve stages |
| `Readiness.ValidateProbesFrom` | xtask/src/readiness.rs:497-519 | the probe loop succeeds exactly when every probe passes its own checks at its own index |
| `Readiness.SignedItemsInjective` | xtask/src/readiness.rs:429-459 | the flat item list determines every signed field, array lengths included |
| `Readiness.MessageFixesSignedFields` | xtask/src/readiness.rs:429-459 | two messages are equal exactly when all signed fields are, and neither is a proper prefix of the other |
| `Readiness.AcceptedIsRepresentable` | xtask/src/readiness.rs:360-387 | every accepted claim is far below the lengths at which a 64-bit length would wrap |
| `Readiness.SignedBytesFixAcceptedClaim` | xtask/src/readiness.rs:360-387 | two claims accepted under one trusted key with equal signed bytes are equal in every field but the signature text, though the bytes contain neither the ready flag nor the public key |
| `Readiness.ReadyIsNotSigned` | xtask/src/readiness.rs:2067-2073 | flipping the ready flag leaves the signed bytes unchanged |
| `Readiness.SealedIsAccepted` | xtask/src/readiness.rs:360-387 | what is signed properly is accepted: sound content and probes, sealed with the trusted key, its fingerprint, the message digest and a verifying signature |
| `Readiness.SampleDraftIsSound` | xtask/src/readiness.rs:472-616 | a concrete draft with all fourteen probes has sound content, so accepted claims exist |
| `Keystone.BindingIsExact` | xtask/src/readiness_keystone.rs:336-387 | a claim is bound at a time if and only if it is accepted, names the opened runner lock, is unexpired and not signed beyond the permitted clock skew |
| `Keystone.PublishableIsExact` | xtask/src/readiness_keystone.rs:301-330 | a claim goes to the publisher if and only if it is bound to the current source and runner lock, is ready, fits in a mebibyte with its line feed, and the output place is free |
| `Keystone.VerifyAndPublish` | xtask/src/readiness_keystone.rs:301-330 | the publisher is reached exactly for bound, ready, small enough claims with a free output, with the canonical bytes and one newline; success is the publisher succeeding |
| `Keystone.ReceiptIsOfClaim` | xtask/src/readiness_keystone.rs:285-297 | a receipt carries the ready flag, the source, the message digest and the verifier fingerprint of the very claim that was assessed, and the opened runner lock |
| `Keystone.PublishedClaimsAreSigned` | xtask/src/readiness_keystone.rs:301-330 | a publishable claim has no blockers, and any other publishable claim with the same signed bytes differs only in its signature text |
| `ReleaseAuthority.VerifyIsExact` | xtask/src/release_authority.rs:127-179 | verification succeeds if and only if the record has the schema, version, tier and lengths, names the pinned key and its fingerprint, and carries a signature by it over domain, four-byte length and text of its own seven statement fields |
| `ReleaseAuthority.MessageIsFramed` | xtask/src/release_authority.rs:78-95 | the message is the domain, the length in four bytes, most significant first, and the text, for every text shorter than 4 GiB and no other |
| `ReleaseAuthority.SignedVerifies` | xtask/src/release_authority.rs:98-124 | what is signed verifies under the signing key if and only if its statement is of the preview tier |
| `ReleaseAuthority.MessageFixesStatement` | xtask/src/release_authority.rs:78-95 | when different statements have different texts, verified records over one message agree in all seven statement fields |
| `ReleaseAuthority.DomainsAreDisjoint` | xtask/src/release_authority.rs:78-95 | no bytes are both a readiness message and a preview-authorization message |
| `Refs.SplitIsSplit` | xtask/src/readiness.rs:861-891 | splitting yields consecutive pieces with no separator inside and a separator between each two |
| `Refs.OctetMatchIsPositional` | xtask/src/readiness.rs:861-891 | an octet window of a token matches exactly when the aligned shape stands at its position |
| `Refs.AddressIsInToken` | xtask/src/readiness.rs:861-891 | an aligned address anywhere in the string lies in one of the tokens |
| `Refs.TokenContainsPrivateIpv4` | xtask/src/readiness.rs:861-891 | the two inner sliding loops find an address in a token if and only if one starts there |
| `Refs.ContainsPrivateOrLoopbackIpv4` | xtask/src/evidence_bind.rs:1173-1203 | the split-and-slide scanner answers true if and only if, somewhere not after a digit, a private or loopback prefix of whole octets is followed by its one-to-three-digit octets, the last not followed by a digit |
| `Refs.SafePathIsPositional` | xtask/src/evidence_bind.rs:1122-1152 | a path is safe exactly when, position by position, it is of permitted length and characters, relative, without two dots in a row, without an empty or dot component, and not on the deny list |
| `Refs.DenylistIsPositional` | xtask/src/readiness.rs:831-853 | the deny list catches exactly the strings with one of the four secret words or four private directories anywhere, one of the four local prefixes at the start, or a private address, in any case of letters |
| `AddressPattern.AgreeAt` | xtask/src/readiness.rs:856-891 | position by position: the expression matches at the start of a number, with its own last octet ending within three digits, if and only if the scanner finds an address there whose octet after 172, if that is its first, is two digits long; and all the scanner finds is these matches and the padded addresses |
| `AddressPattern.ScannerAndPatternAgree` | xtask/src/readiness.rs:856-891 | string by string: the scanner answers true exactly for an aligned match or a zero-padded 172 address; so it agrees with the expression if and only if a match comes with one of the two, and no match with no padded address |
| `AddressPattern.PaddedIsScanned` | xtask/src/readiness.rs:901-911 | every zero-padded octet from 016 to 031 after 172 is scanned, though not as two digits |
| `AddressPattern.MatchedButNotScanned` | xtask/src/readiness.rs:856-891 | on 1127.0.0 the documented expression matches and the scanner does not |
| `AddressPattern.ScannedButNotMatched` | xtask/src/readiness.rs:901-911 | on 172.016.1.1 the scanner answers true and the documented expression matches nowhere |
| `Calendar.NextDayCounts` | xtask/src/release_authority.rs:402-412 | stepping one day with the month lengths and leap rule raises the day count of the closed form by one |
| `Calendar.DateAfterCounts` | xtask/src/release_authority.rs:352-412 | the date after n single steps from 1970-01-01 has day count n |
| `Calendar.CivilInvertsCount` | xtask/src/provenance.rs:526-538 | the closed form from days to date inverts the closed form from date to days |
| `Calendar.CivilIsStepping` | xtask/src/provenance.rs:526-538 | for every day count from the epoch on, the closed form with its nested divisions is that many single steps of the Gregorian calendar |
| `Calendar.OrderIsCountOrder` | xtask/src/release_authority.rs:352-399 | dates are ordered exactly as their day counts |
| `Timestamp.TextIsAccepted` | xtask/src/release_authority.rs:352-399 | every calendar-valid timestamp text is accepted, with its Unix time |
| `Timestamp.AcceptedIsText` | xtask/src/release_authority.rs:352-399 | every accepted string is the text of a calendar-valid timestamp |
| `Timestamp.PrintThenParse` | xtask/src/provenance.rs:513-522 | parsing what was printed gives the epoch back if and only if it lies before the end of year 9999 |
| `Timestamp.ParseThenPrint` | xtask/src/release_authority.rs:352-399 | every accepted string with a non-negative time is reprinted unchanged |
| `Timestamp.ByteOrderIsTimeOrder` | xtask/src/release_authority.rs:352-399 | among accepted strings, byte order is time order |
| `Capture.RetainExtends` | xtask/src/native_smoke.rs:738-746 | retaining chunk after chunk retains the first 16384 bytes of their concatenation |
| `Capture.ScanSeesLines` | xtask/src/native_smoke.rs:682-726 | byte by byte with a line buffer of 512 bytes sees exactly the lines of the stream, each cut at 512 bytes |
| `Capture.RetainTraceIsLast` | xtask/src/native_smoke.rs:748-754 | popping and pushing keeps the ring equal to the last 64 lines of its history |
| `Capture.OutputCapture.RetainBytes` | xtask/src/native_smoke.rs:738-746 | the buffer grows to its bound, the other stays, and the flag is raised exactly when bytes were dropped |
| `Capture.OutputCapture.RetainTraceLine` | xtask/src/native_smoke.rs:728-736 | each ring stays the last 64 matching lines of its history |
| `Capture.OutputCapture.ScanChunk` | xtask/src/native_smoke.rs:682-726 | the loop over one chunk continues the line scan of the whole stream |
| `Capture.OutputCapture.ReadStream` | xtask/src/native_smoke.rs:682-726 | buffer, flag and rings depend on the byte stream alone, not on how reads chunked it |
| `SmokeWorld.StepKeepsInv` | xtask/src/native_smoke.rs:602-754 | every atomic step of the child, its descendants, the readers or the clock keeps the invariant of the shared capture |
| `SmokeWorld.RunKeepsInv` | xtask/src/native_smoke.rs:602-754 | the invariant holds in every state of every interleaving |
| `SmokeWorld.FinishedReadersRetain` | xtask/src/native_smoke.rs:682-754 | once both readers finished, in any interleaving, each buffer is the bounded prefix of its stream, the flag is exact, and the rings are the last 64 of a merge of the two streams own matching lines |
| `SmokeWorld.StepIsLater` | xtask/src/native_smoke.rs:340-475 | no step undoes a reaped leader, a vanished group, a finished reader or what it retained |
| `SmokeWorld.LaterIsTransitive` | xtask/src/native_smoke.rs:340-475 | what one step preserves whole runs preserve |
| `Supervisor.ProbeRound` | xtask/src/native_smoke.rs:534-551 | a round finds all clear exactly when, by what its calls so far were told, the leader was reaped, the group was last seen gone and both readers were seen finished; then they are gone for good |
| `Supervisor.KillIfDue` | xtask/src/native_smoke.rs:513-578 | SIGKILL is sent at most once and not before its time |
| `Supervisor.CleanupRound` | xtask/src/native_smoke.rs:534-577 | one round of the loop: it ends the cleanup when all is clear, or when the clock shows the deadline, and otherwise only when neither is so |
| `Supervisor.CleanupGroup` | xtask/src/native_smoke.rs:513-578 | it terminates; SIGTERM once and first, SIGKILL at most once, not before the kill time and exactly when the clock was seen past it; it reports the child reaped exactly when all was clear, in the first round in which it was, and otherwise that the deadline was seen, with the last call that failed |
| `Supervisor.PollRound` | xtask/src/native_smoke.rs:395-413 | one round of polling asks for the overflow flag, the read failure, the child and the clock, in this order, and stops at the first answer that decides |
| `Supervisor.PollUntilVerdict` | xtask/src/native_smoke.rs:395-413 | it terminates; its verdict is that of the first deciding answer among the questions asked in turn, and a fact about the world that later steps cannot undo |
| `Supervisor.Conclude` | xtask/src/native_smoke.rs:432-474 | the final match turns each grounded verdict over a settled world into its one result, justified by the world |
| `Supervisor.SuperviseWith` | xtask/src/native_smoke.rs:340-475 | the result is the one that the answers of its calls lead to: a failed cleanup exactly when the cleanup never saw all clear, otherwise what the deciding answer of the polling says; Ok means leader exited 0 and reaped, group gone, both streams read to their end without failure and retained whole, marker present; an error after a clear cleanup carries the retained prefix of each stream and both rings, one after a failed cleanup earlier prefixes; the signals sent are disciplined; the capture invariant holds at the end |
| `Supervisor.LastAnswerDecides` | xtask/src/native_smoke.rs:395-474 | no answer of the polling but the last gave reason to stop, and the last, with a clear cleanup, fixes the kind of the result and what it carries: overflow, read failure, wait error, exit status or deadline; exit code 0 leads on to overflow, read failure, missing marker or Ok |
| `Supervisor.WaitFailureIsSeen` | xtask/src/native_smoke.rs:409 | a wait failure carries the error that polling the child returned last |
| `Supervisor.CleanExitPasses` | xtask/src/native_smoke.rs:395-452 | when the child was seen to exit with 0, its group was last seen gone and both readers were seen to finish, the supervision passes if and only if neither stream exceeded its bound, no read failed and the marker stands in the output |
| `Supervisor.CleanupFailureIsSeen` | xtask/src/native_smoke.rs:513-578 | a failed cleanup saw the clock past its end and names the last of its calls that failed; if none did, it tells exactly which of leader, group and readers had not been seen to end, and one had not |
| `Publication.StepKeepsInv` | xtask/src/evidence_bind.rs:469-535 | every system call of every publisher, every crash and every power loss keeps the directory invariant |
| `Publication.RunKeepsInv` | xtask/src/readiness_keystone.rs:584-632 | the invariant holds in every state of every run of any number of publishers, colliding temporary names included |
| `Publication.DestinationIsComplete` | xtask/src/readiness_keystone.rs:584-632 | a bound destination always holds the complete bytes of exactly the publisher that linked it |
| `Publication.StepKeepsFinalNames` | xtask/src/evidence_bind.rs:1388-1466 | no step other than a power loss changes or removes a bound destination or the bytes behind it |
| `Publication.FinalNamesAreStable` | xtask/src/readiness_keystone.rs:584-632 | a destination once bound stays bound to the same file with the same bytes through every continuation without power loss |
| `Publication.OneWinner` | xtask/src/evidence_bind.rs:1435-1466 | between power losses at most one publisher links a given destination |
| `Publication.SuccessIsBound` | xtask/src/evidence_bind.rs:469-535 | a reported success linked its complete bytes; one reported durable holds its destination even across power losses |
| `Publication.DurableSuccessesAreUnique` | xtask/src/evidence_bind.rs:469-535 | at most one publisher of a name ever reports a durable success |
| `Publication.ErrorsAfterLinking` | xtask/src/readiness_keystone.rs:584-632 | a publisher ends in error with its destination linked if and only if it is the readiness publisher and its close or directory sync failed, in every run, power losses included; without power loss that is exactly when its error leaves the name bound |
| `Publication.OutcomeIsExact` | xtask/src/evidence_bind.rs:492-528 | in every run a publisher that has ended has succeeded exactly when no call up to its link was refused and, for readiness, none after it failed; and its success is durable exactly when neither the close nor the directory sync failed |
| `Publication.EveryPublisherEnds` | xtask/src/evidence_bind.rs:492-528 | whatever its calls return and whatever other publishers do, a publisher that is not stopped ends within seven calls and one for each byte |
| `Publication.TemporaryNameIsRemoved` | xtask/src/evidence_bind.rs:492-516 | whatever else fails, a publisher that is not stopped and whose unlink succeeds has removed its temporary name when it ends |
| `Publication.UndisturbedPublisherSucceeds` | xtask/src/readiness_keystone.rs:584-632 | a publisher of either kind that is not stopped, whose calls succeed and whose names are free when it asks for them, reaches durable success, its destination bound to its own complete file and its temporary name gone, whatever the others do |
| `Publication.ErrorWithNameBound` | xtask/src/readiness_keystone.rs:584-632 | a concrete run in which the readiness publisher fails after its name was bound |
| `ScanPolicy.ClassifyPattern` | xtask/src/artifact_inspector.rs:1149-1169 | whatever a pattern is classified as stands against acceptance |
| `ScanPolicy.AddressIsPositional` | xtask/src/artifact_inspector.rs:1186-1214 | the word-by-word scan finds an e-mail shape if and only if one stands between delimiters somewhere |
| `ScanPolicy.CleanIsPositional` | xtask/src/artifact_inspector.rs:1179-1231 | bytes are clean exactly when no forbidden pattern stands at any position, no token of the four services stands outside a longer word, and no e-mail shape between delimiters |
| `Inspector.Report.Push` | xtask/src/artifact_inspector.rs:1233-1242 | a finding is added once, none is dropped or reordered, and exactly its code is new |
| `Inspector.ScanBytes` | xtask/src/artifact_inspector.rs:547-561 | a scan reports exactly the codes of the patterns and shapes that occur, and blocks exactly when something occurs |
| `Inspector.CheckManifest` | xtask/src/artifact_inspector.rs:605-634 | blocks exactly when license, version or source commit differ from policy |
| `Inspector.InspectManifest` | xtask/src/artifact_inspector.rs:563-601 | blocks exactly when the manifest cannot be read, does not match, or the platform integration is incomplete |
| `Inspector.TreePackageIsExact` | xtask/src/artifact_inspector.rs:502-601 | a directory is a package exactly when one file is the executable and one the manifest, and the manifest has the license of the policy, its version and source commit where it names them, and the three property-list keys or the two flags and two files of its platform |
| `Inspector.ScanFile` | xtask/src/artifact_inspector.rs:535-542 | blocks exactly when the file cannot be read or what the bounded read saw is not clean |
| `Inspector.InspectEntry` | xtask/src/artifact_inspector.rs:441-533 | one turn of the walk stops exactly at a broken limit, and otherwise counts, sizes and scans the entry |
| `Inspector.CountsAdd` | xtask/src/artifact_inspector.rs:450-499 | the two totals: one for every entry below the root and the size of every file among them, an unknown size counting as the largest, and joined walks add up |
| `Inspector.WalkTree` | xtask/src/artifact_inspector.rs:441-533 | on every break and continue path the walk blocks exactly when some entry is harmful or a total exceeds policy |
| `Inspector.InspectDirectory` | xtask/src/artifact_inspector.rs:441-533 | the findings stand against acceptance exactly when the directory as a whole is unacceptable; an acceptable one has its counters and executable digest measured |
| `ZipReader.InspectContent` | xtask/src/artifact_inspector.rs:715-880 | one file stops the loop exactly at the size, total or ratio limit, and otherwise is accounted and scanned in full |
| `ZipReader.ReadEntry` | xtask/src/artifact_inspector.rs:715-880 | one turn of the archive loop stops exactly at a broken limit or unreadable entry |
| `ZipReader.ReadEntries` | xtask/src/artifact_inspector.rs:715-880 | the archive loop blocks exactly when some entry is harmful or a limit is broken, and otherwise has read every file under its stripped name |
| `ZipReader.CheckPackage` | xtask/src/artifact_inspector.rs:715-880 | blocks exactly when executable, manifests or platform metadata are not as a package needs |
| `ZipReader.ZipPackageIsExact` | xtask/src/artifact_inspector.rs:838-880 | an archive is a package exactly when one file is the executable, there is a manifest, each manifest has the license of the policy and its version and source commit where it names them, and the last property list has the three keys |
| `ZipReader.FilesAtArePositional` | xtask/src/artifact_inspector.rs:765-836 | the files collected for a path are exactly those whose name, without the prefix known by then, is the path |
| `ZipReader.PrefixIsFirstTop` | xtask/src/artifact_inspector.rs:765-779 | the prefix that is stripped is the top-level component of the first file that has one |
| `ZipReader.TopIsComponent` | xtask/src/artifact_inspector.rs:765-779 | a top-level component is what stands before the first slash, if anything does |
| `ZipReader.FileCountsAdd` | xtask/src/artifact_inspector.rs:781-812 | the two totals: one for every entry that is neither directory nor link, and its decompressed length, and joined archives add up |
| `ZipReader.InspectZip` | xtask/src/artifact_inspector.rs:715-880 | the findings stand against acceptance exactly when the archive as a whole is unacceptable |
| `ZipReader.DirectoriesAreUnseen` | xtask/src/artifact_inspector.rs:741-763 | for every inspector and archive: putting in a directory-marked entry, link or not and whatever it carries, changes neither acceptance nor the measured executable, unless it comes after the last permitted file |
| `ZipReader.AcceptedZipIsSound` | xtask/src/artifact_inspector.rs:741-763 | an acceptable archive has no link and only entries that were readable and are clean if and only if that holds of its directory-marked entries |
| `InspectVerdict.CheckIdentity` | xtask/src/artifact_inspector.rs:1413-1529 | the sibling manifest is refused exactly when schema, file name or artifact digest do not fit |
| `InspectVerdict.BindArtifactManifest` | xtask/src/artifact_inspector.rs:1413-1529 | both hashes of the binding chain are taken from a manifest that names this artifact, or the report is blocked |
| `InspectVerdict.BindProvenance` | xtask/src/artifact_inspector.rs:1275-1400 | the provenance digest is bound exactly for a sound record of a clean build; a malformed or foreign candidate hash blocks |
| `InspectVerdict.VerifyPackagedExecutableBinding` | xtask/src/artifact_inspector.rs:1554-1568 | blocks exactly when claimed and measured executable digests are both present and differ |
| `InspectVerdict.VerifyPreviewAuthorization` | xtask/src/artifact_inspector.rs:1000-1094 | authorizes exactly for a record verified under the pinned key, for this artifact and provenance, unexpired; it never affects acceptance |
| `InspectVerdict.InspectDmg` | xtask/src/artifact_inspector.rs:653-708 | blocks exactly when the image is not mounted or its one bundle is unacceptable |
| `InspectVerdict.InspectOpaque` | xtask/src/artifact_inspector.rs:331-356 | a stream scan blocks on size, read error or content, and always for a package |
| `InspectVerdict.InspectArtifact` | xtask/src/artifact_inspector.rs:280-361 | the first half of the inspection blocks exactly when the content is unacceptable, early returns included |
| `ReleaseInspection.BindEvidence` | xtask/src/artifact_inspector.rs:365-404 | the evidence stages block exactly when the binding chain fails or a sibling carries a leak |
| `ReleaseInspection.IncompleteIsBlocked` | xtask/src/artifact_inspector.rs:405-425 | whatever makes the scan incomplete also stands against acceptance |
| `ReleaseInspection.Inspect` | xtask/src/artifact_inspector.rs:251-439 | accepted and preview-authorized hold if and only if their stated conditions do; publication is never authorized |
| `ReleaseInspection.AcceptedTreeIsScanned` | xtask/src/artifact_inspector.rs:441-533 | no entry of an accepted directory is a link or unread; every file was scanned, in full when files hold still; totals are within policy |
| `ReleaseInspection.AcceptedZipIsScanned` | xtask/src/artifact_inspector.rs:715-880 | every entry of an accepted archive that it does not mark as a directory is no link, was decompressed in full, is clean, and respects size, total and ratio limits |
| `ReleaseInspection.VerdictIgnoresDirectories` | xtask/src/artifact_inspector.rs:741-763 | for every inspector, a directory-marked entry before the last one changes neither acceptance nor preview authorization of an archive whose digest the evidence names |
| `ReleaseInspection.PreviewWithUnseenLink` | xtask/src/artifact_inspector.rs:754-763 | under a valid policy there is an accepted and preview-authorized archive that holds a link with a forbidden pattern behind it |
| `ReleaseInspection.AcceptedFileIsScanned` | xtask/src/artifact_inspector.rs:331-356 | an accepted single file is a candidate, not quarantined, within the size limit and clean as far as it was read, to its end when it did not grow |
| `ReleaseInspection.AcceptedIsPermitted` | xtask/src/artifact_inspector.rs:280-330 | whatever is accepted is a directory or a file; a file of any format is within the size limit and not quarantined; the siblings of a package are clean as far as they could be read again |
| `ReleaseInspection.AcceptedPackageDeclares` | xtask/src/artifact_inspector.rs:603-623 | every accepted package, directory, image or archive, holds a manifest, and each one it holds declares the license of the policy, and the version and source commit where the policy names them |
| `ReleaseInspection.EvidenceIsExact` | xtask/src/artifact_inspector.rs:1275-1568 | the evidence of a package agrees exactly when its manifest has the schema, names the file and its digest and carries two well-formed digests, the second being that of the executable if it was measured, and a provenance that attests a clean build names a well-formed candidate, with a known origin the first of the two |
| `ReleaseInspection.PreviewIsBound` | xtask/src/artifact_inspector.rs:365-437 | a preview-authorized artifact, its manifest, its provenance and the signed record all name one another by digest, under the pinned key and before expiry, and the provenance attests a clean build without the test-control feature and a known origin |
| `ReleaseInspection.PreviewExecutableLink` | xtask/src/artifact_inspector.rs:500-533 | a preview-authorized package matches its claimed executable digest if and only if the executable could be read again for measuring, which an archive always allows |
| `ReleaseInspection.PreviewDoesNotNeedExecutable` | xtask/src/artifact_inspector.rs:526-532 | for every inspector and every disk image: it is preview-authorized if and only if it would be with its executable unreadable for measuring and the measured digest, if any, is the claimed one; so it stays authorized when that read fails, with nothing measured |
| `ReleaseInspection.PreviewWithoutMeasuredExecutable` | xtask/src/artifact_inspector.rs:526-532 | under a valid policy such an image exists: preview-authorized, its executable never measured |
| `Sorting.SortPermutes` | xtask/src/evidence_bind.rs:423-431 | the sort keeps every element |
| `Sorting.SortSorts` | xtask/src/evidence_bind.rs:423-431 | the sort orders by any weak order |
| `Sorting.SortIsTiers` | crates/rutile-app/src/command_palette.rs:174-176 | a stable sort by rank is the concatenation of the ranks, each in its original order |
| `Sorting.StrictlySortedUnique` | xtask/src/evidence_bind.rs:423-431 | a strictly sorted list is determined by its elements |
| `Sorting.CountPermutes` | xtask/src/evidence_bind.rs:869-870 | counting does not depend on order |
| `EvidenceBind.PickCanonicalRetainedLog` | xtask/src/evidence_bind.rs:925-940 | picks the first among the lowest runs, standard output before standard error, a missing run last |
| `EvidenceBind.BindRetainedLog` | xtask/src/evidence_bind.rs:716-775 | succeeds exactly when the canonical entry names a safe, link-free, small enough file whose digest it records |
| `EvidenceBind.BindArtifactHashes` | xtask/src/evidence_bind.rs:777-809 | succeeds exactly when the hashes are well formed and at most 256 are distinct, with their strictly sorted set |
| `EvidenceBind.ReadIsExact` | xtask/src/evidence_bind.rs:1097-1108 | reading below the root gives the bytes exactly when a file of permitted size is at the path and no prefix that ends a component is a link |
| `EvidenceBind.LoadedGateIsExact` | xtask/src/evidence_bind.rs:586-714 | a gate result is loaded exactly when the gate is passed and safely named, and the file at its path, of the recorded digest, is a schema-valid result of this commit and tree, required status passed, exit code 0, in the run directory that its own path names |
| `EvidenceBind.RunIsNamed` | xtask/src/evidence_bind.rs:700-714 | the run directory of a path is what stands between its last two slashes |
| `EvidenceBind.CanonicalIsNoWorse` | xtask/src/evidence_bind.rs:925-940 | no retained log has a better claim than the chosen one: a lower run, standard output, or standard error before anything else, an earlier place |
| `EvidenceBind.BesideLiesBeside` | xtask/src/evidence_bind.rs:747-752 | the retained log is looked for at the path of the gate result with what follows its last slash replaced |
| `EvidenceBind.BindGate` | xtask/src/evidence_bind.rs:586-819 | succeeds exactly when some record holds, with that record |
| `EvidenceBind.GateRecordIsUnique` | xtask/src/evidence_bind.rs:586-819 | a gate determines its record |
| `EvidenceBind.BindGates` | xtask/src/evidence_bind.rs:423-431 | the gate loop yields one record for each gate and one gate for each record, in strict job order, or there is no such list |
| `EvidenceBind.CheckRequiredJobs` | xtask/src/evidence_bind.rs:441-445 | every required job has a record, or the bind fails |
| `EvidenceBind.LoadAndBind` | xtask/src/evidence_bind.rs:362-461 | succeeds exactly when some index holds, with that index |
| `EvidenceBind.IndexIsUnique` | xtask/src/evidence_bind.rs:362-461 | the inputs determine the index |
| `EvidenceBind.GateOrderIsIrrelevant` | xtask/src/evidence_bind.rs:423-431 | reordering the gates gives the identical index, or none in both cases |
| `EvidenceBind.RecordedDigestsAreMeasured` | xtask/src/evidence_bind.rs:586-819 | every recorded digest is that of the file at the recorded safe path, and each artifact list is strictly sorted with exactly the hashes of the gate result at its record's path |
| `EvidenceBind.BoundResultIsOfHead` | xtask/src/evidence_bind.rs:659-714 | behind every record of an index is a schema-valid gate result of the commit that the index names and of the head tree, required status passed, exit code 0, in the run directory of its path, and the record binds its first retained log |
| `EvidenceBind.BoundInputsAreOfHead` | xtask/src/evidence_bind.rs:362-461 | the index is of the head commit, and so are the plain index and the provenance, a schema-valid record of version 1 whose digest the index carries; every required job has a record |
| `EvidenceBind.PlainIndexIsExact` | xtask/src/evidence_bind.rs:825-891 | the plain index is read exactly when it is a small file that parses to a list of one to 256 gates for this commit whose counts and statuses are coherent |
| `EvidenceBind.ProvenanceIsExact` | xtask/src/evidence_bind.rs:386-418 | the provenance stage succeeds exactly on a small schema-valid record of version 1 for this commit |
| `EvidenceBind.BoundGatesPassed` | xtask/src/evidence_bind.rs:825-891 | behind every index all gates passed, none failed, and the counts are the number of records |
| `PackageSmoke.AppendBounded` | xtask/src/package_smoke.rs:846-852 | appending to a bounded buffer keeps the first 16 KiB of the whole |
| `PackageSmoke.RunStagePlan` | xtask/src/package_smoke.rs:782-844 | runs all commands, or the commands up to the first that does not pass and then the whole cleanup; passes exactly in the first case; in both cases keeps the bounded output and the reaped flag of all commands but the cleanup, and in the second reports status, exit code and kill of the command that broke it off, an executor error being appended to standard error |
| `PackageSmoke.ImageIsDetached` | xtask/src/package_smoke.rs:1022-1070 | every run of a disk-image install begins with the attach and ends with the detach |
| `PackageSmoke.RecordStage` | xtask/src/package_smoke.rs:877-921 | both logs are written bounded, and each reference carries the length and digest of what was written |
| `PackageSmoke.InstallStage` | xtask/src/package_smoke.rs:625-663 | no failure exactly when the plan ran to its end and the expected binary was then seen |
| `PackageSmoke.OpenStage` | xtask/src/package_smoke.rs:665-705 | skipped without the expected binary; no failure exactly when it ran to its end and the same binary was seen again |
| `PackageSmoke.UninstallStage` | xtask/src/package_smoke.rs:707-733 | always runs its plan; no new failure exactly when it ran to its end and nothing was left |
| `PackageSmoke.Preflight` | xtask/src/package_smoke.rs:586-623 | nothing is run before shape, platform, digest, identity, staleness and plan checks have passed, and it succeeds exactly when all of them do |
| `PackageSmoke.ReadyIsExact` | xtask/src/package_smoke.rs:1248-1268 | the checks before the first command, spelled out: extension and platform of the kind, well-formed digests and commit, safe paths, the package there twice alike with the requested digest, no binary yet, a place for the evidence |
| `PackageSmoke.PlansAreOfRequest` | xtask/src/package_smoke.rs:945-1225 | every command is of its stage, the package is installed by its path, and what is opened and removed is what was installed |
| `PackageSmoke.RunSmoke` | xtask/src/package_smoke.rs:586-778 | the install is reached exactly when the preflight checks pass; a receipt passes exactly when there is no failure and exactly when all stages and checks succeeded, and its uninstall plan was run; its three rows tell how their own runs ended, with exit code, reaped flag and what was seen, the digest standing in the first two exactly when the install left the expected binary; its head is of the request and of the package captured before the first command; without a receipt the uninstall was left out exactly when an earlier record could not be written |
| `PackageSmoke.EverySmokeDetaches` | xtask/src/package_smoke.rs:586-778 | whatever the executor and the file system do, a smoke that reached a disk-image install attached first and detached last |
| `PackageSmoke.LostLogsLoseUninstall` | xtask/src/package_smoke.rs:625-715 | for every request and every behaviour of the commands, where no log can be written the install plan runs and neither open nor uninstall does |
| `PackageSmoke.SmokeWithoutLogs` | xtask/src/package_smoke.rs:625-715 | a concrete such smoke: it executes an install command, no uninstall command, returns an error and leaves the binary behind |
| `CommandPalette.WordPrefixIsPositional` | crates/rutile-app/src/command_palette.rs:228-232 | a word prefix is the query at the start of a word; a query with a blank inside never is one |
| `CommandPalette.RankIsExact` | crates/rutile-app/src/command_palette.rs:203-225 | where a query stands in a command gives its rank: the whole identifier, the start of the title, the start of a later word without a blank, anywhere in title or identifier, or no match |
| `CommandPalette.NeedleIsTrimmed` | crates/rutile-app/src/command_palette.rs:155-162 | what is searched for is the query between its outer blanks, its ASCII letters in lower case |
| `CommandPalette.TierIsBucket` | crates/rutile-app/src/command_palette.rs:155-180 | the matches of one rank are the commands of that rank in registry order |
| `CommandPalette.SortIsBuckets` | crates/rutile-app/src/command_palette.rs:155-180 | sorting the matches stably by rank is laying out the four ranks one after the other, each in registry order |
| `CommandPalette.CollectMatches` | crates/rutile-app/src/command_palette.rs:155-180 | the filter loop collects exactly the matching commands in registry order |
| `CommandPalette.CommandPalette.SetQuery` | crates/rutile-app/src/command_palette.rs:155-180 | shows the first 50 rows of the ranks laid out in order and selects the first |
| `CommandPalette.CommandPalette.MoveSelection` | crates/rutile-app/src/command_palette.rs:184-198 | moves to the clamped sum although the arithmetic saturates at 32 bits, and reports whether it moved |
| `CommandPalette.CommandPalette.Open` | crates/rutile-app/src/command_palette.rs:114-119 | opens empty with selection zero |
| `CommandPalette.CommandPalette.Close` | crates/rutile-app/src/command_palette.rs:122-127 | closes to the initial state |
| `CommandPalette.SelectionStaysInRange` | crates/rutile-app/src/command_palette.rs:99-198 | over every sequence of operations the selection is in range, or the list is empty and it is zero |
| `CommandPalette.MatchingIsRanked` | crates/rutile-app/src/command_palette.rs:203-225 | every listed row is a registry command with the rank it is listed under |
| `CommandPalette.ShownRowsRankBest` | crates/rutile-app/src/command_palette.rs:174-176 | no dropped row ranks better than a shown one, and the rows are the matches, none lost |
| `CommandPalette.RowsAreBounded` | crates/rutile-app/src/command_palette.rs:174-180 | as many rows are shown as match, up to fifty |
| `CommandPalette.MoveGoesAsFarAsItCan` | crates/rutile-app/src/command_palette.rs:184-198 | a move goes by the delta, or to the first or last row when that lies beyond, and changes nothing else |
| `CommandPalette.EmptyQueryShowsRegistry` | crates/rutile-app/src/command_palette.rs:203-209 | an empty query lists the registry in its own order |
| `Metrics.NearestRank` | xtask/src/metrics.rs:36-60 | the element at the computed rank of the sorted samples is the least value that covers 95 in 100 of them |
| `Metrics.AssertMetric` | xtask/src/metrics.rs:36-60 | reports that value for enough samples when it is within the threshold, and the two errors exactly otherwise |
| `Metrics.P95IsUnique` | xtask/src/metrics.rs:36-60 | permuted samples have the same percentile |
| `Metrics.OrderIsIrrelevant` | xtask/src/metrics.rs:36-60 | the percentile exists for all non-empty samples and does not depend on their order |
| `HtmlInspector.ParseAttributes` | fuzz/fuzz_targets/render_markdown.rs:80-121 | the cursor loops compute the recursive reading of the attribute text |
| `HtmlInspector.ParseInvertsWrite` | fuzz/fuzz_targets/render_markdown.rs:80-121 | reading written attributes with distinct names and quote-free values gives them back, whatever the white space between them |
| `HtmlInspector.ParsedIsSpelled` | fuzz/fuzz_targets/render_markdown.rs:80-121 | the accepted texts are exactly those that spell distinct attributes in some layout of white space, and what is read is what they spell |
| `HtmlInspector.ParsedIsPrintable` | fuzz/fuzz_targets/render_markdown.rs:80-121 | whatever is accepted has distinct valid names and quote-free values |
| `HtmlInspector.ForestNests` | fuzz/fuzz_targets/render_markdown.rs:30-78 | the tags of any forest leave the stack as it was |
| `HtmlInspector.ConsumedIsFramed` | fuzz/fuzz_targets/render_markdown.rs:30-78 | whatever the stack machine has consumed is complete trees between the tags still open |
| `HtmlInspector.AcceptsForests` | fuzz/fuzz_targets/render_markdown.rs:30-78 | the stack machine accepts exactly the tag sequences of forests |
| `HtmlInspector.InspectToken` | fuzz/fuzz_targets/render_markdown.rs:44-70 | one tag changes stack and counters exactly as its reading says, or is refused |
| `HtmlInspector.TokenIsExact` | fuzz/fuzz_targets/render_markdown.rs:44-70 | a token is read exactly when it is the document type of a complete page, a closing tag with a valid name, or a listed name up to white space followed by attributes that the table permits; and that is what it contributes |
| `HtmlInspector.InspectHtml` | fuzz/fuzz_targets/render_markdown.rs:30-78 | the loop over the text accepts exactly the pages whose tags read, nest and name the required resources once |
| `HtmlInspector.AcceptedIsForest` | fuzz/fuzz_targets/render_markdown.rs:30-78 | an accepted text is the tags of a forest together with exactly the required resources |
| `HtmlInspector.AcceptedPageIsRead` | fuzz/fuzz_targets/render_markdown.rs:30-46 | between every pair of brackets of an accepted page stands a token that is read, and no opening bracket stands elsewhere |

## Left out

- Supervisor.SuperviseWith: does not model panics of the reader threads, reuse of process ids, or overflow of clock arithmetic; a group that is empty after its leader is reaped stays empty.
- Supervisor.SuperviseWith: an exit status is either a code or a signal, and the fault-injection seams for wait and read errors are choices of the environment.
- Supervisor.CleanupGroup: an error of the cleanup is the call that failed with the error it gave, or the three flags at the deadline; the sentence made of it is not modelled.
- PackageSmoke.RunSmoke: the error text, schema, architecture and times of a receipt are not modelled.
- SmokeWorld.FinishedReadersRetain: says that each ring is the end of a merge of both streams, not which merge, because the threads race for the locks.
- Publication.SuccessIsBound: writes, links and directory syncs are atomic steps, and a power loss keeps for each name either its current or its last forced binding; real file systems may order unforced updates more finely.
- Publication.RunKeepsInv: permissions, ownership and symlink checks on parent directories are not modelled.
- Readiness.AssessmentIsExact: reading the trusted key file is not modelled; the key is a parameter.
- Keystone.BindingIsExact: Git and the runner-lock verifier are parameters.
- ReleaseAuthority.MessageFixesStatement: the sorted-key JSON of a statement is a parameter, and that different statements are written differently is a hypothesis.
- Timestamp.PrintThenParse: the negative branch of the civil-day formula is not modelled, because the input is unsigned.
- ReleaseInspection.Inspect: sibling files, Info.plist and manifests are inputs, so a file that changes between two reads is two inputs; the error texts of findings stand for whatever the library prints.
- ReleaseInspection.AcceptedZipIsScanned: promises nothing about entries that the archive marks as directories, links among them included, because the source passes over them unread.
- ScanPolicy.ClassifyPattern: the whitespace test on the expected license is ASCII only.
- InspectVerdict.InspectDmg: mounting and detaching images is an outcome, not a process.
- EvidenceBind.LoadAndBind: error variants are merged where they differ only in the file they name, and the tree does not change during a bind.
- EvidenceBind.BindGate: the retained-log name is joined as a path component without interpreting it further.
- PackageSmoke.RunSmoke: the text of failures is represented by their origin, deadlines of commands are not modelled, and the production executor with its own child supervision is left out, as the engine accepts any executor.
- CommandPalette.CommandPalette.SetQuery: lower-casing is ASCII only, as in the source; the registry is a sequence of commands.
- HtmlInspector.InspectHtml: the table of permitted attributes is a parameter; only its counters matter here. The Markdown renderer itself is not part of this model.
- Metrics.AssertMetric: decoding the metric record is not modelled, and sample counts are below the size at which 95 times their number would overflow.
- Quarantine-registry and policy-file loading, command-line parsing, package building, runner enrollment, quality probes and GUI transcripts: further validators and plumbing without new kinds of properties.
- The document model, autosave and session code: not part of this model.
