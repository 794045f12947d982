# Verified model of sigstore scaffolding

This project models four parts of the scaffolding tools in Dafny and proves what they keep.

**The TUF trust chain.** A TSA certificate chain is split into named files, trimmed, listed from a
map in any order, sorted by name, classified, concatenated, read back as PEM and partitioned into
leaf, intermediates and root. PEM framing is concrete (BEGIN line, body, END line, white space
between blocks and at line ends, sections 3 and 5.1 of RFC 7468). The main result: the chain comes
out as it went in if and only if it has at most ten intermediates. The bound in the repository's
README.md:314 ("at most 10") is therefore exact; the comment at repo.go:215-216 ("less than 10") is
one too cautious. With eleven, the eleventh intermediate is read in third place.

**Archive and extract.** CompressFS walks a tree, Uncompress replays the entries with its two name
checks. Extraction into an empty directory reproduces the tree without its skipped subtrees, and
succeeds if and only if no remaining name has a backslash, no directory that still has children has
a name ending in "..", and the destination admits the tree's name. Every destination does, absolute
or relative, except one that cleans to ".": the string prefix check then refuses every name without
a leading dot, so a repository cannot be extracted into the current directory under that name. Over
existing files it lays the tree over what is there. Whatever the entries of an archive are, extraction
changes nothing outside its destination.

**The CT log configuration.** The program createctconfig is a step on two secrets. A run may fail or
crash anywhere, in particular between its two writes; map iteration order is arbitrary; stale
`fulcio-N` keys are never deleted. Proved over all sequences of runs: the keys belong together and
are never replaced, no stored root is lost, and the log trusts exactly the stored roots. Proved where
the program breaks these promises, each with its exact condition: when two runs overlap, a new root
of the first is dropped if the second brings another new one, and stored without being trusted if it
brings none; overlapping creations replace the keys and can publish the wrong one; creation over a
secret that lacks a key but holds roots leaves these untrusted and may drop one. `Witness` has an
input for each.

**ReconcileSecret as a protocol.** Any number of clients interleave fetches and writes against a
server that checks versions. Every interleaving is equivalent to performing the accepted writes one
after the other, and every call did what it would have done alone at the moment of its fetch, or was
rejected because another write was accepted since.

Base64, X.509, encryption and the text form of protocol buffers are records of functions (`Codec`,
`Crypto`) with inverse laws (`Lawful`, `Sound`); `Witness` builds functions that obey all of them.
File contents and secret values are character sequences, which include all byte sequences. Go's
panics (an index into an empty chain, a write into a nil map, a nil PEM block) are outcomes of the
model, not preconditions. A secret without entries has a nil data map, so `Some(map[])` is the state
in which a write panics.

Where code and documentation disagree, the model follows the code:

- The repository's README.md:317-319 numbers intermediates from the root side; certs.go:61-66 numbers them from the
  leaf side, and so does `CertChain.NameAt`.
- The repository's README.md:307-315 offers one file per TSA certificate; the server splits every file whose name
  contains "tsa" and refuses one with fewer than two certificates (`TufServer.AcceptedIff`).

Modules: `Wrappers`, `Strings`, `Sorting` (helpers); `Pem`, `PemText`, `PemConcat`, `CertChain`,
`TrustedRoots`, `TrustPipeline`, `TufServer` (trust chain); `Paths`, `Archive`, `ArchiveRoundTrip`,
`ArchiveSafety` (archive); `CtlogConfig`, `CtlogRuns`, `CtlogInvariants`, `CtlogOverlap`,
`CtlogEntries` (CT log); `Secrets`, `SecretProtocol` (secrets); `Witness` (consistency of the laws, `SomeCryptoSound`, and the inputs that
show the failures).

`dafny verify dfyconfig.toml` checks the whole project.

## Model

| member | source | states |
|---|---|---|
| `TrustPipeline.TsaPipeline` | tools/tuf/pkg/repo/repo.go:208-278 | for every chain of two or more distinct certificates whose first is not a CA, in every listing order: leaf is the first, root the last, the intermediates are the chain's, and they are in chain order if and only if there are at most ten; validity is the first certificate's |
| `TrustPipeline.ElevenScrambled` | tools/tuf/pkg/repo/repo.go:215-219 | with eleven intermediates they are read in the order 0, 1, 10, 2, ..., 9 |
| `TrustPipeline.EntryRole` | tools/tuf/pkg/repo/repo.go:224-241 | every file name that splitting produces is classified as TSA and lands in the slot of its position, whatever the number |
| `TufServer.DirectoryToTrustedRoot` | tools/tuf/cmd/tuf/server/main.go:96-132 | the same from the directory listing on, for a directory with one TSA chain file and any files not named for TSA; a trusted root is built if and only if every log key and the Fulcio chain can be read, and the TSA chain is never the cause of an error |
| `TufServer.ProgramCarriesChain` | tools/tuf/pkg/repo/repo.go:161-189 | the same for what the composed program returns |
| `TufServer.AcceptedIff` | tools/tuf/cmd/tuf/server/main.go:113-120 | a directory is accepted if and only if each file named for TSA that is neither a directory nor starts with ".." holds two or more certificates |
| `TufServer.PlainFiles` | tools/tuf/cmd/tuf/server/main.go:96-129 | among the names without "tsa" the files are exactly the plain entries, under their own name with their own content |
| `TufServer.ChainFiles` | tools/tuf/cmd/tuf/server/main.go:113-124 | among the names with "tsa" the files are exactly those that chains are split into |
| `TufServer.ProgramLogKeys` | tools/tuf/pkg/repo/repo.go:161-256 | the program trusts exactly the keys in the plain files named for Rekor and the CT log, each with its log's address, whatever else is in the directory |
| `TufServer.BuildFiles` | tools/tuf/cmd/tuf/server/main.go:96-129 | the loop yields the specified files map, or the first chain file's error |
| `TufServer.TrimInto` | tools/tuf/cmd/tuf/server/main.go:120-124 | all split files are entered trimmed, whatever the map order |
| `Strings.SpaceCharacters` | tools/tuf/cmd/tuf/server/main.go:122 | the characters that are trimmed: space, tab, line feed, vertical tab, form feed and carriage return |
| `TufServer.ListTargets` | tools/tuf/pkg/repo/repo.go:166-177 | ranging over the map lists each file once |
| `TufServer.InitTrustedRoot` | tools/tuf/pkg/repo/repo.go:161-189 | the composed program returns the trusted root of the sorted targets, or the error of the failing stage |
| `TufServer.TrustedRootUnique` | tools/tuf/pkg/repo/repo.go:166-189 | the trusted root is a function of the files: neither map order nor sorting algorithm shows in it |
| `CertChain.SplitCertChain` | tools/tuf/pkg/certs/certs.go:35-69 | parse errors and chains shorter than two are reported; otherwise each position is stored under its name, numbered from the leaf side, and there are no other names |
| `CertChain.NameAtInjective` | tools/tuf/pkg/certs/certs.go:51-66 | names are pairwise distinct for every prefix and length |
| `CertChain.SplitThenRebuild` | tools/tuf/pkg/certs/certs.go:35-69 | a split has exactly one file per certificate and the map alone gives the chain back in order |
| `Pem.ReadChain` | tools/tuf/pkg/repo/repo.go:433-448 | the reading loop terminates, since the remaining text shrinks, and returns the certificates in order or the first error |
| `PemText.BlockRead` | tools/tuf/pkg/repo/repo.go:438 | a block at the start of the text is decoded whatever blanks or carriage return end its BEGIN line and whatever follows it, provided its END line ends |
| `PemText.ParsePiece` | tools/tuf/pkg/repo/repo.go:436-448 | well-formed text, with LF or CRLF line ends and any white space around its blocks, reads as its certificates in order |
| `PemText.NonCertificateRefused` | tools/tuf/pkg/repo/repo.go:440-446 | text of complete blocks is refused if one of them, anywhere, is no certificate |
| `PemText.NoBlockRefused` | tools/tuf/pkg/repo/repo.go:437-442 | text without a BEGIN line is refused unless it is blank, which reads as no certificates |
| `PemText.PreambleSkipped` | tools/tuf/pkg/repo/repo.go:438 | lines in front of a block are passed over |
| `PemText.EndLineRefused` | tools/tuf/pkg/repo/repo.go:438 | a block with another label on its END line, or anything but blanks behind it, is none |
| `PemText.LineEnds` | tools/tuf/pkg/repo/repo.go:438 | BEGIN and END lines may end in blanks, LF or CRLF |
| `PemConcat.ConcatCertChain` | tools/tuf/pkg/repo/repo.go:512-525 | the loop yields the specified concatenation; an empty leaf adds no line |
| `PemConcat.ConcatenatedReads` | tools/tuf/pkg/repo/repo.go:512-525 | reading a concatenation gives the leaf file's certificates, each intermediate file's in order, then the root file's, for any number of blocks in each, trimmed or not |
| `PemConcat.EncodeThenRead` | tools/tuf/pkg/certs/certs.go:47-66 | an encoded certificate reads back as itself |
| `PemConcat.EncodedIsPiece` | tools/tuf/cmd/tuf/server/main.go:122-123 | an encoded certificate is well-formed text both as written and trimmed |
| `PemConcat.EncodedFrame` | tools/tuf/pkg/certs/certs.go:47-66 | an encoded certificate is the BEGIN line, the armoured bytes and the END line |
| `TrustedRoots.Classify` | tools/tuf/pkg/repo/repo.go:221-258 | the loop fills each slot with the filter of the sorted targets for its role, or fails with the first unreadable log key |
| `TrustedRoots.RoleByWords` | tools/tuf/pkg/repo/repo.go:224-241 | the role of every name by the words in it: their precedence, in any case for the use and as written for "leaf" and "intermediate" |
| `TrustedRoots.DefaultRoles` | tools/tuf/pkg/repo/repo.go:141-147 | the default targets for Fulcio, Rekor and the CT log have those roles |
| `Strings.LowerLetters` | tools/tuf/pkg/repo/repo.go:529 | names are compared in lower case: each of the 26 letters has its lower case and no other character changes |
| `TrustedRoots.SlotIsGreatest` | tools/tuf/pkg/repo/repo.go:225-241 | each single-valued slot holds the bytes of the matching target with the greatest name, and is empty if and only if none matches |
| `TrustedRoots.LogKeysExact` | tools/tuf/pkg/repo/repo.go:242-256 | in the trusted root an id is a Rekor log if and only if a target that mentions "rekor" and not "fulcio" has it, and a CT log if and only if one that mentions "ctfe" and neither of the others has it; the entry has the log's address and the key of the matching target with the greatest name |
| `TrustedRoots.LastLogKept` | tools/tuf/pkg/repo/repo.go:244-256 | for a repeated log id the last target's key is kept |
| `TrustedRoots.NoFailureIff` | tools/tuf/pkg/repo/repo.go:244-255 | classification fails if and only if some key in a target for Rekor or the CT log cannot be read for that log |
| `TrustedRoots.FailureExact` | tools/tuf/pkg/repo/repo.go:244-255 | it fails with the error of the first unreadable key: a nil dereference without a PEM block, and else that of its log |
| `TrustedRoots.SortTargets` | tools/tuf/pkg/repo/repo.go:217-219 | sorting in place permutes the targets and orders them by name |
| `TrustedRoots.ConstructTrustedRoot` | tools/tuf/pkg/repo/repo.go:208-299 | sorts in place and returns the trusted root of the sorted targets, errors included |
| `TrustedRoots.OrderIndependent` | tools/tuf/pkg/repo/repo.go:215-258 | the result, errors included, is the same for any two listings of the same targets with distinct names |
| `TrustedRoots.CertChainToTimestampingAuthority` | tools/tuf/pkg/repo/repo.go:430-470 | the partition loop computes the specified authority; empty chains are refused |
| `TrustedRoots.CertChainToCertificateAuthority` | tools/tuf/pkg/repo/repo.go:472-510 | the same for Fulcio |
| `TrustedRoots.TsaConserves` | tools/tuf/pkg/repo/repo.go:453-469 | leaf, intermediates and root are the chain in order; the root is missing if and only if the chain is one certificate that is not a CA; validity is the first's |
| `TrustedRoots.TsaChainConserved` | tools/tuf/pkg/repo/repo.go:270-278 | from files of any number of certificates each, any of which may be empty or missing as long as there is one certificate in all, the TSA authority has exactly those certificates in order |
| `TrustedRoots.FulcioChainConserved` | tools/tuf/pkg/repo/repo.go:260-268 | the same for the Fulcio authority |
| `TrustedRoots.FulcioTrusted` | tools/tuf/pkg/repo/repo.go:221-268 | the trusted root's Fulcio authority has exactly the certificates of the targets for it, in name order, and is never the cause of an error |
| `TrustedRoots.TsaTrusted` | tools/tuf/pkg/repo/repo.go:221-278 | the same for the TSA authority, for any split into files |
| `TrustedRoots.NoAuthority` | tools/tuf/pkg/repo/repo.go:260-278 | without targets for an authority there is none |
| `TrustedRoots.BlankRefused` | tools/tuf/pkg/repo/repo.go:449-451 | a file for an authority without a certificate in it is an error |
| `TrustedRoots.ErrorOrder` | tools/tuf/pkg/repo/repo.go:221-278 | which error there is: an unreadable log key before the Fulcio chain before the TSA chain, and none otherwise |
| `Paths.PrefixCheckExact` | tools/tuf/pkg/repo/repo.go:598-638 | for every destination and valid name: from the root and from a relative path ending in ".." everything passes; from the current directory exactly what resolves to nothing or to a first component with a leading dot; from any other destination all but the names that have no ordinary component and end in ".."; and exactly when what passes is component-wise at or below the destination |
| `Paths.DotsInside` | tools/tuf/pkg/repo/repo.go:600 | the substring test on "../" fires if and only if a component before the last ends in ".." |
| `Paths.ValidExact` | tools/tuf/pkg/repo/repo.go:598-604 | a name is accepted if and only if it is not empty, has no backslash, is not absolute, and no component but the last ends in ".." |
| `Archive.CompressFS` | tools/tuf/pkg/repo/repo.go:553-583 | the walk appends a directory's entry before its children's and nothing for a skipped directory |
| `Archive.CopyContent` | tools/tuf/pkg/repo/repo.go:655-663 | the 1024-byte loop terminates and writes exactly the content, for every length |
| `Archive.Machine.Uncompress` | tools/tuf/pkg/repo/repo.go:608-670 | the loop leaves the specified file system and error, partial extractions included, for absolute and relative destinations |
| `ArchiveRoundTrip.RoundTrip` | tools/tuf/cmd/tuf/server/main.go:153-193 | extracting an archive into an empty directory, absolute or relative, succeeds if and only if the remaining tree is safe and the destination admits its name, and then the directory holds exactly that tree and nothing else changes |
| `ArchiveRoundTrip.PrunedLookup` | tools/tuf/pkg/repo/repo.go:555-557 | the remaining tree has exactly what is not at or below a directory with a skipped name; a file with such a name stays |
| `ArchiveRoundTrip.ExtractOver` | tools/tuf/pkg/repo/repo.go:608-670 | over a directory that holds something, as long as no file meets a directory: same condition for success, files get exactly the new content, and what the tree does not have stays |
| `ArchiveRoundTrip.ExtractAgain` | tools/tuf/pkg/repo/repo.go:608-670 | extracting the same archive again changes nothing |
| `ArchiveRoundTrip.KindsClash` | tools/tuf/pkg/repo/repo.go:642-653 | a file where a directory is ends the extraction; a directory where a file is does not |
| `ArchiveRoundTrip.OtherIgnored` | tools/tuf/pkg/repo/repo.go:640-664 | entries of other kinds are passed over |
| `ArchiveSafety.ExtractContained` | tools/tuf/pkg/repo/repo.go:608-670 | for every list of entries whatever, and also when extraction ends early, nothing outside the destination changes and every file is still in a directory |
| `ArchiveSafety.LocateExact` | tools/tuf/pkg/repo/repo.go:631-636 | cleaning a path does not change where it leads |
| `ArchiveSafety.MkdirExact` | tools/tuf/pkg/repo/repo.go:642-647 | creating a directory fails if and only if a file is in the way, and otherwise makes it and all those above it |
| `ArchiveRoundTrip.CurrentDirectoryRefused` | tools/tuf/pkg/repo/repo.go:634-638 | a repository extracted into "." is refused at its first entry |
| `ArchiveRoundTrip.ValidIffSafe` | tools/tuf/pkg/repo/repo.go:599-604 | all entries of a tree have accepted names if and only if no name has a backslash and no directory with children ends in ".." |
| `ArchiveRoundTrip.FileNeedsParent` | tools/tuf/pkg/repo/repo.go:649-653 | a file entry before its directory's entry ends the extraction with the open error, or with the prefix check's when the destination does not admit its name |
| `CtlogConfig.Config.AddFulcioRoot` | tools/ctlog/pkg/ctlog/config.go:96-110 | appends the last certificate of the chain unless it is there; reports parse errors and the panic on an empty chain |
| `CtlogConfig.Config.RemoveFulcioRoot` | tools/ctlog/pkg/ctlog/config.go:114-130 | keeps the other roots in order |
| `CtlogConfig.RootListIsASet` | tools/ctlog/pkg/ctlog/config.go:92-130 | under any sequence of calls the list has no duplicates and lists exactly the finite set the calls describe |
| `CtlogConfig.AddThenRemove` | tools/ctlog/pkg/ctlog/config.go:96-130 | adding an absent root and removing it restores the list, order included |
| `CtlogConfig.ExtractIdempotent` | tools/ctlog/pkg/ctlog/config.go:83-90 | a stored root is its own extraction and is not empty |
| `CtlogConfig.ExtractsLast` | tools/ctlog/pkg/ctlog/config.go:83-90 | the root taken from a chain is its last certificate |
| `CtlogConfig.ExtractsLastBlock` | tools/ctlog/pkg/ctlog/config.go:83-90 | on the text: the certificate of the last block; text without blocks is the panic |
| `CtlogConfig.Unmarshal` | tools/ctlog/pkg/ctlog/config.go:162-244 | each error condition in order; otherwise the decoded settings with every root once, in any order |
| `CtlogConfig.DecodesIff` | tools/ctlog/pkg/ctlog/config.go:165-220 | decoding yields exactly the settings that the three entries hold |
| `CtlogConfig.DecodeErrors` | tools/ctlog/pkg/ctlog/config.go:165-206 | which error a secret is refused with, in the order of the checks |
| `CtlogConfig.RootEntries` | tools/ctlog/pkg/ctlog/config.go:223-237 | the roots are exactly the legacy entry, unless it is empty, and the values of the "fulcio-" entries |
| `CtlogConfig.Dedupe` | tools/ctlog/pkg/ctlog/config.go:223-237 | the map's keys are exactly the legacy entry, unless it is empty, and the values of the "fulcio-" keys |
| `CtlogConfig.MarshalConfig` | tools/ctlog/pkg/ctlog/config.go:254-310 | the loops yield the specified map |
| `CtlogConfig.MarshalledEntries` | tools/ctlog/pkg/ctlog/config.go:308-367 | which keys a marshalled configuration has and what is under each |
| `CtlogConfig.FirstRootNames` | tools/ctlog/pkg/ctlog/config.go:255-263 | the keys and paths of the first roots, written out |
| `CtlogConfig.MarshalThenUnmarshal` | tools/ctlog/pkg/ctlog/config.go:162-368 | marshalling and unmarshalling gives the settings back and exactly the same set of roots |
| `CtlogConfig.RoundTripPermutes` | tools/ctlog/pkg/ctlog/config.go:239-242 | the roots read back are a permutation of those marshalled |
| `CtlogRuns.CreateCtConfig` | tools/ctlog/cmd/ctlog/createctconfig/main.go:134-224 | a run is a step of the state machine wherever it is interrupted; it reaches its first write whenever neither its input nor an interruption prevents it, and succeeds if it is not interrupted |
| `CtlogRuns.Plan` | tools/ctlog/cmd/ctlog/createctconfig/main.go:148-222 | what a run sends to the two secrets is one the state machine allows, and there is something to send if and only if nothing in the input prevents it |
| `CtlogEntries.SendsIff` | tools/ctlog/cmd/ctlog/createctconfig/main.go:148-217 | a run has something to send if and only if its chain is not free of certificates and the complete secret decodes, or there is a key for the incomplete one; an unreadable chain does not stop it |
| `CtlogEntries.CompleteIsUpdated` | tools/ctlog/cmd/ctlog/createctconfig/main.go:148-217 | a secret with both keys, and a configuration in it or in the ConfigMap, keeps its keys and ends up with that configuration, which decodes as before |
| `CtlogEntries.IncompleteIsCreated` | tools/ctlog/cmd/ctlog/createctconfig/main.go:150-180 | any other secret gets the run's key, encrypted, its public key, and a configuration that decodes to the command line |
| `CtlogEntries.KeyFound` | tools/ctlog/cmd/ctlog/createctconfig/main.go:155-166 | the key is the generated one, or the one the password decrypts from the named secret; an absent secret or an empty entry gives none |
| `CtlogEntries.ImportKeepsKey` | tools/ctlog/cmd/ctlog/createctconfig/main.go:256-274 | importing the secret of another log with its password gives that log's key |
| `CtlogEntries.LastCertificateTrusted` | tools/ctlog/cmd/ctlog/createctconfig/main.go:171-207 | every run that writes stores the last certificate of its chain and has the configuration name it |
| `CtlogEntries.LegacyTrusted` | tools/ctlog/cmd/ctlog/createctconfig/main.go:199-219 | a run on a complete secret gives a legacy root that is not empty a "fulcio-" entry and has the configuration name it |
| `CtlogEntries.RunWires` | tools/ctlog/pkg/ctlog/config.go:275-299 | after every run that writes, the one log runs on the one backend by name, and its key file and root files are entries of the secret |
| `CtlogEntries.AlwaysWired` | tools/ctlog/cmd/ctlog/createctconfig/main.go:148-219 | the same over every sequence of runs, unless the secret is untouched |
| `CtlogInvariants.KeysAlwaysBelong` | tools/ctlog/cmd/ctlog/createctconfig/main.go:148-217 | over every sequence of runs from a secret that needs its configuration: the secret is untouched, or the password decrypts the private key and its public half is both the public entry and the configured key |
| `CtlogInvariants.KeysNeverChange` | tools/ctlog/cmd/ctlog/createctconfig/main.go:212-217 | from then on private and public key never change |
| `CtlogInvariants.CreatedSettings` | tools/ctlog/cmd/ctlog/createctconfig/main.go:153-180 | a created configuration decodes to the key, password, log id, prefix and server it was made from |
| `CtlogInvariants.SettingsNeverChange` | tools/ctlog/cmd/ctlog/createctconfig/main.go:199-219 | over every sequence of runs, what an initialised secret decodes to, apart from its roots, never changes |
| `CtlogInvariants.FinishedPublishes` | tools/ctlog/cmd/ctlog/createctconfig/main.go:178-224 | a finished run leaves the same public key in both secrets, whatever crashed before |
| `CtlogInvariants.NoRootLost` | tools/ctlog/cmd/ctlog/createctconfig/main.go:193-219 | after a run on an initialised secret the stored roots are exactly the old ones, the legacy root and the new root; only an empty value can disappear |
| `CtlogInvariants.RootsExactly` | tools/ctlog/cmd/ctlog/createctconfig/main.go:193-219 | over any sequence of runs, at every moment: the initial roots, those of the runs that reached their first write, and the legacy root once there was such a run |
| `CtlogInvariants.RootsAccumulate` | tools/ctlog/cmd/ctlog/createctconfig/main.go:193-219 | over any sequence of runs, crashed and failed ones included, a stored root stays stored |
| `CtlogInvariants.TrustedRootsCovered` | tools/ctlog/pkg/ctlog/config.go:255-263 | the configuration names fulcio-0 to fulcio-(n-1), with distinct values that cover every "fulcio-" value, stale keys included; all are present unless an empty value was stored |
| `CtlogOverlap.OverlapLosesRoot` | tools/ctlog/cmd/ctlog/createctconfig/main.go:143-217 | when two runs read the secret before either writes, a root of the first is lost if and only if it was not there and the second brings another that was not there, whether or not the chains parse; older roots survive |
| `CtlogOverlap.OverlapTrusts` | tools/ctlog/cmd/ctlog/createctconfig/main.go:143-217 | after such an overlap a root of the first run is named by the stored configuration if and only if it was there or the second run brings it too; it is stored without being named if and only if it was not there and the second run brings nothing new |
| `CtlogOverlap.UpdateTrusts` | tools/ctlog/cmd/ctlog/createctconfig/main.go:199-217 | whatever a run writes over, the configuration then names exactly the roots it read and the one it brought |
| `CtlogOverlap.TrustedIffStored` | tools/ctlog/cmd/ctlog/createctconfig/main.go:193-217 | with nobody else writing, a root is named if and only if it is stored, so a later run trusts again what an overlap left unnamed |
| `CtlogOverlap.TrustedAlways` | tools/ctlog/cmd/ctlog/createctconfig/main.go:193-219 | the same over any sequence of runs, failed ones included, once one has reached its first write |
| `CtlogOverlap.OverlappingCreations` | tools/ctlog/cmd/ctlog/createctconfig/main.go:150-180 | of two overlapping creations both are accepted and the keys still belong together, but they are the second run's; the public key stays if and only if both runs' keys have the same one, the private entry if and only if both encryptions agree |
| `CtlogOverlap.OverlappingPublication` | tools/ctlog/cmd/ctlog/createctconfig/main.go:178-186 | the second secret then holds the main secret's public key if the run that wrote the main secret last publishes last, and otherwise if and only if both public keys are the same |
| `CtlogOverlap.CreateDropsRoot` | tools/ctlog/cmd/ctlog/createctconfig/main.go:150-180 | creating over a secret that lacks a key drops a stored root if and only if fulcio-0 is its only entry and the run brings another |
| `CtlogOverlap.CreateTrusts` | tools/ctlog/cmd/ctlog/createctconfig/main.go:150-180 | after a creation the configuration names the new root and nothing else, so a root that was there and is not dropped is not trusted |
| `Witness.OverlapHappens` | tools/ctlog/cmd/ctlog/createctconfig/main.go:143-217 | a concrete pair of runs that both succeed and lose a root |
| `Witness.OverlapStrands` | tools/ctlog/cmd/ctlog/createctconfig/main.go:143-217 | a concrete pair of runs after which a root that was trusted is stored and no longer trusted |
| `Witness.CreateDropHappens` | tools/ctlog/cmd/ctlog/createctconfig/main.go:150-180 | a concrete secret with a root and no keys, and a run that creates the configuration, succeeds and loses the root |
| `Witness.KeyOverlapHappens` | tools/ctlog/cmd/ctlog/createctconfig/main.go:150-186 | two concrete creations that both succeed and leave different public keys in the two secrets |
| `Secrets.ReconcileSecret` | tools/secret/pkg/secret/secret.go:35-73 | run alone, whatever the key order: the new secret, the outcome, and no other secret changed |
| `Secrets.OverlayCharacterised` | tools/secret/pkg/secret/secret.go:43-50 | an update is the only map that reads as wanted, leaves other keys alone and adds no key with an empty value |
| `Secrets.ReconcileIdempotent` | tools/secret/pkg/secret/secret.go:41-57 | a success establishes the wanted entries and a second call writes nothing |
| `Secrets.ReconcileOutcome` | tools/secret/pkg/secret/secret.go:35-73 | the exact condition of each outcome; a failure changes nothing, a success only the wanted entries |
| `SecretProtocol.Linearizable` | tools/secret/pkg/secret/secret.go:35-73 | in every interleaving the secret is the fold of the accepted writes in commit order, each client writes at most once, and only the first write can be a create |
| `SecretProtocol.AloneIsReconcile` | tools/secret/pkg/secret/secret.go:35-73 | from any state, a call without interruption has the outcome and the effect of the sequential ReconcileSecret, and no other client notices |
| `SecretProtocol.CallExact` | tools/secret/pkg/secret/secret.go:35-73 | every finished call in every interleaving did what ReconcileSecret does to the secret as it was at its fetch; it was rejected instead, without effect, if and only if that is a write and another was accepted in between |
| `SecretProtocol.PanicsIff` | tools/secret/pkg/secret/secret.go:43-52 | a call panics if and only if the secret it fetched has no entries and something else than an empty value is wanted; one that differs from a secret with entries updates it unless another write came in between |
| `SecretProtocol.LastWriterWins` | tools/secret/pkg/secret/secret.go:44-52 | a key reads as the last accepted writer that wants it asked |
| `SecretProtocol.UnwantedKeyKept` | tools/secret/pkg/secret/secret.go:32-33 | a key outside all writers' data never changes |
| `SecretProtocol.UnchangedWasTrue` | tools/secret/pkg/secret/secret.go:42-57 | a call that succeeds without writing had a moment, during the call, when the secret already read as wanted |
| `SecretProtocol.RejectedHasRival` | tools/secret/pkg/secret/secret.go:52-69 | a call is rejected only if another client's write was accepted during it |

## Left out

- Key generation, encryption, ASN.1, base64 and X.509 parsing: functions with inverse laws.
- Prototext, JSON, gzip and tar formats: the data they carry arrives unchanged.
- pem.Decode recovers from malformed blocks in ways that differ between Go releases; the model takes the first complete block at a line start, and has no RFC 1421 header lines.
- The certificate library's UnmarshalCertificatesFromPEM is taken to read chains as the program's own loops do.
- strings.ToLower outside ASCII and Unicode white space in TrimSpace.
- go-tuf repository creation, the signing config, JSON metadata and the choice between metadata and trusted-root targets.
- getKeyWithDetails and key hashes: one function from origin and bytes to a log id and key.
- File modes, symlinks, special files, disk and network errors; a fetch of a secret either finds it or does not.
- Deletion of secrets or keys by other tools while clients run.
- `TrustedRoots.SortTargets`: an insertion sort stands for sort.Slice; with distinct names every correct sort gives the same result.
- `CtlogInvariants.NoRootLost`: an empty value under a "fulcio-" key may or may not be kept, because an empty value under a missing key is never written.
- `CtlogConfig.MarshalConfig`: does not model failing encryption or marshalling; in a run they are interruptions before the first write.
- `TufServer.ListTargets`: does not attach the usage metadata, which constructing the trusted root does not read.
- `TufServer.InitTrustedRoot`: does not model the repository options, errors of root.NewTrustedRoot, or JSON.
- `TrustedRoots.ConstructTrustedRoot`: does not model errors of root.NewTrustedRoot or of JSON marshalling.
- `Archive.CompressFS`: does not model errors of stat, open, read or write.
- `Archive.Machine.Uncompress`: does not model gzip, tar or disk errors other than a missing parent directory or a file in the way.
- Trillian, Fulcio, Rekor and TSA set-up tools, fakeoidc, scripts and YAML: glue around ReconcileSecret or other services.
- Flag parsing, logging, HTTP serving and exit codes.
