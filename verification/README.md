# Verified model of ImagePhysicalSizeShell

ImagePhysicalSizeShell is a Windows shell extension that shows the physical size of images in Explorer. It works as a proxy: its
installer puts it in front of the property handlers of PNG, JPEG and TIFF files, it computes the size from the resolution stored in
a file, and it passes everything else on to the handler that was there before.

This Dafny project models the parts on which users depend without seeing them, and proves what they promise:

- **Installation and rollback** (`Registry`, `InstallPlan`, `Rollback`, `Install`, `Installer`, `InstallSafety`, `OrderSafety`,
  `InstallOutcomes`, `Installed`, `KeyPaths`, `PropertyList`, `PowerShell`). A machine is a registry value map, a file map, the backups and the schema registration.
  `Installer.Machine` is the imperative installer over it. Each method is tied to a function of the old state, and the theorems are
  about these functions: a run may fail before, in or after any operation.
- **Delegation** (`OriginalHandler`, `AliasCorrectness`). From the plan to the handler the proxy opens.
- **Metadata scanners** (`Bytes`, `Tiff`, `PngScan`, `JpegScan`, `PngFinality`,
  `JpegFinality`, `TiffFinality`, `MetadataParser`, `LiteralFiles`). The loops in `size_t` arithmetic (the `Size` type
  cannot wrap: each sum is shown to fit), declarative readings of the three formats, printers, and round trips.
- **Sizes and their text** (`PhysicalSize`, `EmbeddedDpi`, `ImageSize`, `NumberFormat`, `Decimal`), over the reals.
- **The property handler** (`PropertyHandler`) as a refinement of the original store, and **object lifetime** (`ComLifetime`) under
  thread interleavings.
- **Printers and validators** (`JsonText`, `JsonWriter`, `RegistryAudit`, `MultiSz`, `Schema`).

`dafny verify dfyconfig.toml` verifies the project.

## What the proofs brought to light

- A failed installation restores the registry, whatever the point of failure, if and only if it held nothing under the project's own
  keys and no extension was mapped to a handler by a value of kind REG_NONE or of an unknown kind (or a file to copy was missing, so
  that nothing was written). The project keys are removed recursively; despite the name `Remove-ProjectRegistryKeysIfEmpty`, nothing
  tests whether they are empty. Kinds outside the six known ones come back as strings.
- Rollback unregisters the schema when this run registered it, even if it was registered before. So the registration survives every
  failure if and only if unregistering works and it was not registered, or fails and it was (or a file to copy was missing).
- Rollback recognises its own values by their text only, without case. A third party's value with another kind or case but the same
  text is taken for the project's, and overwritten.
- A handler mapping that is a multi-string passes all checks, but its saved form is the name of a .NET type: the proxy then finds no
  original.
- `docs/architecture.md:65` promises that duplicate keys are removed from the listing. The code does not remove them; the model
  follows the code and states exactly when duplicates occur. The sum in GetCount wraps at 2^32.
- The answer for the first 16 MiB of a file is the answer for the file if and only if the scan has decided there: a PNG scan when it has
  reached a complete pHYs or IDAT chunk; a JPEG scan at a point where it stops whatever follows, which is a start-of-scan or
  end-of-image marker or a segment length below two; a TIFF scan with its directory there and nothing behind the
  end that could still complete or spoil it. A found answer is final for PNG and TIFF, but not for JPEG. A TIFF file whose directory
  stands behind the cap is never decided; one whose directory is cut within its last three entries is not covered.
- The object count is incremented by constructors and decremented at the start of destructors, so the DLL can be reported as unloadable
  while a thread is inside it: with a factory it has not counted yet, with an object whose members it is still destroying, or on its
  way out.

For each of these there is a lemma at a concrete machine, store, file or run, or one that builds the file.

## Model

Method rows state what the method does to its object or result; the lemmas beside them say what that means. Source paths are those of the
repository.

| member | source | states |
|---|---|---|
| Installer.Machine.GetFullAudit | installer/ImagePhysicalSizeShell.Installation.psm1:118-122 | for each supported extension in order, the part of the audit that the plan reads: the handler mapping, the saved original and the six property lists, as they stand on the machine |
| Installer.Machine.NewInstallPlan | installer/ImagePhysicalSizeShell.Installation.psm1:290-370 | the plan built by the loops is the sequence the specification `Plan` gives: copies, class registration, then for each extension save, map, append; the rows on Installed say what it leaves on the machine |
| InstallPlan.PlanTargetsAreDistinct | installer/ImagePhysicalSizeShell.Installation.psm1:290-370 | for every audit with distinct extensions and distinct list names, no two operations of the plan write the same place |
| KeyPaths.NoTwoOperationsCollide | installer/ImagePhysicalSizeShell.Installation.psm1:305-358 | the same on the text of hives, key paths, value names and file names, compared without case as Windows does |
| Install.PlanIsPlanned | installer/ImagePhysicalSizeShell.Installation.psm1:231-266 | every operation of a plan carries what stands in its place now; outside the project keys it writes text with a string kind |
| Installer.Machine.TestInstallPreconditions | installer/ImagePhysicalSizeShell.Installation.psm1:514-550 | installation is allowed exactly when the machine is 64-bit and elevated, the artifacts are built, both alias groups agree and every saved original is usable |
| Installer.Machine.InvokeInstallOperation | installer/ImagePhysicalSizeShell.Installation.psm1:731-765 | one operation with its early return for an equal file, its backup, and its failures, as a step of machine and manifest; a failed operation says so |
| Install.RunInPlace | installer/ImagePhysicalSizeShell.Installation.psm1:862-866 | after any number of operations of a run that may fail at any of them: what took effect holds the planned value, everything else its old one, and a replaced file has its backup |
| Install.SourcesStay | installer/ImagePhysicalSizeShell.Installation.psm1:737-756 | no run changes a source file |
| Installer.Machine.InvokeRollbackOperation | installer/ImagePhysicalSizeShell.Installation.psm1:767-793 | one rollback operation; when it throws nothing has changed |
| Installer.Machine.NewRollbackPlanFromManifest | installer/ImagePhysicalSizeShell.Installation.psm1:448-473 | all places are read before any is written, last operation first |
| Installer.Machine.ClassifyOne | installer/ImagePhysicalSizeShell.Installation.psm1:372-446 | restore, delete or skip; nothing is deleted that was there before; Rollback.ConflictsExactly says on the registry and the files which places are conflicts |
| Rollback.ConflictsExactly | installer/ImagePhysicalSizeShell.Installation.psm1:372-446 | a conflict is exactly a value that is gone or has another text, without case, or a file that is there with another content |
| Installer.Machine.RemoveProjectRegistryKeys | installer/ImagePhysicalSizeShell.Installation.psm1:652-667 | the eight removals take away exactly the values under the project keys, empty or not |
| Installer.Machine.InvokeRollbackFromManifest | installer/ImagePhysicalSizeShell.Installation.psm1:795-830 | the whole rollback: schema first, conflicts skipped, failing writes survived, project keys last |
| Rollback.ExecuteAt | installer/ImagePhysicalSizeShell.Installation.psm1:811-823 | after j steps exactly the last j operations are rolled back, each from what was read at the start, whichever writes fail |
| Rollback.RollBackAtPlanned | installer/ImagePhysicalSizeShell.Installation.psm1:795-830 | what a whole rollback leaves at each place of the plan, under any set of failing writes |
| Rollback.RollBackElsewhere | installer/ImagePhysicalSizeShell.Installation.psm1:795-830 | what it leaves anywhere else: nothing under the project keys, everything else as found |
| Rollback.RollBackIsIdempotent | installer/ImagePhysicalSizeShell.Installation.psm1:795-830 | running the rollback of one manifest twice gives the state that running it once gives |
| Rollback.NoFileAppears | installer/ImagePhysicalSizeShell.Installation.psm1:417-446 | rollback never creates a file that was not there |
| Rollback.SchemaAfterRollback | installer/ImagePhysicalSizeShell.Installation.psm1:795-808 | rollback takes the schema registration away if and only if this run registered it, the helper program and the schema file are there and it does its work; it never registers it |
| Registry.WriteBackRestores | installer/ImagePhysicalSizeShell.Installation.psm1:594-628 | writing a value back with the kind it was read with restores it exactly for the six known kinds and never for another |
| Installer.Machine.ApplyPlan | installer/ImagePhysicalSizeShell.Installation.psm1:862-866 | the loop over the plan stops at the first failure and keeps the manifest up to date |
| Installer.Machine.InvokeRealInstall | installer/ImagePhysicalSizeShell.Installation.psm1:832-894 | the whole installation with its catch block, for every point of failure |
| InstallSafety.RolledBackIsBefore | installer/ImagePhysicalSizeShell.Installation.psm1:372-446 | wherever a run stopped, rolling an operation back gives what stood in its place before the run, applied or not, backed up or not; except an overwritten value of no known kind |
| InstallSafety.UnknownKindIsLost | installer/ImagePhysicalSizeShell.Installation.psm1:594-604 | that exception is real: such a value does not come back |
| InstallSafety.UndoneIsNoop | installer/ImagePhysicalSizeShell.Installation.psm1:795-830 | after any run and its rollback files are as before; the registry is as before if and only if it held nothing under the project keys and no value of no known kind was overwritten; outside the project keys only the latter matters |
| InstallSafety.FailedInstallIsNoop | installer/ImagePhysicalSizeShell.Installation.psm1:857-893 | a failed installation is a no-op, for every machine, environment and point of failure, under exactly those conditions; the schema flag unless this run registered it and then unregistered one that was there before, or could not unregister its own |
| OrderSafety.PlanOrder | installer/ImagePhysicalSizeShell.Installation.psm1:305-358 | in every plan the DLL is copied first, its path is registered before any extension, and each mapping comes after the save for its canonical extension |
| OrderSafety.EveryInstallStateIsSafe | installer/ImagePhysicalSizeShell.Installation.psm1:857-885 | in every state of every run on a fresh machine, an extension mapped to the proxy has a saved original that is text, not empty and not the proxy, and a registered server whose DLL is there |
| OrderSafety.EveryRollbackStateIsSafe | installer/ImagePhysicalSizeShell.Installation.psm1:811-824 | the same after every rollback step and every removal of a project key, wherever the run stopped |
| OrderSafety.AfterRollbackNothingIsMapped | installer/ImagePhysicalSizeShell.Installation.psm1:795-830 | after the rollback no extension is mapped to the proxy |
| OrderSafety.RollbackUnderInterference | installer/ImagePhysicalSizeShell.Installation.psm1:372-446 | whatever third parties rewrote or deleted after all operations took effect, rollback brings back each place of the plan, outside the project keys, that still looks installed and can be written, and leaves every other place as found; what it brings back is what stood there before if and only if that was of a known kind |
| OrderSafety.ForeignSurvivesExactly | installer/ImagePhysicalSizeShell.Installation.psm1:380-397 | what a third party left at such a place survives if and only if it does not look installed, or is what rollback writes there anyway |
| OrderSafety.ForeignPlacesAreLeft | installer/ImagePhysicalSizeShell.Installation.psm1:372-446 | a place of the plan, outside the project keys, that holds nothing or a value with another text, or a file with another content than its source, is left as found, wherever the installation stopped and whichever writes fail |
| OrderSafety.OwnPlacesComeBack | installer/ImagePhysicalSizeShell.Installation.psm1:372-446 | and every other one that can be written is brought back to what stood there before the installation, unless that was of no known kind |
| OrderSafety.LookalikeMappingIsLost | installer/ImagePhysicalSizeShell.Installation.psm1:380-397 | any mapping with the text of the project CLSID, whatever its kind and case, is replaced |
| InstallOutcomes.AllowedExactly | installer/ImagePhysicalSizeShell.Installation.psm1:514-550 | an installation is allowed if and only if the environment fits, the artifacts are there, both alias pairs agree, and every extension has a usable original: read off the machine, not the plan |
| InstallOutcomes.BlockedExactly | installer/ImagePhysicalSizeShell.Installation.psm1:844-849 | an installation is blocked if and only if that fails, and then nothing has happened |
| InstallOutcomes.OriginalByCase | installer/ImagePhysicalSizeShell.Installation.psm1:333-348 | which original is saved, case by case: the mapped handler; for the project's own the one saved before, then the one of the earlier manifest |
| InstallOutcomes.GoesThrough | installer/ImagePhysicalSizeShell.Installation.psm1:857-868 | an allowed installation with all its files carries out every operation and can register the schema |
| InstallOutcomes.OutcomeExactly | installer/ImagePhysicalSizeShell.Installation.psm1:857-893 | what becomes of such an installation at every point of failure: it completes if and only if the failure lies outside the run, and is otherwise undone after exactly the operations in front of it |
| InstallOutcomes.RegistryComesBackExactly | installer/ImagePhysicalSizeShell.Installation.psm1:857-893 | an allowed installation leaves the registry as it was at every point at which it can fail, if and only if the machine has no project keys and its mapped handlers can be written back, or a file is missing, so that it never writes to the registry |
| InstallOutcomes.SchemaComesBackExactly | installer/ImagePhysicalSizeShell.Installation.psm1:795-808 | an allowed installation leaves the schema registration as it was at every point at which it can fail, if and only if unregistering works and it was not registered, or fails and it was, or a file is missing |
| InstallOutcomes.ProjectValueIsLost | installer/ImagePhysicalSizeShell.Installation.psm1:652-667 | a machine on which an installation that changed nothing removes a value under the project keys |
| InstallOutcomes.NoneMappingIsLost | installer/ImagePhysicalSizeShell.Installation.psm1:594-604 | a machine whose REG_NONE mapping passes the preconditions and does not come back |
| InstallOutcomes.SchemaRegistrationIsLost | installer/ImagePhysicalSizeShell.Installation.psm1:795-808 | machines whose schema registration does not come back: it was there before and is unregistered, or it was not and unregistering fails |
| InstallOutcomes.ListedMappingIsLost | installer/ImagePhysicalSizeShell.Installation.psm1:347-348 | a machine whose multi-string mapping is installed over, after which the proxy finds no original |
| InstallOutcomes.LookalikeIsOverwritten | installer/ImagePhysicalSizeShell.Installation.psm1:380-397 | a machine on which rollback overwrites the mapping of a third party: the project CLSID as an expandable string, or in lower case |
| InstallOutcomes.OtherMappingSurvives | installer/ImagePhysicalSizeShell.Installation.psm1:380-388 | a machine on which rollback leaves a mapping of a third party with another text as it is |
| Installed.MappingsAfterInstall | installer/ImagePhysicalSizeShell.Installation.psm1:348 | after a completed installation every extension is mapped to the project |
| Installed.OriginalsAfterInstall | installer/ImagePhysicalSizeShell.Installation.psm1:333-347 | and has a saved original: the mapped handler, unless that was the project's own; then the one saved before, else the one of the earlier manifest |
| Installed.ListsAfterInstall | installer/ImagePhysicalSizeShell.Installation.psm1:350-358 | a property list that was text is the merged text, of the same kind; any other one, or none, is as before |
| Installed.ListsAreCompleted | installer/ImagePhysicalSizeShell.Installation.psm1:350-358 | so every list that was text starts with its earlier non-empty parts and lists every project property |
| Installed.ListsAreTouchedExactly | installer/ImagePhysicalSizeShell.Installation.psm1:350-357 | a plan has an operation for a property list if and only if it is text that merging changes |
| Installed.ClassAfterInstall | installer/ImagePhysicalSizeShell.Installation.psm1:327-331 | the class has its name, the path of the DLL with the digits of its hash, and its threading model |
| Installed.DllIsCopied | installer/ImagePhysicalSizeShell.Installation.psm1:298-310 | the first operation copies the DLL, under a name with the digits of its hash if it was built |
| Installed.FilesAfterInstall | installer/ImagePhysicalSizeShell.Installation.psm1:296-325 | every file of the program stands in the installation directory with the content of its source |
| Installed.ElsewhereAfterInstall | installer/ImagePhysicalSizeShell.Installation.psm1:857-885 | nothing else has changed, and the schema is registered |
| Installed.ReinstallKeepsOriginals | installer/ImagePhysicalSizeShell.Installation.psm1:336-346 | a second installation, of the same or another version, keeps the originals that the first one saved |
| Registry.StoredTexts | installer/ImagePhysicalSizeShell.Installation.psm1:594-628 | what a write with a string kind makes of numbers and arrays |
| Registry.TruthOfData | installer/ImagePhysicalSizeShell.Installation.psm1:337-343 | when a number or an array counts as true |
| PropertyList.AddProjectPropertiesToList | installer/ImagePhysicalSizeShell.Installation.psm1:180-202 | the two loops, with their early exit, compute the merge of which the rows below say what it keeps, adds and leaves alone |
| PowerShell.SplitJoin | installer/ImagePhysicalSizeShell.Installation.psm1:186-201 | `-split` inverts `-join` for parts without the separator |
| PowerShell.JoinSplit | installer/ImagePhysicalSizeShell.Installation.psm1:186-201 | and `-join` inverts `-split` for every text |
| PropertyList.MergeKeepsAndCompletes | installer/ImagePhysicalSizeShell.Installation.psm1:180-202 | the merged list splits into the existing non-empty parts unchanged and in order, then exactly the missing properties; every project property is there |
| PropertyList.MergeIsIdempotent | installer/ImagePhysicalSizeShell.Installation.psm1:180-202 | merging again returns the identical text |
| PropertyList.MergeInPlainWords | installer/ImagePhysicalSizeShell.Installation.psm1:180-202 | the text has the prefix, and its parts are the earlier non-empty parts, in order, and then project properties that were not listed yet, up to leading stars and case; every one is listed |
| PropertyList.MergedUpToCaseIsMerged | installer/ImagePhysicalSizeShell.Installation.psm1:352-353 | the comparison without case finds a list complete if and only if merging returns the identical text |
| PropertyList.MergeOfNothing | installer/ImagePhysicalSizeShell.Installation.psm1:180-202 | a list without any part becomes the seven properties in their order |
| AliasCorrectness.SavedAfterInstall | installer/ImagePhysicalSizeShell.Installation.psm1:333-348 | after a completed installation of a fresh machine the saved value of each extension is the text of the handler it was mapped to |
| AliasCorrectness.AliasesAgree | installer/ImagePhysicalSizeShell.Installation.psm1:158-178 | passing the alias checks makes an extension and the one it is looked up under agree up to case |
| AliasCorrectness.DelegatesToOwnHandler | src/handler/OriginalHandler.cpp:14-52 | the proxy opened on bytes of any supported format chooses the handler its extension had before, and never itself; this holds if and only if that mapping was not a multi-string that spells a CLSID |
| AliasCorrectness.OpensOwnHandler | src/handler/PhysicalSizePropertyHandler.cpp:284-300 | the same, seen from the initialisation of the handler object |
| OriginalHandler.OnlyShortTextIsRead | src/handler/OriginalHandler.cpp:14-39 | a saved original is read only from text of the right kind and length |
| OriginalHandler.ClsidsAreHexInBraces | src/handler/OriginalHandler.cpp:33-38 | of texts with braces and dashes in their places, exactly those with hexadecimal digits elsewhere are read as a CLSID |
| OriginalHandler.RefusesItself | src/handler/PhysicalSizePropertyHandler.cpp:284-300 | a saved CLSID of the project itself is refused, and a file of no supported format is not looked up |
| Bytes.ReadU16 | src/imaging/MetadataParser.cpp:20-34 | a 16-bit field printed anywhere in a buffer is read back, in both byte orders |
| Bytes.ReadU32 | src/imaging/MetadataParser.cpp:24-42 | the same for 32 bits |
| Bytes.PrintU32 | src/imaging/MetadataParser.cpp:24-42 | a field that was read prints as the bytes it was read from |
| Tiff.ParseTiffResolution | src/imaging/MetadataParser.cpp:71-124 | in 64-bit `size_t` arithmetic that is shown not to wrap, with every read in bounds, the scan gives the resolution that the rows below describe |
| Tiff.ScanEntries | src/imaging/MetadataParser.cpp:96-117 | the entry loop keeps the last value of each tag, an unusable one included |
| Tiff.RationalOf | src/imaging/MetadataParser.cpp:44-58 | the guarded rational read, without wrap or read outside the block |
| Tiff.ParsesAsMeant | src/imaging/MetadataParser.cpp:71-124 | round trip: every block that says what a directory says, in either byte order, with its rationals anywhere in the block and any other bytes, parses to what the last matching entries say |
| Tiff.ByteOrderDoesNotMatter | src/imaging/MetadataParser.cpp:76-85 | a II block and an MM block with the same directory parse to the same resolution |
| Tiff.EveryBlockIsAnEncoding | src/imaging/MetadataParser.cpp:72-94 | every block whose directory fits says what decoding finds in it, so the round trip is about every such block; any other block has no resolution |
| Tiff.SameDirectorySameResolution | src/imaging/MetadataParser.cpp:96-123 | two blocks that decode to the same directory, in whatever byte orders, have the same resolution |
| Tiff.PrintedIsEncoding | src/imaging/MetadataParser.cpp:96-117 | a printer for such blocks: over any background, with rationals before or behind the directory wherever nothing overlaps |
| Tiff.PrefixIsExact | src/imaging/MetadataParser.cpp:85-123 | a resolution found in a prefix is the resolution of the whole block |
| TiffFinality.ResolutionByOffsets | src/imaging/MetadataParser.cpp:96-123 | the resolution of a block is given by the last entry of each tag and the rationals at two offsets |
| TiffFinality.FinalExactly | src/imaging/MetadataParser.cpp:44-123 | for a prefix with a complete directory: its answer is final if and only if there is no unit, or a last resolution entry is missing or has a zero denominator inside the prefix, or neither refers behind it |
| TiffFinality.CutDirectoryIsOpen | src/imaging/MetadataParser.cpp:85-94 | a prefix behind which the directory begins, or which misses at least three whole entries of it, has no resolution yet and can go on to one |
| PngScan.ParsePng | src/imaging/MetadataParser.cpp:146-191 | the chunk loop gives the answer that the rows below describe; no guard wraps, no read leaves the buffer |
| PngScan.FirstPhysBeforeIdat | src/imaging/MetadataParser.cpp:152-190 | behind any complete chunks that are neither pHYs nor IDAT, the answer depends on the stopping point alone |
| PngScan.EveryPngDecomposes | src/imaging/MetadataParser.cpp:152-190 | every file with the signature is such chunks and a stopping point, so the previous row decides every file |
| PngScan.PrefixIsExact | src/imaging/MetadataParser.cpp:152-181 | a DPI found in a prefix is the DPI of the whole file |
| PngFinality.FinalExactly | src/imaging/MetadataParser.cpp:146-190 | the answer for a prefix, found or not, is the answer for every file that starts with it, if and only if no such file is a PNG file, or the prefix holds a complete pHYs or IDAT chunk behind complete others; an empty IDAT chunk counts from its name on |
| JpegScan.ParseJpeg | src/imaging/MetadataParser.cpp:217-280 | the marker loop gives the answer that the rows below describe, in bounds and without wrap, the nested TIFF block included |
| JpegScan.PassFill | src/imaging/MetadataParser.cpp:227-229 | the inner loop stops at the first byte that is no fill byte |
| JpegScan.ReadSegment | src/imaging/MetadataParser.cpp:250-261 | what one segment does to the JFIF and EXIF answers; an EXIF block that does not parse leaves the earlier one |
| JpegScan.ScanRecovers | src/imaging/MetadataParser.cpp:226-264 | for any list of markers printed with any 0xFF fill, the scan visits exactly the printed segments, in order, and goes on behind them |
| JpegScan.JpegMeaning | src/imaging/MetadataParser.cpp:266-279 | the answer is told by the last EXIF block that parses and the last JFIF segment, in any order of segments; the rows on BothKindsDecide and OneKindDecides say how |
| JpegScan.TerminatedJpegMeaning | src/imaging/MetadataParser.cpp:226-279 | whole files: nothing behind a start-of-scan or end-of-image marker counts |
| JpegScan.BothKindsDecide | src/imaging/MetadataParser.cpp:266-279 | a printed file with both kinds of segments: a found EXIF answer wins, then a found JFIF answer, and when neither is found the EXIF one stands |
| JpegScan.OneKindDecides | src/imaging/MetadataParser.cpp:266-279 | a printed file with one kind answers as the last segment of that kind; one with none has no density |
| JpegScan.PrefixIsExact | src/imaging/MetadataParser.cpp:226-264 | a prefix in which the scan has come to a terminator or to a segment length below two decides the answer for the file |
| JpegFinality.FinalExactly | src/imaging/MetadataParser.cpp:217-264 | the answer for a prefix is the answer for every file that starts with it, if and only if no such file is a JPEG file, or four bytes are there and the scan is settled in this sense |
| JpegFinality.AnyAnswerIsPossible | src/imaging/MetadataParser.cpp:241-264 | an unsettled prefix, cut off anywhere, can go on to a file with any density of 1 to 255 |
| JpegFinality.FoundIsFinalExactlyWhenSettled | src/imaging/MetadataParser.cpp:217-280 | so a found answer is final if and only if the scan is settled |
| JpegFinality.FoundAndNotFinal | src/imaging/MetadataParser.cpp:226-232 | a concrete file whose found answer is not final |
| JpegFinality.FoundAndFinalWithoutTerminator | src/imaging/MetadataParser.cpp:245-248 | a concrete file whose found answer is final without a terminator: it ends in a segment of length zero |
| JpegScan.ExifAgreesWithTiff | src/imaging/MetadataParser.cpp:256-261 | a TIFF block of up to 65527 bytes as the only resolution segment of a JPEG, among any other segments and before any terminator, gives the found flag and DPI it gives as a file |
| JpegScan.ParseTiff | src/imaging/MetadataParser.cpp:282-288 | a TIFF file without a complete resolution has no DPI, any other has the DPI of its resolution |
| MetadataParser.DetectEmbeddedDpi | src/imaging/MetadataParser.cpp:292-352 | each container goes to its own scanner; others have no resolution |
| MetadataParser.SignaturesDecide | src/imaging/MetadataParser.cpp:292-307 | each container if and only if the file starts with its bytes |
| MetadataParser.SvgExactly | src/imaging/MetadataParser.cpp:308-315 | any other file is an SVG file if and only if an svg tag in any case, with or without a namespace, opens within its first 512 bytes |
| MetadataParser.EveryAnswerIsSound | src/imaging/PhysicalSize.cpp:47-49 | on every input a found answer has both densities in [1, 100000], any other answer has zeros |
| MetadataParser.PrefixIsExact | src/imaging/MetadataParser.cpp:292-352 | scanning a prefix of at least 512 bytes is exact once it has decided, whatever follows |
| MetadataParser.DecidedExactly | src/imaging/MetadataParser.cpp:292-352 | and that is an if and only if, for every container; of a TIFF file the prefix must hold the directory |
| MetadataParser.CutDirectoryDecidesNothing | src/imaging/MetadataParser.cpp:85-94 | a TIFF file whose directory stands behind the prefix has not decided, and can go on to another answer |
| MetadataParser.CapIsExact | src/imaging/StreamImageInspection.cpp:50-70 | reading at most 16 MiB gives the container and the answer of the whole file when the file is shorter or the prefix has decided |
| MetadataParser.ReadPrefix | src/imaging/StreamImageInspection.cpp:50-70 | what is read is a prefix of the file: all of it up to 16 MiB |
| EmbeddedDpi.DpiFromTiffResolution | src/imaging/MetadataParser.cpp:126-144 | a found answer is reasonable and comes from unit 2 or 3 |
| EmbeddedDpi.DpiFromJfif | src/imaging/MetadataParser.cpp:193-215 | a found answer is reasonable and comes from unit 1 or 2 |
| EmbeddedDpi.TiffDensity | src/imaging/MetadataParser.cpp:126-144 | unit conversions cancel: pixels over density for unit 3, times 2.54 for unit 2 |
| EmbeddedDpi.JfifCentimetreDensity | src/imaging/MetadataParser.cpp:201-205 | JFIF dots per centimetre: the size is pixels over the stored density |
| EmbeddedDpi.JfifInchDensity | src/imaging/MetadataParser.cpp:201-214 | JFIF dots per inch: 2.54 times pixels over density |
| EmbeddedDpi.PhysDensity | src/imaging/MetadataParser.cpp:174-180 | PNG pixels per metre: one hundred times pixels over density |
| ImageSize.PngBytesToCentimetres | src/imaging/MetadataParser.cpp:146-191 | from bytes to centimetres: the answer for a file with this pHYs chunk before its image data, for every unit and density; found if and only if the unit is the metre and both densities are reasonable, and then 100 w/x by 100 h/y centimetres |
| ImageSize.PngWithoutDensity | src/imaging/MetadataParser.cpp:165-186 | a file whose image data comes first has no density; one with a pHYs chunk that is too short says so |
| ImageSize.JfifBytesToCentimetres | src/imaging/MetadataParser.cpp:193-280 | the same for a file whose last JFIF segment decides, for every unit and density, with unusable EXIF blocks before it or behind it: w/x or 2.54 w/x centimetres |
| ImageSize.JfifDecides | src/imaging/MetadataParser.cpp:266-279 | a found JFIF density is the answer whenever no EXIF block anywhere in the file is usable |
| ImageSize.TiffBytesToCentimetres | src/imaging/MetadataParser.cpp:71-144 | the same for every TIFF block that says what a directory says, units 2 and 3, both byte orders |
| ImageSize.ExifBytesToCentimetres | src/imaging/MetadataParser.cpp:256-288 | the same block inside a JPEG file gives the same size |
| LiteralFiles.PngFileAnswer | src/imaging/MetadataParser.cpp:146-191 | a file given byte by byte: 11811 pixels per metre across and 5906 down |
| LiteralFiles.JfifFileAnswer | src/imaging/MetadataParser.cpp:193-280 | a file given byte by byte: 300 dots per inch across and 150 down, behind markers without length |
| LiteralFiles.MarkersAre | src/imaging/MetadataParser.cpp:230-240 | the two markers that end a scan and the nine without a length |
| LiteralFiles.TiffFileAnswer | src/imaging/MetadataParser.cpp:71-144 | a file given byte by byte, in both byte orders: 300 dots per inch across and 150 down |
| LiteralFiles.ExifFileAnswer | src/imaging/MetadataParser.cpp:256-280 | the same block in a JPEG file |
| PhysicalSize.CalculatePhysicalSizeCm | src/imaging/PhysicalSize.cpp:51-66 | there is a size exactly for non-zero pixels and reasonable densities; it is positive and satisfies size times DPI = 2.54 times pixels |
| PhysicalSize.SizeIsMonotone | src/imaging/PhysicalSize.cpp:51-66 | more pixels never shrink the picture, and a higher density never enlarges it |
| NumberFormat.RoundingIsIdempotent | src/imaging/PhysicalSize.cpp:68-75 | rounding to places twice is rounding once |
| NumberFormat.RoundingIsClose | src/imaging/PhysicalSize.cpp:68-75 | the rounded value is within half a unit of the last place |
| NumberFormat.RoundingIsMonotone | src/imaging/PhysicalSize.cpp:68-75 | rounding keeps order |
| NumberFormat.HalfUnitsGoAwayFromZero | src/imaging/PhysicalSize.cpp:68-75 | a value half-way between two goes to the larger one |
| NumberFormat.TrimFormattedNumber | src/imaging/PhysicalSize.cpp:26-43 | popping zeros and erasing the separator gives the trimmed text that the rows below describe; empty and absent separators leave the text alone |
| NumberFormat.TrimShape | src/imaging/PhysicalSize.cpp:26-43 | trimming drops only zeros of the fraction, and the separator when the fraction is gone; it never reaches the whole part |
| NumberFormat.TrimmedIsFinal | src/imaging/PhysicalSize.cpp:26-43 | trimmed text ends in a digit that is no zero of a fraction, and trimming it again changes nothing |
| NumberFormat.FormatThenParse | src/imaging/PhysicalSize.cpp:81-129 | an independent reader of decimals reads a formatted length as exactly the rounded value, trimmed or not, for every non-negative length, place count and separator without digits |
| NumberFormat.UntrimmedHasAllPlaces | src/imaging/PhysicalSize.cpp:81-129 | without trimming, the text has exactly the places asked for |
| PropertyHandler.BuildCustomKeys | src/handler/PhysicalSizePropertyHandler.cpp:55-68 | the filter loop gives the enabled project keys in order |
| PropertyHandler.CustomKeysAreExact | src/handler/PhysicalSizePropertyHandler.cpp:30-68 | exactly the enabled project keys, each once |
| PropertyHandler.Inspected | src/imaging/StreamImageInspection.cpp:74-148 | the size is there exactly with a density and pixels, and is the size they give; the pixels are those of the frame, width first, and the density is that of the bytes read |
| PropertyHandler.WithFallback | src/handler/PhysicalSizePropertyHandler.cpp:74-93 | the fallback keeps that; it is applied if and only if it is switched on and reasonable, there are pixels and no density was found |
| PropertyHandler.PhysicalSizePropertyHandler.ApplyFallbackDpiIfConfigured | src/handler/PhysicalSizePropertyHandler.cpp:74-93 | a found density, the format and the pixels never change; a change means that the fallback is switched on, reasonable, and gives the size now stored |
| PropertyHandler.PhysicalSizePropertyHandler.InitializeFromStream | src/handler/PhysicalSizePropertyHandler.cpp:254-282 | result and new object for every stream and surroundings, the error paths included |
| PropertyHandler.PhysicalSizePropertyHandler.GetCount | src/handler/PhysicalSizePropertyHandler.cpp:302-320 | reply and unchanged object, with the 32-bit sum |
| PropertyHandler.PhysicalSizePropertyHandler.GetAt | src/handler/PhysicalSizePropertyHandler.cpp:322-349 | reply and unchanged object, with the 32-bit difference |
| PropertyHandler.PhysicalSizePropertyHandler.GetValue | src/handler/PhysicalSizePropertyHandler.cpp:351-403 | project values, empty when switched off; native keys as the original store answers |
| PropertyHandler.PhysicalSizePropertyHandler.SetValue | src/handler/PhysicalSizePropertyHandler.cpp:405-418 | project keys are refused, native keys reach the original store |
| PropertyHandler.PhysicalSizePropertyHandler.Commit | src/handler/PhysicalSizePropertyHandler.cpp:420-426 | the original store commits |
| PropertyHandler.PhysicalSizePropertyHandler.IsPropertyWritable | src/handler/PhysicalSizePropertyHandler.cpp:428-437 | no for project keys, otherwise the original answers if it can |
| PropertyHandler.StepRefines | src/handler/PhysicalSizePropertyHandler.cpp:302-437 | one call: a native call does what the original store alone would do, any other call leaves it alone |
| PropertyHandler.TraceRefines | src/handler/PhysicalSizePropertyHandler.cpp:254-426 | for every trace of calls on an initialised handler, further initialisations included, the original store sees exactly the native writes and commits in order, native replies are its own, and inspection, settings and key list never change |
| PropertyHandler.ListingIsOriginalThenCustom | src/handler/PhysicalSizePropertyHandler.cpp:302-349 | GetAt lists the original keys and then the project keys and nothing else; GetCount is their number if and only if that fits in 32 bits |
| PropertyHandler.DuplicatesAreNotRemoved | src/handler/PhysicalSizePropertyHandler.cpp:318-348 | the listing is free of duplicates if and only if the original store lists no key twice and no enabled project key |
| PropertyHandler.WidthIsListedTwice | src/handler/PhysicalSizePropertyHandler.cpp:322-348 | a concrete store with which a key is listed twice |
| PropertyHandler.CountWraps | src/handler/PhysicalSizePropertyHandler.cpp:318-319 | a concrete store with which GetCount wraps: 2^32 - 1 keys and seven more count as 6 |
| PropertyHandler.ProjectKeys | src/handler/PhysicalSizePropertyHandler.cpp:15-28 | the project keys are the seven with its format and the numbers 2 to 8 |
| PropertyHandler.LengthsShown | src/handler/PhysicalSizePropertyHandler.cpp:371-379 | the replies for width and height, on the reply itself: each length over the density of its own direction, rounded; nothing without a size or when switched off |
| PropertyHandler.LengthsShownAreClose | src/handler/PhysicalSizePropertyHandler.cpp:371-379 | both are within half a unit of the true lengths, whose products with the densities are exact |
| PropertyHandler.SizeTextShown | src/handler/PhysicalSizePropertyHandler.cpp:380-386 | the size text is two numbers, width first, each of which an independent reader reads as the rounded length |
| PropertyHandler.DensitiesShown | src/handler/PhysicalSizePropertyHandler.cpp:387-400 | the replies for both densities, for where they were found and for what came of it |
| PropertyHandler.ProjectKeysAreReadOnly | src/handler/PhysicalSizePropertyHandler.cpp:405-437 | project keys are never writable and never written |
| PropertyHandler.GuardsAnswer | src/handler/PhysicalSizePropertyHandler.cpp:302-426 | a call without an out parameter, or on a handler that is not initialised, changes nothing and says so |
| PropertyHandler.ListingFails | src/handler/PhysicalSizePropertyHandler.cpp:302-349 | a failing original store fails the listing with its own code |
| PropertyHandler.InitializedMeans | src/handler/PhysicalSizePropertyHandler.cpp:254-300 | what an initialisation leaves, on success and on failure |
| PropertyHandler.OriginalFails | src/handler/PhysicalSizePropertyHandler.cpp:254-300 | an original that is not found or does not come up fails the initialisation with its own code |
| ComLifetime.StepKeepsInv | src/handler/ClassFactory.cpp:11-70 | every atomic step keeps: each reference count is the references that exist, each dying object has one thread before and each uncounted one has one thread behind its decrement, and the count is living objects plus locks |
| ComLifetime.EveryRunKeepsInv | src/handler/ClassFactory.cpp:11-70 | so it holds in every interleaving of any number of threads |
| ComLifetime.UnloadExactly | src/handler/Module.cpp:19-29 | the DLL may be unloaded if and only if no lock is outstanding and every object is past its decrement or not yet past its increment |
| ComLifetime.CountIsHistory | src/handler/Module.cpp:7-29 | in every run the count is told by the calls alone: constructors less destructors run, plus locks taken less locks returned |
| ComLifetime.UnloadIsHistory | src/handler/DllExports.cpp:36-39 | so the DLL may be unloaded if and only if every lock taken was returned and every constructor run is matched by a destructor run |
| ComLifetime.ObjectsAreCreations | src/handler/ClassFactory.cpp:44-61 | the objects are those that the calls created, in order |
| ComLifetime.HeldIsHistory | src/handler/ClassFactory.cpp:11-42 | clients hold exactly the references that successful queries and AddRef gave them, less those they gave back |
| ComLifetime.ReferencesCanBeUsed | src/handler/ClassFactory.cpp:11-70 | a client that holds a reference in this sense can take another, give it back, and lock or create through a factory; it can unlock exactly when a lock is outstanding |
| ComLifetime.NoThreadIsStuck | src/handler/ClassFactory.cpp:11-70 | in every interleaving a thread inside a call can always take its next step |
| ComLifetime.CallsEnd | src/handler/ClassFactory.cpp:11-70 | which brings it closer to the end of the call, and other threads do not disturb it |
| ComLifetime.UnloadIsQuiet | src/handler/DllExports.cpp:19-39 | then clients hold nothing and no thread is in CreateInstance; a thread still in the DLL is constructing a factory, destroying the members of an object, or returning |
| ComLifetime.UnloadableWhileConstructing | src/handler/DllExports.cpp:32-39 | the DLL can be reported as unloadable while a thread constructs a factory: a concrete run |
| ComLifetime.UnloadableWhileDestroying | src/handler/ClassFactory.cpp:15-42 | and while a thread is in a destructor behind its decrement, or returning from it: concrete runs |
| ComLifetime.FailedCreationLeavesNothing | src/handler/ClassFactory.cpp:53-60 | an object whose first query fails is freed once no thread works on it any more |
| ComLifetime.NothingLeaks | src/handler/DllExports.cpp:23-39 | when all calls have returned and clients have released everything, every object is gone |
| ComLifetime.DeletedOnce | src/handler/PhysicalSizePropertyHandler.cpp:193-229 | every run destroys each object at most once and frees it at most once: exactly once when it is past that |
| ComLifetime.ReferencedIsAlive | src/handler/ClassFactory.cpp:32-42 | whoever holds a reference finds the object alive |
| JsonWriter.JsonEscape | src/common/JsonWriter.cpp:11-46 | the byte loop computes the escaped text of which the rows below say that it is clean and reads back |
| JsonText.EscapedReads | src/common/JsonWriter.cpp:11-46 | an escaped string with its closing quote is a string of section 7 of RFC 8259 and is read back unchanged, whatever follows |
| JsonText.EscapedIsClean | src/common/JsonWriter.cpp:11-46 | it has no control byte, and no quote that does not follow a backslash |
| JsonText.ShortEscapes | src/common/JsonWriter.cpp:15-35 | the seven short escapes |
| JsonText.LongEscapes | src/common/JsonWriter.cpp:36-43 | the escape of any other control byte, in four digits of lower case; nothing else is escaped |
| JsonText.ParsesWhatWasPrinted | src/common/JsonWriter.cpp:68-107 | a reader of JSON text inverts the printer, for every value |
| JsonWriter.JsonObjectWriter.constructor | src/common/JsonWriter.cpp:68-70 | an empty object is open |
| JsonWriter.JsonObjectWriter.Prefix | src/common/JsonWriter.cpp:76-82 | the comma, exactly when a member was written before |
| JsonWriter.JsonObjectWriter.Raw | src/common/JsonWriter.cpp:104-107 | one member more |
| JsonWriter.JsonObjectWriter.String | src/common/JsonWriter.cpp:84-92 | one string member more, quoted and escaped |
| JsonWriter.JsonObjectWriter.Close | src/common/JsonWriter.cpp:72-74 | the stream holds what it held before, and one closed object with the members written, in order |
| JsonWriter.WrittenObjectReads | src/common/JsonWriter.cpp:68-107 | that text reads back as these members, in order, whatever the names and values |
| RegistryAudit.AppendRegistryValueJson | src/common/RegistryAudit.cpp:141-177 | the stream grows by the text of the value |
| RegistryAudit.AppendRegistryValueArray | src/common/RegistryAudit.cpp:179-188 | the stream grows by the array of the values |
| RegistryAudit.RegistryAuditToJson | src/common/RegistryAudit.cpp:248-318 | the text, written by hand in part and by object writers in part, is exactly the print of one JSON value |
| RegistryAudit.HexReads | src/common/RegistryAudit.cpp:168-175 | hex text gives the bytes back |
| RegistryAudit.HexIsLowerCase | src/common/RegistryAudit.cpp:168-175 | hex text on an example: two digits for each byte, in lower case |
| RegistryAudit.TypeNameReads | src/common/RegistryAudit.cpp:35-57 | each value names its type |
| RegistryAudit.ValueReads | src/common/RegistryAudit.cpp:141-177 | a value read by member names is the value, up to what its kind does not print |
| RegistryAudit.AuditReads | src/common/RegistryAudit.cpp:248-318 | the text of every audit is well-formed and reads back as the audit, up to that |
| RegistryAudit.HeadReads | src/common/RegistryAudit.cpp:248-262 | the version, the phase and the supported extensions read back |
| RegistryAudit.SameTextExactly | src/common/RegistryAudit.cpp:141-177 | two audits have the same text if and only if they agree on it: an empty name prints as "(Default)", and only the data of the kind is kept |
| RegistryAudit.SameTextInPlainWords | src/common/RegistryAudit.cpp:141-188 | the same value by value: two audits have the same text if and only if they show the same, a missing name showing as "(Default)", and of the data what its type calls for |
| MultiSz.ParseMultiSz | src/common/RegistryAudit.cpp:67-86 | the scan with its two indices and its early exit returns the strings of which the rows below say what they are |
| MultiSz.ReadsWhatWasEncoded | src/common/RegistryAudit.cpp:67-86 | it inverts the double-NUL encoding of every list of non-empty NUL-free strings |
| MultiSz.TwoStrings | src/common/RegistryAudit.cpp:67-86 | two strings given byte by byte, low bytes first |
| MultiSz.EveryInputIsRead | src/common/RegistryAudit.cpp:67-86 | on any data: the strings read are non-empty and NUL-free, stand terminated at the start, and reading stops at an empty string or where no NUL is left |
| Schema.ValidatePropDesc | src/property_schema/RegisterSchema.cpp:98-181 | the reader loop with its early returns accepts exactly when the fold over all nodes succeeds and both elements and seven properties were seen |
| Schema.VisitMeans | src/property_schema/RegisterSchema.cpp:104-167 | what the loop has seen is what the elements say, in any order and interleaving |
| Schema.AcceptsExactly | src/property_schema/RegisterSchema.cpp:98-181 | accepted if and only if well-formed, every element acceptable by itself, schema and list elements present, and seven properties with distinct names and identifiers; then the identifiers are exactly 2 to 8 |
| Schema.AcceptsInPlainWords | src/property_schema/RegisterSchema.cpp:98-181 | the same in terms of element and attribute texts: the project's format, a name, a number from 2 to 8, and the description elements |
| Schema.NumberIsRead | src/property_schema/RegisterSchema.cpp:135-145 | a number printed behind white space is read as itself as far as it fits, whatever follows; a minus sign negates it modulo 2^32 |
| Schema.AcceptedIsBijection | src/property_schema/RegisterSchema.cpp:147-178 | in an accepted document names and the identifiers 2 to 8 correspond one to one |

## Left out

- User interface, diagnostics, configuration, shortcuts, command launchers, build scripts: plumbing without deep invariants.
- Installer.Machine.GetFullAudit: leaves out what the audit records without any effect on the plan, namely the HKCU override, the HKCR values, the lists of the ProgID and of all images, and the header with date and user.
- Installer.Machine: models values and contents with atomic writes; HKCR merging, empty keys left behind, permissions, locked files and half-written files are not modelled.
- Install.FailPoint: errors that PowerShell reports without stopping are not failures of a run; writing the failure manifest in the catch block succeeds; a failed registration of the schema leaves it unregistered.
- InstallSafety.FailedInstallIsNoop: rollback's own writes succeed, as the catch block needs them to; Rollback.RollBackAtPlanned says what happens when they fail. Backups and logs that a run leaves behind are not part of the compared state.
- InstallPlan.Content: SHA-256 is replaced by equality of contents, and the twelve hash digits in the DLL's name are a parameter.
- InstallPlan.Plan: the earlier shared manifest is a parameter that gives an original for some extensions; storage of manifests as JSON between install and rollback is not modelled, nor the dry run.
- Registry.RegValue: value types that .NET does not decode, such as links and resource lists, are left out; it reads them as nothing, and no operation outside the project keys can meet one.
- Registry.ObjectText: the text .NET makes of numbers and arrays; signs and formats of other cultures are not modelled.
- PowerShell.Fold: folds the letters A to Z only; the names and CLSIDs compared are made of these, digits and punctuation.
- OriginalHandler.ParseClsid: `CLSIDFromString` is modelled for the text form of a CLSID; a program identifier that it would look up is not.
- MetadataParser.DetectContainerFormat: SVG and PDF are recognised, but `src/imaging/ImageInspection.cpp`, which reads them with regular expressions, is not part of this model.
- MetadataParser.DecidedExactly: a TIFF prefix that ends within the last three entries of its directory is not covered, since there it depends on the bytes of the cut entry whether the rest can complete a resolution.
- PropertyHandler.Inspected: the WIC decoder, cloning and seeking of streams are the size of the first frame or a failure; CoCreateInstance and the initialisation of the original handler are a function that gives a store or an error code.
- PropertyHandler.Proxy: calls hold the handler's mutex and are atomic; a missing out parameter is a flag of the call. The original store changes only through its calls.
- PhysicalSize.CalculatePhysicalSizeCm: reals instead of doubles; NaN, infinities and rounding errors of doubles are not modelled, so the checks for finite values always pass.
- NumberFormat.FormatCentimeters: lengths that are not negative; GetNumberFormatEx puts the locale's separator in place of the point, without grouping, as the format record asks.
- ComLifetime.Step: a state machine over atomic steps instead of classes, since threads interleave between them; counts are unbounded and memory order is not modelled. Clients release and unlock only what they hold, and keep the reference through which they call LockServer, AddRef, QueryInterface or the property calls until the call returns; QueryInterface on a living object is its AddRef.
- JsonText.Parse: reads the text this program prints; white space, negative and fractional numbers and surrogate escapes are not read.
- JsonWriter.JsonEscape: strings stand for their bytes, one character below 256 for each; wide strings stand for their UTF-8 text, and `src/common/Utf.cpp` is not part of this model.
- RegistryAudit.Snapshot: the registry queries that fill it are not modelled, only how multi-strings are read and how snapshots are printed.
- Schema.Node: the XML reader gives a finite list of nodes and then ends or fails; white space in front of an identifier is ASCII white space.
