# Naming and integrity checks of a CQE solution submission

A Cyber Grand Challenge qualification-event (CQE) team submits a solution for a challenge set as follows:

- **Packaging** (`scripts/cqe-package-solution.py`):
  - checks the challenge-set identifier (CSID), the replacement binaries (RBs) and the proof of vulnerability (PoV);
  - archives them with `ar`;
  - encrypts the archive with `openssl`;
  - names the encrypted bundle and an empty commitment file after the CSID and the archive's SHA-256 digest.
- **Submission** (`scripts/cqe-submit-solution.py`) checks that the two files exist and are named alike, then uploads the commitment first and the bundle second.
- **Verification** (`scripts/cqe-verify-solution-package.py`):
  - parses the bundle name;
  - checks the decrypted archive against the digest in the name;
  - checks the archive's member names without extracting;
  - checks that extraction creates exactly those members;
  - reports two identifiers: the PoV List ID (a digest of the PoV after its DTD path is made canonical) and the CB List ID (the byte-wise XOR of the RBs' digests).

This project models the naming grammar and the checks on all three sides, and proves:

- each check accepts exactly what the scripts accept;
- the scripts agree with each other: what packaging produces, submission accepts and verification parses and accepts.

Modules:

| file | module | what it holds |
|---|---|---|
| results.dfy | Results | `Option`, `Result`, `Outcome` |
| hex.dfy | Hex | bytes, lowercase hex (`%02x`, `hexdigest()`, `int(s, 16)`), hex encoding and decoding |
| ordering.dfy | Ordering | Python string order and `list.sort()` |
| names.dfy | Names | CSID, RB, PoV, bundle and commitment names |
| text.dfy | Text | `os.path.basename`, `str.find`/`in`, `str.replace(old, new, 1)`, dropping empty lines |
| identifiers.dfy | Identifiers | PoV canonicalisation, PoV List ID, CB List ID |
| verify_solution_package.dfy | VerifySolutionPackage | `extract_csid_and_hash`, `verify_archive_hash`, `check_archive_filenames`, `extract_archive` |
| verify_solution_main.dfy | VerifySolutionMain | the verifier's main sequence |
| package_solution.dfy | PackageSolution | `verify`, `package_aux`, `package` |
| submit_solution.dfy | SubmitSolution | the submission checks and the order of its actions |
| agreement.dfy | Agreement | lemmas and methods that connect the three scripts |

Everything outside the scripts' own logic is a parameter:

- SHA-256 is a function `hash: seq<byte> -> Digest` (32 bytes).
- Each subprocess is an oracle. The packaging side uses `run`, which maps a command line to its exit status, and `archiveOf` for the bytes `ar` writes. The verifier takes the exit statuses, the `ar t` lines and the extraction directory's listing as inputs.
- The file system is `pathExists` plus the `contents` of each file.

Packaging's `verify` sorts the caller's list in place, so that list is an `array<string>`. The loops of `verify`, `check_archive_filenames`, the existence checks and the CB List ID are methods with loop invariants. The rest is functions and lemmas.

## Model

| member | source | states |
|---|---|---|
| Hex.Format02x | scripts/cqe-package-solution.py:34 | `%02x` gives lowercase hex digits that parse back to the value, at least two of them, and exactly two below 256 |
| Hex.Format02xDigits | scripts/cqe-verify-solution-package.py:129 | below 256, `%02x` is the high nibble's digit followed by the low nibble's digit |
| Hex.ParseHex2Injective | scripts/cqe-package-solution.py:21 | two-digit lowercase hex strings with the same `int(s, 16)` value are equal |
| Hex.DecodeEncode | scripts/cqe-package-solution.py:69-71 | decoding a `hexdigest()` gives back the digest bytes |
| Hex.EncodeDecode | scripts/cqe-verify-solution-package.py:82-84 | every even-length lowercase hex string is the hex encoding of the bytes it spells |
| Hex.HexEncodeInjective | scripts/cqe-verify-solution-package.py:84 | two hex digests are equal exactly when the digests are equal |
| Ordering.StrLeTotal | scripts/cqe-verify-solution-package.py:107 | any two strings are comparable under Python's string order |
| Ordering.StrLeAntisymmetric | scripts/cqe-verify-solution-package.py:107 | strings that are each at most the other are equal |
| Ordering.StrLeTransitive | scripts/cqe-verify-solution-package.py:107 | the string order is transitive |
| Ordering.StrLeCommonPrefix | scripts/cqe-verify-solution-package.py:107 | a shared prefix does not change how two strings compare |
| Ordering.SortStrings | scripts/cqe-verify-solution-package.py:107 | `sort()` leaves the list in non-decreasing order with the same elements, counted with multiplicity |
| Ordering.SortedUnique | scripts/cqe-verify-solution-package.py:153-158 | two sorted lists with the same elements are equal, so comparing sorted lists compares element multisets |
| Ordering.SortOrderIndependent | scripts/cqe-package-solution.py:31 | permuted inputs sort to the same list |
| Ordering.SortOfSorted | scripts/cqe-verify-solution-package.py:153 | sorting an already sorted list leaves it unchanged |
| Ordering.SortEqualsIff | scripts/cqe-verify-solution-package.py:153-158 | a list sorts to a given sorted list exactly when both have the same elements |
| Names.ExpectedCount | scripts/cqe-package-solution.py:21 | `int(csid[-2:], 16)` is below 256 |
| Names.ExpectedCountDigits | scripts/cqe-package-solution.py:21-23 | the count is the value of the last two hex digits, and it is 0 exactly when the CSID ends in `00` |
| Names.ExpectedCountExamples | scripts/cqe-verify-solution-package.py:120 | a CSID ending in `ff` announces 255 RBs and one ending in `01` announces one |
| Names.RbNameOrder | scripts/cqe-verify-solution-package.py:127-129 | for indices below 256, RB names compare exactly as their indices do |
| Names.Format02xOrder | scripts/cqe-verify-solution-package.py:129 | below 256, `%02x` spellings compare as the numbers do |
| Names.StrLePair | scripts/cqe-verify-solution-package.py:107 | two-character strings compare by their first character, then their second |
| Names.RbNamesSorted | scripts/cqe-package-solution.py:31-36 | the expected RB names are already in sorted order |
| Names.PovBeforeRb | scripts/cqe-verify-solution-package.py:113-114 | a PoV name sorts strictly before every RB name, so the PoV comes first after sorting |
| Names.ExpectedMembersSorted | scripts/cqe-verify-solution-package.py:109 | `[POV, RB_01 .. RB_NN]` is in sorted order |
| Names.RbNameInjective | scripts/cqe-verify-solution-package.py:129 | distinct indices below 256 give distinct RB names |
| Names.StemRoundTrip | scripts/cqe-package-solution.py:74-76 | a name built from a CSID, a hash and a suffix has the stem shape and reads back to those parts; every name with the stem shape is rebuilt from its parts |
| Text.FindFrom | scripts/cqe-verify-solution-package.py:228-229 | the result is an occurrence at or after the start, with none between; no result means no occurrence |
| Text.ContainsIff | scripts/cqe-verify-solution-package.py:229 | `t in s` holds exactly when `t` occurs in `s` at some index |
| Text.Basename | scripts/cqe-verify-solution-package.py:28 | the basename contains no `/` |
| Text.BasenameIsLongestSuffix | scripts/cqe-verify-solution-package.py:28 | the basename is a suffix of the path that is either the whole path or preceded by `/` |
| Text.BasenameOfJoin | scripts/cqe-verify-solution-package.py:28 | a name with no `/`, placed under a directory that ends in `/` (or under none), is its own basename |
| Text.NonEmpty | scripts/cqe-verify-solution-package.py:105 | the kept lines are the input lines with every empty line removed, counted with multiplicity |
| Identifiers.CanonicalizePov | scripts/cqe-verify-solution-package.py:228-232 | the canonical PoV always names `/usr/share/cgc-docs/replay.dtd` |
| Identifiers.PovListId | scripts/cqe-verify-solution-package.py:233-234 | the PoV List ID is 64 lowercase hex digits |
| Identifiers.LegacyOccurrencesApart | scripts/cqe-verify-solution-package.py:228 | two occurrences of the legacy path never overlap |
| Identifiers.NoLegacyAcrossCanonical | scripts/cqe-verify-solution-package.py:228 | no legacy path overlaps an inserted canonical path |
| Identifiers.NoLegacyInPreamble | scripts/cqe-verify-solution-package.py:230-232 | no legacy path starts inside the preamble, including where it meets the document |
| Identifiers.PovFirstOccurrenceOnly | scripts/cqe-verify-solution-package.py:228 | only the leftmost legacy path is rewritten: the text before it is kept, and each later one survives, two bytes to the left |
| Identifiers.OccurrenceShifted | scripts/cqe-verify-solution-package.py:228 | after the 32-byte path is replaced by the 30-byte one, a later legacy path appears two bytes earlier |
| Identifiers.PovPreambleIff | scripts/cqe-verify-solution-package.py:228-232 | the preamble is prepended exactly when the PoV names neither path; otherwise the result is the single replacement |
| Identifiers.PovAlreadyCanonical | scripts/cqe-verify-solution-package.py:228-229 | a PoV naming the canonical path and no legacy path is left unchanged |
| Identifiers.PovCanonicalStableIff | scripts/cqe-verify-solution-package.py:228-232 | canonicalising the result again changes nothing exactly when the result names no legacy path |
| Identifiers.PovIdempotentIff | scripts/cqe-verify-solution-package.py:228-232 | canonicalising twice equals canonicalising once exactly when the PoV names the legacy path at most once |
| Identifiers.SecondLegacySurvives | scripts/cqe-verify-solution-package.py:228 | when the legacy path occurs twice, the canonical PoV still names it |
| Identifiers.LaterLegacySurvives | scripts/cqe-verify-solution-package.py:228 | a legacy path after the leftmost one is still present after canonicalising |
| Identifiers.AtMostOnceLeavesNoLegacy | scripts/cqe-verify-solution-package.py:228-232 | when the legacy path occurs at most once, the canonical PoV names it nowhere |
| Identifiers.PreambleAddsNoLegacy | scripts/cqe-verify-solution-package.py:230-232 | prepending the preamble to a PoV without the legacy path creates none |
| Identifiers.PreambleAddsNoOccurrence | scripts/cqe-verify-solution-package.py:230-232 | every legacy path after the preamble comes from the PoV, shifted by the preamble's 94 bytes |
| Identifiers.ReplacementLeavesNoLegacy | scripts/cqe-verify-solution-package.py:228 | replacing the only legacy path leaves none |
| Identifiers.ReplacementOccurrenceOrigin | scripts/cqe-verify-solution-package.py:228 | a legacy path in the rewritten PoV comes from a legacy path in the original other than the replaced one |
| Identifiers.ZipXorCommutes | scripts/cqe-verify-solution-package.py:247 | the byte-wise XOR over `zip` is commutative |
| Identifiers.ZipXorAssociates | scripts/cqe-verify-solution-package.py:247 | the byte-wise XOR over `zip` is associative, truncation included |
| Identifiers.XorFold | scripts/cqe-verify-solution-package.py:243-247 | the CB List ID is as long as the shortest digest |
| Identifiers.XorFoldLast | scripts/cqe-verify-solution-package.py:246-247 | the last loop step XORs the last digest into the fold of the others |
| Identifiers.XorFoldRemove | scripts/cqe-verify-solution-package.py:243-247 | any one digest can be taken out of the fold and XORed in last |
| Identifiers.XorFoldPermutation | scripts/cqe-verify-solution-package.py:236-248 | the CB List ID does not depend on the order of the digests |
| Identifiers.XorFoldPairCancels | scripts/cqe-verify-solution-package.py:243-247 | two equal digests cancel to all zero bytes |
| Identifiers.CbListId | scripts/cqe-verify-solution-package.py:243-247 | the loop computes the XOR fold; with one RB it is that RB's digest; when all digests are 32 bytes, so is the result |
| VerifySolutionPackage.ExtractCsidAndHash | scripts/cqe-verify-solution-package.py:24-35 | succeeds exactly when the basename matches the loose pattern: the two dots are unescaped and match any character but a newline. It returns a CSID and a 64-digit hash that rebuild the basename's stem; otherwise it reports a bad bundle name |
| VerifySolutionPackage.ExtractCsidAndHashRoundTrip | scripts/cqe-verify-solution-package.py:24-35 | `<csid>_<hash>.ar.enc` under any directory parses back to `(csid, hash)` |
| VerifySolutionPackage.StrictNameAccepted | scripts/cqe-verify-solution-package.py:29 | every name with literal dots is accepted by the loose pattern |
| VerifySolutionPackage.LooseDotsAccepted | scripts/cqe-verify-solution-package.py:29 | `<csid>_<hash>_ar_enc` is accepted as a bundle name although it does not end in `.ar.enc` |
| VerifySolutionPackage.VerifyArchiveHash | scripts/cqe-verify-solution-package.py:79-88 | passes exactly when the archive's hex digest equals the name's hash part; a mismatch reports the expected value first and a different actual value second |
| VerifySolutionPackage.VerifyArchiveHashAsWritten | scripts/cqe-verify-solution-package.py:84-88 | accepts and rejects exactly what the corrected check does |
| VerifySolutionPackage.HashMessageSwapped | scripts/cqe-verify-solution-package.py:87-88 | on every mismatch the message as written shows the actual digest where the expected one belongs |
| VerifySolutionPackage.VerifyArchiveHashBytes | scripts/cqe-verify-solution-package.py:79-88 | for a well-formed hash part, the check passes exactly when the digest is the bytes that hash part spells; a malformed one never passes |
| VerifySolutionPackage.SortedListing | scripts/cqe-verify-solution-package.py:105-107 | the checked list is sorted and holds the non-empty listed names, counted with multiplicity |
| VerifySolutionPackage.SortedListingOrderIndependent | scripts/cqe-verify-solution-package.py:105-107 | listings that differ only in order give the same checked list |
| VerifySolutionPackage.SortedListingIsExpectedIff | scripts/cqe-verify-solution-package.py:105-134 | the checked list is `[POV, RB_01 .. RB_NN]` exactly when the non-empty names are those names, each once |
| VerifySolutionPackage.SortedListingLength | scripts/cqe-verify-solution-package.py:105-110 | the checked list is as long as the non-empty part of the listing |
| VerifySolutionPackage.ExpectedMembersByPosition | scripts/cqe-verify-solution-package.py:110-131 | a list is the expected member list with at least one RB exactly when it passes the script's positional checks in order |
| VerifySolutionPackage.ListingVerdictFacts | scripts/cqe-verify-solution-package.py:110-131 | a listing is acceptable exactly when its sorted non-empty names pass every positional check |
| VerifySolutionPackage.CheckRbNames | scripts/cqe-verify-solution-package.py:127-131 | passes exactly when the i-th name is `RB_<csid>_<%02x i>` for every i; otherwise it reports the first misnamed entry |
| VerifySolutionPackage.MisnamedAfterPov | scripts/cqe-verify-solution-package.py:114-131 | the first misnamed name after the PoV, counted from 1, is the first misnamed entry of the whole sorted list |
| VerifySolutionPackage.RbMismatchRejects | scripts/cqe-verify-solution-package.py:127-131 | a sorted listing with a misnamed RB entry is not acceptable |
| VerifySolutionPackage.MisnamedEntryRejects | scripts/cqe-verify-solution-package.py:127-131 | any sorted entry after the first that is not named after its position makes the listing unacceptable |
| VerifySolutionPackage.RbNamesAccepted | scripts/cqe-verify-solution-package.py:127-134 | a PoV first and every later name matching its position makes the listing acceptable, and the returned RB list is the expected one |
| VerifySolutionPackage.CheckArchiveFilenames | scripts/cqe-verify-solution-package.py:97-134 | succeeds exactly when `ar t` exits 0 and the non-empty names are the PoV and each announced RB once, with at least one RB, so a CSID ending in `00` always fails; on success it returns `(POV, [RB_01 .. RB_NN])`; each failure is reported in the script's order, as `ListingError` spells out: the `ar t` status, too few names, the PoV's name, the RB count, then the first RB not named after its position |
| VerifySolutionPackage.ExtractArchive | scripts/cqe-verify-solution-package.py:142-163 | succeeds exactly when `ar x` exits 0 and the created names are the expected ones, each once; it returns the sorted names split into PoV and RBs, which are the given ones when those are already sorted |
| VerifySolutionMain.RbDigests | scripts/cqe-verify-solution-package.py:236-241 | there is one 32-byte digest per RB; that the i-th is the digest of the i-th RB is the function's definition, which `VerifySolutionMain.ExpectedIds` uses |
| VerifySolutionMain.VerifyContents | scripts/cqe-verify-solution-package.py:209-248 | steps 3 to 6 for a parsed CSID: the listing error `ListingError` gives when `ar t` fails or lists the wrong names; then the `ar x` status, a mismatched extraction, or a missing output directory. It succeeds exactly when all of these pass, and returns the CSID, the PoV List ID and the CB List ID of the announced RBs |
| VerifySolutionMain.VerifySolution | scripts/cqe-verify-solution-package.py:196-248 | the run succeeds exactly when every step passes. Otherwise the first failing step's error is reported: a bad name, the `openssl` status, the hash mismatch with its message as written at lines 87-88 (digests swapped), the listing error `ListingError` gives, the `ar x` status, a mismatched extraction, or a missing output directory. On success it reports the CSID, the PoV List ID of the canonical PoV, and the CB List ID of the announced RBs in sorted order |
| PackageSolution.NamesAcceptedIff | scripts/cqe-package-solution.py:17-46 | names are accepted exactly when the CSID is well formed and announces at least one RB, the PoV is `POV_<csid>.xml`, and the RBs are the announced names, each once, in any order |
| PackageSolution.NamesAcceptedOrderIndependent | scripts/cqe-package-solution.py:31-36 | whether the names are accepted does not depend on the order of the RBs |
| PackageSolution.ZeroCountRejected | scripts/cqe-package-solution.py:21-23 | a CSID ending in `00` is never accepted |
| PackageSolution.SortInPlace | scripts/cqe-package-solution.py:31 | the caller's array ends up holding the sorted list |
| PackageSolution.CheckReplacements | scripts/cqe-package-solution.py:32-41 | commands run form a prefix of the per-RB checks; passes exactly when every RB is named after its position and every `cgcef_verify` passes; otherwise reports the first misnamed RB (nothing run on it) or the first failing command |
| PackageSolution.AllPassSchedule | scripts/cqe-package-solution.py:37-51 | the whole schedule passes exactly when every RB check passes and `poll-validate` does |
| PackageSolution.SchedulePrefix | scripts/cqe-package-solution.py:37-51 | the RB checks run are a prefix of the schedule, and `poll-validate` follows them only when all of them ran |
| PackageSolution.NamedInOrderIff | scripts/cqe-package-solution.py:32-36 | every RB named after its position is the same as the list being the announced names |
| PackageSolution.FirstRbMisnamedRunsNothing | scripts/cqe-package-solution.py:32-41 | when the first sorted RB is misnamed, that name error is reported and no command has run |
| PackageSolution.MisnamedPovSkipsPollValidate | scripts/cqe-package-solution.py:43-51 | with a misnamed PoV the run fails without reaching `poll-validate`; a tool failure can only come from a `cgcef_verify` |
| PackageSolution.CheckComponents | scripts/cqe-package-solution.py:31-51 | RB checks, then the PoV name, then `poll-validate`; each command runs only after its file's name check passed; the first failure stops the run; a misnamed PoV is reported only after every RB passed; passes exactly when every name is right and every command passes |
| PackageSolution.Verify | scripts/cqe-package-solution.py:13-51 | a bad CSID, a zero count or a wrong RB count stops the run before anything is sorted or run. Otherwise the array is sorted in place and the checks run in order. It passes exactly when the names are accepted and every command passes, and then the array holds `[RB_01 .. RB_NN]` |
| PackageSolution.PackageAux | scripts/cqe-package-solution.py:54-89 | a failed `ar` or `openssl` stops the run with that command's status. On success the commitment file is empty and both names are well formed for the CSID. The bundle's hash part spells the archive's digest, and both names share it |
| PackageSolution.FindMissing | scripts/cqe-package-solution.py:104-107 | reports the first path that does not exist, or none when all exist |
| PackageSolution.Package | scripts/cqe-package-solution.py:91-121 | the credentials file, the PoV and every RB must exist, in that order, and the first missing one is reported. Once they all exist, `verify`'s error is reported: a bad CSID, a wrong RB count, or the first failing name or command check on the sorted list. Once `verify` passes, the result is `package_aux`'s on the sorted list, its `ar` or `openssl` failure included. Success needs `verify` to pass and `package_aux` to succeed on the sorted list, which is `[RB_01 .. RB_NN]`. A missing file leaves the list unsorted. The list is sorted once `verify`'s count check is reached, and unchanged otherwise |
| SubmitSolution.DropLast | scripts/cqe-submit-solution.py:61 | for n >= 1, `s[0:-n]` is a prefix of `s`, n characters shorter, or empty when `s` is shorter than n |
| SubmitSolution.Submit | scripts/cqe-submit-solution.py:44-81 | succeeds exactly when all three files exist, both names match their patterns and the stems agree. It then reads the credentials and uploads the commitment before the bundle, each under `event_name + filename`. Each failure is reported in the script's order |
| SubmitSolution.SameStemIff | scripts/cqe-submit-solution.py:61-62 | for well-formed names, the slice comparison holds exactly when the CSID and hash parts are equal |
| SubmitSolution.StemHasNoSlash | scripts/cqe-submit-solution.py:55-59 | a well-formed name contains no `/` |
| SubmitSolution.PathsRejected | scripts/cqe-submit-solution.py:55-59 | a name with a directory in front fails both patterns |
| SubmitSolution.ProducerPairAccepted | scripts/cqe-submit-solution.py:55-62 | the pair named after a CSID and a digest passes all three name checks |
| Agreement.SubmittedNameParses | scripts/cqe-verify-solution-package.py:24-35 | every bundle name the submission step accepts is parsed by the verifier into its first 8 characters and characters 10 to 73 |
| Agreement.PackagedOutputsSubmit | scripts/cqe-submit-solution.py:54-81 | the two files packaging names pass submission, which reads the credentials and uploads the commitment before the bundle |
| Agreement.PackagedBundleParses | scripts/cqe-verify-solution-package.py:24-88 | the bundle packaging names, under any directory, parses back to its CSID and hash, and the archive it came from passes the hash check |
| Agreement.ProducerListingAccepted | scripts/cqe-verify-solution-package.py:91-134 | names packaging accepts, listed in any order with any empty lines, pass the listing check, which yields the PoV and the sorted RBs |
| Agreement.ProducerExtractionAccepted | scripts/cqe-verify-solution-package.py:142-163 | extracting those names in any order passes the extraction check and yields the PoV and the sorted RBs |
| Agreement.ProducerNameFacts | scripts/cqe-package-solution.py:69-76 | the bundle name packaging produces passes the verifier's name check, names the CSID, and carries the archive's hex digest |
| Agreement.StoredBundleName | scripts/cqe-verify-solution-package.py:28-29 | a well-formed bundle name under any directory is its own basename and passes the loose pattern |
| Agreement.ProducerBundleVerifies | scripts/cqe-verify-solution-package.py:196-248 | a bundle packaged from accepted names that decrypts to its archive, lists and extracts those names in any order, and has an output directory, is accepted under the producer's CSID, and the reported IDs are the PoV List ID and the CB List ID of the announced names |

## Left out

- SHA-256 and AES are not modelled; the digest is the parameter `hash`, and decryption is reduced to its exit status.
- `ar`, `openssl`, `cgcef_verify` and `poll-validate` are oracles: exit statuses, the `ar t` output lines, the extraction directory's listing and the bytes `ar` writes (`archiveOf`).
- `decrypt_solution_bundle` (lines 38-67 of the verifier) has three failures: a missing credentials file, a missing bundle, and `openssl` failing. All three are folded into one decryption status. The "cannot find decrypted archive" check at line 76 is folded into it too.
- Temporary directories are left out: their creation, the global `temp_dirs` list and the final cleanup. Paths under them are reduced to member names.
- `copy_files` is reduced to whether the output directory exists. The copies themselves and the printed summary are not modelled, and the identifiers read the copied files through `contents` by name.
- JSON credential loading is left out. The packaging passphrase is a parameter, and submission's credential read is the action `ReadCredentials`.
- Uploads are left out; the S3 connection and bucket are not part of this model. Submission's uploads are the actions `Upload(key, file)`.
- Argument parsing, `print` and logging are left out.
- The event-bundle scripts, `scripts/cqe-client.py` and the submission-verification script are not part of this model.
- Python's `$` also matches before a trailing newline, so `^[0-9a-f]{8}$` accepts `"0123abcd\n"`. Every `$` here is read as the end of the string. For the loose bundle-name pattern, the final `enc$` is read the same way.
- VerifySolutionPackage.CheckArchiveFilenames: requires a well-formed CSID. Its only caller passes the CSID parsed from the bundle name, For other CSIDs the script either raises (a non-hex ending) or derives a count from the last two characters (`int(s, 16)` also takes uppercase digits and longer strings); neither is modelled.
- Canonicalisation is idempotent only when the legacy DTD path occurs at most once. This is the code's behaviour (a single `replace(..., 1)`), proved both ways in `Identifiers.PovIdempotentIff`, and is not a weaker contract.
- The `ar crSD` flags are not modelled: `ArCreate` records only the archive name and the member order, and neither is interpreted. `archiveOf` decides the bytes.

## Findings

| source | as written | input that shows it | evidently intended | confidence | as-written member | corrected member |
|---|---|---|---|---|---|---|
| scripts/cqe-verify-solution-package.py:87-88 | the message `"Expected SHA256: %s, actual SHA256: %s"` is given `(actual_hashval, expected_hashval)`, so it reports the digest the bundle name states as the actual one and the computed digest as the expected one | a bundle named `<csid>_<64 zeros>.ar.enc` whose decrypted archive has any other digest: the message shows that other digest after "Expected" and the zeros after "actual" | the expected (name) digest first and the computed digest second | not executed | VerifySolutionPackage.VerifyArchiveHashAsWritten (with VerifySolutionPackage.HashMessageSwapped) | VerifySolutionPackage.VerifyArchiveHash |

The main sequence, `VerifySolutionMain.VerifySolution`, follows the script as written: on a hash mismatch it reports the message of `VerifyArchiveHashAsWritten`. Which inputs pass is the same for both versions.
