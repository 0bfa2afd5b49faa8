/** The consumer side of a submission (scripts/cqe-verify-solution-package.py):
    parse the bundle name, check the decrypted archive against the hash in its
    name, check the archive's member names without extracting, check that
    extraction creates exactly those members, and compute the two list
    identifiers (module VerifySolutionMain). The external tools (`openssl`, `ar t`, `ar x`), the file system
    and SHA-256 are parameters. */
module VerifySolutionPackage {
  import opened Results
  import opened Hex
  import opened Ordering
  import opened Text
  import opened Names

  /** The reasons the script stops with "Validation failed". */
  datatype ValidationError =
    | BadBundleName
    | ToolFailed(tool: string, status: int)
    | HashMismatch(shownExpected: string, shownActual: string)
    | TooFewMembers
    | PovMisnamed(expected: string, got: string)
    | RbCountMismatch(expectedCount: nat, gotCount: nat)
    | RbMisnamed(expected: string, got: string)
    | ExtractedSetMismatch
    | OutputDirMissing

  // ---------------------------------------------------------------------------
  // extract_csid_and_hash

  /** `^([0-9a-f]{8})_([0-9a-f]{64}).ar.enc$` with `$` read as the end of the
      string. The two dots are not escaped, so each matches any character but a
      newline. */
  predicate MatchesLooseBundleName(s: string)
  {
    |s| == 80 && IsCsid(s[..8]) && s[8] == '_' && IsHash(s[9..73])
    && s[73] != '\n' && s[74..76] == "ar" && s[76] != '\n' && s[77..] == "enc"
  }

  /** The CSID and hash named by the bundle file, read from the basename. */
  function ExtractCsidAndHash(path: string): (r: Result<(string, string), ValidationError>)
    ensures r.Success? <==> MatchesLooseBundleName(Basename(path))
    ensures r.Success? ==>
      IsCsid(r.value.0) && IsHash(r.value.1) && Basename(path)[..73] == BundleStem(r.value.0, r.value.1)
    ensures r.Failure? ==> r.error == BadBundleName
  {
    var name := Basename(path);
    if MatchesLooseBundleName(name) then
      assert name[..73] == name[..8] + "_" + name[9..73];
      Success((name[..8], name[9..73]))
    else Failure(BadBundleName)
  }

  /** A bundle name built from a CSID and a hash, under any directory, parses
      back to that CSID and hash. */
  lemma ExtractCsidAndHashRoundTrip(dir: string, csid: string, hash: string)
    requires IsCsid(csid) && IsHash(hash)
    requires dir == [] || dir[|dir| - 1] == '/'
    ensures ExtractCsidAndHash(dir + PackageName(csid, hash)) == Success((csid, hash))
  {
    var name := PackageName(csid, hash);
    assert name == csid + "_" + hash + ".ar.enc";
    assert '/' !in name by {
      forall i | 0 <= i < |name| ensures name[i] != '/' {
        if i < 8 { assert name[i] == csid[i]; }
        else if 9 <= i < 73 { assert name[i] == hash[i - 9]; }
      }
    }
    BasenameOfJoin(dir, name);
    assert name[..8] == csid && name[9..73] == hash;
    assert name[73..] == ".ar.enc";
    assert name[74..76] == "ar" && name[77..] == "enc";
  }

  /** Every name the submit step accepts is accepted here too. */
  lemma StrictNameAccepted(s: string)
    requires IsPackageName(s)
    ensures MatchesLooseBundleName(s)
  {
    assert s[73..] == ".ar.enc";
    assert s[74..76] == "ar" && s[77..] == "enc";
  }

  /** The converse fails: with the dots unescaped, `<csid>_<hash>_ar_enc` is
      taken for a bundle name although it is not one. */
  lemma LooseDotsAccepted(csid: string, hash: string)
    requires IsCsid(csid) && IsHash(hash)
    ensures MatchesLooseBundleName(csid + "_" + hash + "_ar_enc")
    ensures !IsPackageName(csid + "_" + hash + "_ar_enc")
  {
    var s := csid + "_" + hash + "_ar_enc";
    assert s[..8] == csid && s[9..73] == hash;
    assert s[73..] == "_ar_enc";
    assert s[74..76] == "ar" && s[77..] == "enc";
    assert s[73..] != ".ar.enc" by { assert s[73] != '.'; }
  }

  // ---------------------------------------------------------------------------
  // verify_archive_hash

  /** The decrypted archive must hash to the value in the bundle name. On a
      mismatch the error carries the expected digest first and the actual one
      second. */
  function VerifyArchiveHash(archive: seq<byte>, expected: string, hash: seq<byte> -> Digest)
    : (r: Outcome<ValidationError>)
    ensures r.Pass? <==> HexEncode(hash(archive)) == expected
    ensures r.Fail? ==>
      r.error.HashMismatch? && r.error.shownExpected == expected && r.error.shownActual != expected
  {
    var actual := HexEncode(hash(archive));
    if actual == expected then Pass else Fail(HashMismatch(expected, actual))
  }

  /** The check as written at lines 84-88: the message's format names the
      expected digest first but is given the actual digest there. */
  function VerifyArchiveHashAsWritten(archive: seq<byte>, expected: string, hash: seq<byte> -> Digest)
    : (r: Outcome<ValidationError>)
    ensures r.Pass? <==> VerifyArchiveHash(archive, expected, hash).Pass?
  {
    var actual := HexEncode(hash(archive));
    if actual == expected then Pass else Fail(HashMismatch(actual, expected))
  }

  /** On every mismatch the message as written reports the two digests the
      wrong way round. */
  lemma HashMessageSwapped(archive: seq<byte>, expected: string, hash: seq<byte> -> Digest)
    requires VerifyArchiveHash(archive, expected, hash).Fail?
    ensures VerifyArchiveHashAsWritten(archive, expected, hash).error.shownExpected != expected
    ensures VerifyArchiveHashAsWritten(archive, expected, hash).error.shownExpected
      == VerifyArchiveHash(archive, expected, hash).error.shownActual
  {
  }

  /** Comparing hex strings is comparing digests: for a well-formed expected
      value the check passes exactly when the digest is the bytes it spells,
      and a value that is not 64 hex digits never passes. */
  lemma VerifyArchiveHashBytes(archive: seq<byte>, expected: string, hash: seq<byte> -> Digest)
    ensures IsHash(expected) ==>
      (VerifyArchiveHash(archive, expected, hash).Pass? <==> hash(archive) == HexDecode(expected))
    ensures !IsHash(expected) ==> VerifyArchiveHash(archive, expected, hash).Fail?
  {
    if IsHash(expected) {
      EncodeDecode(expected);
      HexEncodeInjective(hash(archive), HexDecode(expected));
    }
  }

  // ---------------------------------------------------------------------------
  // check_archive_filenames

  /** The listing as the script orders it: empty lines dropped, then sorted. */
  function SortedListing(arLines: seq<string>): (files: seq<string>)
    ensures Sorted(files) && multiset(files) == multiset(arLines)[[] := 0]
  {
    SortStrings(NonEmpty(arLines))
  }

  /** The listing's order is irrelevant: permuted listings sort alike. */
  lemma SortedListingOrderIndependent(a: seq<string>, b: seq<string>)
    requires multiset(a) == multiset(b)
    ensures SortedListing(a) == SortedListing(b)
  {
    SortOrderIndependent(NonEmpty(a), NonEmpty(b));
  }

  /** The sorted listing is the expected member list exactly when the listing
      holds the PoV and each announced RB once, plus any number of empty lines. */
  lemma SortedListingIsExpectedIff(arLines: seq<string>, csid: string)
    requires IsCsid(csid)
    ensures SortedListing(arLines) == ExpectedMembers(csid) <==>
      multiset(NonEmpty(arLines)) == multiset(ExpectedMembers(csid))
  {
    ExpectedMembersSorted(csid);
    SortEqualsIff(NonEmpty(arLines), ExpectedMembers(csid));
  }

  lemma SortedListingLength(arLines: seq<string>)
    ensures |SortedListing(arLines)| == |NonEmpty(arLines)|
  {
    assert |multiset(SortedListing(arLines))| == |multiset(NonEmpty(arLines))|;
  }

  /** The expected member list, taken apart in the order the script checks it:
      at least two names, the PoV first, as many RBs as announced, each RB
      named after its position. */
  lemma ExpectedMembersByPosition(files: seq<string>, csid: string)
    requires IsCsid(csid)
    ensures files == ExpectedMembers(csid) && ExpectedCount(csid) >= 1 <==>
      |files| >= 2 && files[0] == PovName(csid) && |files| - 1 == ExpectedCount(csid)
      && forall j :: 1 <= j < |files| ==> files[j] == RbName(csid, j)
  {
  }

  /** A listing the script accepts: apart from empty lines, the PoV and each
      announced RB exactly once, in any order, and at least one RB. */
  ghost predicate Accepted(arLines: seq<string>, csid: string)
    requires IsCsid(csid)
  {
    multiset(NonEmpty(arLines)) == multiset(ExpectedMembers(csid)) && ExpectedCount(csid) >= 1
  }

  lemma ListingVerdictFacts(arLines: seq<string>, csid: string)
    requires IsCsid(csid)
    ensures |SortedListing(arLines)| == |NonEmpty(arLines)|
    ensures Accepted(arLines, csid) <==>
      var files := SortedListing(arLines);
      |files| >= 2 && files[0] == PovName(csid) && |files| - 1 == ExpectedCount(csid)
      && forall j :: 1 <= j < |files| ==> files[j] == RbName(csid, j)
  {
    SortedListingLength(arLines);
    SortedListingIsExpectedIff(arLines, csid);
    ExpectedMembersByPosition(SortedListing(arLines), csid);
  }

  /** Lines 127-131: the i-th remaining name (from 1) must be RB_<csid>_<i as
      %02x>; the first one that is not is reported. */
  method CheckRbNames(arFiles: seq<string>, csid: string) returns (r: Outcome<ValidationError>)
    ensures r.Pass? <==> forall j :: 0 <= j < |arFiles| ==> arFiles[j] == RbName(csid, j + 1)
    ensures r.Fail? ==>
      exists i :: 0 <= i < |arFiles| && r.error == RbMisnamed(RbName(csid, i + 1), arFiles[i])
        && arFiles[i] != RbName(csid, i + 1)
        && forall j :: 0 <= j < i ==> arFiles[j] == RbName(csid, j + 1)
  {
    for index := 0 to |arFiles|
      invariant forall j :: 0 <= j < index ==> arFiles[j] == RbName(csid, j + 1)
    {
      var expectedName := RbName(csid, index + 1);
      if arFiles[index] != expectedName {
        return Fail(RbMisnamed(expectedName, arFiles[index]));
      }
    }
    return Pass;
  }

  /** `e` reports the first entry after the PoV in `files` that is not named
      after its position. */
  ghost predicate FirstMisnamed(files: seq<string>, csid: string, e: ValidationError)
  {
    exists i :: 1 <= i < |files| && e == RbMisnamed(RbName(csid, i), files[i]) && files[i] != RbName(csid, i)
      && forall j :: 1 <= j < i ==> files[j] == RbName(csid, j)
  }

  /** CheckRbNames's report on the names after the PoV is the first misnamed
      entry of the whole list, counted from the PoV. */
  lemma MisnamedAfterPov(files: seq<string>, csid: string, e: ValidationError)
    requires |files| >= 1
    requires
      var arFiles := files[1..];
      exists k :: (0 <= k < |arFiles| && e == RbMisnamed(RbName(csid, k + 1), arFiles[k])
        && arFiles[k] != RbName(csid, k + 1)
        && forall j :: 0 <= j < k ==> arFiles[j] == RbName(csid, j + 1))
    ensures FirstMisnamed(files, csid, e)
  {
    var arFiles := files[1..];
    var k :| 0 <= k < |arFiles| && e == RbMisnamed(RbName(csid, k + 1), arFiles[k])
      && arFiles[k] != RbName(csid, k + 1)
      && forall j :: 0 <= j < k ==> arFiles[j] == RbName(csid, j + 1);
    assert files[k + 1] == arFiles[k];
    forall j | 1 <= j < k + 1 ensures files[j] == RbName(csid, j) {
      assert files[j] == arFiles[j - 1];
    }
  }

  /** A misnamed RB, reported by CheckRbNames on the names after the PoV, is
      the first misnamed entry of the sorted listing, and the listing is
      rejected. */
  lemma RbMismatchRejects(arLines: seq<string>, csid: string, e: ValidationError)
    requires IsCsid(csid) && |SortedListing(arLines)| >= 1
    requires FirstMisnamed(SortedListing(arLines), csid, e)
    ensures !Accepted(arLines, csid)
  {
    var listing := SortedListing(arLines);
    var i :| 1 <= i < |listing| && e == RbMisnamed(RbName(csid, i), listing[i]) && listing[i] != RbName(csid, i)
      && forall j :: 1 <= j < i ==> listing[j] == RbName(csid, j);
    MisnamedEntryRejects(arLines, csid, i);
  }

  /** One sorted entry after the first that is not named after its position
      makes the listing unacceptable. */
  lemma MisnamedEntryRejects(arLines: seq<string>, csid: string, i: nat)
    requires IsCsid(csid) && 1 <= i < |SortedListing(arLines)|
    requires SortedListing(arLines)[i] != RbName(csid, i)
    ensures !Accepted(arLines, csid)
  {
    ListingVerdictFacts(arLines, csid);
  }

  /** With the PoV first and every later name matching its position, the
      listing is accepted and its RBs are the expected ones. */
  lemma RbNamesAccepted(arLines: seq<string>, csid: string)
    requires IsCsid(csid) && |SortedListing(arLines)| >= 2
    requires SortedListing(arLines)[0] == PovName(csid)
    requires |SortedListing(arLines)| - 1 == ExpectedCount(csid)
    requires forall j :: 0 <= j < |SortedListing(arLines)| - 1 ==> SortedListing(arLines)[1..][j] == RbName(csid, j + 1)
    ensures Accepted(arLines, csid)
    ensures SortedListing(arLines)[1..] == RbNames(csid, ExpectedCount(csid))
  {
    var listing := SortedListing(arLines);
    assert listing[1..] == RbNames(csid, ExpectedCount(csid));
    assert listing == ExpectedMembers(csid);
    SortedListingIsExpectedIff(arLines, csid);
  }

  /** The error check_archive_filenames reports for a listing it rejects: the
      first of its checks that fails, in the script's order. A misnamed RB is
      the first sorted entry after the PoV not named after its position. */
  ghost predicate ListingError(arStatus: int, arLines: seq<string>, csid: string, e: ValidationError)
    requires IsCsid(csid)
  {
    var files := SortedListing(arLines);
    if arStatus != 0 then e == ToolFailed("ar", arStatus)
    else if |files| < 2 then e == TooFewMembers
    else if files[0] != PovName(csid) then e == PovMisnamed(PovName(csid), files[0])
    else if |files| - 1 != ExpectedCount(csid) then e == RbCountMismatch(ExpectedCount(csid), |files| - 1)
    else FirstMisnamed(files, csid, e)
  }

  /** Lines 97-134: `ar t` must succeed; the sorted non-empty names must be the
      PoV and then RB_<csid>_01, RB_<csid>_02, ... up to the count the CSID
      announces. The checks run in this order and the first failure is
      reported. The `ar t` exit status and its output lines are inputs. */
  method CheckArchiveFilenames(arStatus: int, arLines: seq<string>, csid: string)
    returns (r: Result<(string, seq<string>), ValidationError>)
    requires IsCsid(csid)
    ensures r.Success? <==> arStatus == 0 && Accepted(arLines, csid)
    ensures r.Success? ==> r.value == (PovName(csid), RbNames(csid, ExpectedCount(csid)))
    ensures r.Failure? ==> ListingError(arStatus, arLines, csid, r.error)
  {
    if arStatus != 0 {
      return Failure(ToolFailed("ar", arStatus));
    }
    var arFiles := SortedListing(arLines);
    assert |arFiles| == |NonEmpty(arLines)| by { SortedListingLength(arLines); }
    if |arFiles| < 2 {
      assert !Accepted(arLines, csid) by { ListingVerdictFacts(arLines, csid); }
      return Failure(TooFewMembers);
    }
    var povName := arFiles[0];
    arFiles := arFiles[1..];
    var expectedName := PovName(csid);
    if povName != expectedName {
      assert !Accepted(arLines, csid) by { ListingVerdictFacts(arLines, csid); }
      return Failure(PovMisnamed(expectedName, povName));
    }
    var expectedNumCbs := ExpectedCount(csid);
    var numCbs := |arFiles|;
    if numCbs != expectedNumCbs {
      assert !Accepted(arLines, csid) by { ListingVerdictFacts(arLines, csid); }
      return Failure(RbCountMismatch(expectedNumCbs, numCbs));
    }
    var rbCheck := CheckRbNames(arFiles, csid);
    if rbCheck.Fail? {
      MisnamedAfterPov(SortedListing(arLines), csid, rbCheck.error);
      RbMismatchRejects(arLines, csid, rbCheck.error);
      return Failure(rbCheck.error);
    }
    RbNamesAccepted(arLines, csid);
    return Success((povName, arFiles));
  }

  // ---------------------------------------------------------------------------
  // extract_archive

  /** Lines 142-162: `ar x` must succeed, and the sorted names it created must
      be the sorted names the listing check accepted. The first sorted name is
      the PoV, the rest the RBs. The exit status and the directory listing are
      inputs; the paths under the temporary directory are reduced to names. */
  method ExtractArchive(arStatus: int, extracted: seq<string>, povName: string, binaryNames: seq<string>)
    returns (r: Result<(string, seq<string>), ValidationError>)
    ensures r.Success? <==> arStatus == 0 && multiset(extracted) == multiset([povName] + binaryNames)
    ensures r.Success? ==> [r.value.0] + r.value.1 == SortStrings([povName] + binaryNames)
    ensures r.Success? && Sorted([povName] + binaryNames) ==> r.value == (povName, binaryNames)
    ensures arStatus != 0 ==> r == Failure(ToolFailed("ar", arStatus))
    ensures arStatus == 0 && r.Failure? ==> r.error == ExtractedSetMismatch
  {
    if arStatus != 0 {
      return Failure(ToolFailed("ar", arStatus));
    }
    var expectedFileList := [povName];
    expectedFileList := expectedFileList + binaryNames;
    expectedFileList := SortStrings(expectedFileList);
    var actualFileList := SortStrings(extracted);
    SortEqualsIff(extracted, expectedFileList);
    if expectedFileList != actualFileList {
      return Failure(ExtractedSetMismatch);
    }
    if Sorted([povName] + binaryNames) {
      SortOfSorted([povName] + binaryNames);
    }
    assert |actualFileList| == |multiset(actualFileList)| == |[povName] + binaryNames| >= 1;
    assert actualFileList == [actualFileList[0]] + actualFileList[1..];
    return Success((actualFileList[0], actualFileList[1..]));
  }
}
