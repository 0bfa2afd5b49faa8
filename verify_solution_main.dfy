/** The main sequence of scripts/cqe-verify-solution-package.py (lines
    196-248): parse the name, decrypt, check the hash, check the member names,
    extract, copy, and print the PoV and CB List IDs. */
module VerifySolutionMain {
  import opened Results
  import opened Hex
  import Ordering
  import opened Text
  import opened Names
  import opened Identifiers
  import opened VerifySolutionPackage

  /** The two identifiers printed when a bundle is accepted. */
  datatype ListIds = ListIds(csid: string, povListId: string, cbListId: string)

  /** What the environment supplies: the outcome of each external tool and the
      file contents the script reads. */
  datatype Environment = Environment(
    decryptStatus: int,           // exit status of `openssl aes-256-cbc -d`
    archive: seq<byte>,           // the decrypted archive
    listStatus: int,              // exit status of `ar t`
    listing: seq<string>,         // `ar t` output split at newlines
    extractStatus: int,           // exit status of `ar x`
    extracted: seq<string>,       // names in the extraction directory
    outputDirExists: bool,
    contents: string -> seq<byte> // the bytes of each copied file, by name
  )

  /** The digests of the replacement binaries, in the order the script reads them. */
  function RbDigests(rbs: seq<string>, contents: string -> seq<byte>, hash: seq<byte> -> Digest)
    : (ds: seq<seq<byte>>)
    ensures |ds| == |rbs| && forall i :: 0 <= i < |ds| ==> |ds[i]| == 32
  {
    seq(|rbs|, i requires 0 <= i < |rbs| => hash(contents(rbs[i])))
  }

  /** The identifiers of an accepted bundle for `csid`: the PoV List ID of the
      PoV and the CB List ID of the announced RBs, in their sorted order. */
  function ExpectedIds(csid: string, contents: string -> seq<byte>, hash: seq<byte> -> Digest): ListIds
    requires IsCsid(csid) && ExpectedCount(csid) >= 1
  {
    ListIds(csid,
      PovListId(contents(PovName(csid)), hash),
      HexEncode(XorFold(RbDigests(RbNames(csid, ExpectedCount(csid)), contents, hash))))
  }

  /** Steps 0 to 2 passed: the bundle's basename parses, decryption succeeds
      and the decrypted archive hashes to the value in the name. */
  ghost predicate HashStagePassed(solution: string, env: Environment, hash: seq<byte> -> Digest)
  {
    MatchesLooseBundleName(Basename(solution)) && env.decryptStatus == 0
    && HexEncode(hash(env.archive)) == Basename(solution)[9..73]
  }

  /** Step 3 passes: `ar t` succeeds and lists the members `csid` announces. */
  ghost predicate ListingPassed(csid: string, env: Environment)
    requires IsCsid(csid)
  {
    env.listStatus == 0 && Accepted(env.listing, csid)
  }

  /** Steps 3 and 4 pass: in addition, `ar x` succeeds and creates exactly
      those members. */
  ghost predicate ExtractionPassed(csid: string, env: Environment)
    requires IsCsid(csid)
  {
    ListingPassed(csid, env) && env.extractStatus == 0
    && multiset(env.extracted) == multiset(ExpectedMembers(csid))
  }

  /** Lines 209-248, steps 3 to 6, once the archive's hash is right: the member
      names, the extraction, the copy and the identifiers. Each step's failure
      ends the run with that step's error. */
  method VerifyContents(csid: string, env: Environment, hash: seq<byte> -> Digest)
    returns (r: Result<ListIds, ValidationError>)
    requires IsCsid(csid)
    ensures !ListingPassed(csid, env) ==> r.Failure? && ListingError(env.listStatus, env.listing, csid, r.error)
    ensures ListingPassed(csid, env) && env.extractStatus != 0 ==> r == Failure(ToolFailed("ar", env.extractStatus))
    ensures (ListingPassed(csid, env) && env.extractStatus == 0
      && multiset(env.extracted) != multiset(ExpectedMembers(csid))) ==> r == Failure(ExtractedSetMismatch)
    ensures ExtractionPassed(csid, env) && !env.outputDirExists ==> r == Failure(OutputDirMissing)
    ensures r.Success? <==> ExtractionPassed(csid, env) && env.outputDirExists
    ensures r.Success? ==> r.value == ExpectedIds(csid, env.contents, hash)
  {
    // 3. the member names
    var names := CheckArchiveFilenames(env.listStatus, env.listing, csid);
    if names.Failure? {
      return Failure(names.error);
    }
    var (povName, rbNames) := names.value;
    // 4. extraction
    assert [povName] + rbNames == ExpectedMembers(csid);
    assert Ordering.Sorted([povName] + rbNames) by { ExpectedMembersSorted(csid); }
    var paths := ExtractArchive(env.extractStatus, env.extracted, povName, rbNames);
    if paths.Failure? {
      return Failure(paths.error);
    }
    var (povPath, rbPathList) := paths.value;
    assert povPath == PovName(csid) && rbPathList == RbNames(csid, ExpectedCount(csid));
    // 5. the copy into the output directory
    if !env.outputDirExists {
      return Failure(OutputDirMissing);
    }
    // 6. the identifiers
    var povListId := PovListId(env.contents(povPath), hash);
    var hashlist := RbDigests(rbPathList, env.contents, hash);
    var cbId := CbListId(hashlist);
    return Success(ListIds(csid, povListId, HexEncode(cbId)));
  }

  /** Lines 196-248, steps 0 to 6: each step's failure ends the run with that
      step's error, the hash check reporting its message as written at lines
      87-88; on success the PoV and CB List IDs are returned. */
  method VerifySolution(solution: string, env: Environment, hash: seq<byte> -> Digest)
    returns (r: Result<ListIds, ValidationError>)
    // 0-2: the name, decryption, the archive hash
    ensures ExtractCsidAndHash(solution).Failure? ==> r == Failure(BadBundleName)
    ensures ExtractCsidAndHash(solution).Success? && env.decryptStatus != 0 ==>
      r == Failure(ToolFailed("openssl", env.decryptStatus))
    ensures ExtractCsidAndHash(solution).Success? && env.decryptStatus == 0 ==>
      (VerifyArchiveHashAsWritten(env.archive, ExtractCsidAndHash(solution).value.1, hash).Fail? ==>
        r == Failure(VerifyArchiveHashAsWritten(env.archive, ExtractCsidAndHash(solution).value.1, hash).error))
    // 3: the member names, in check_archive_filenames' order
    ensures HashStagePassed(solution, env, hash) && !ListingPassed(Basename(solution)[..8], env) ==>
      r.Failure? && ListingError(env.listStatus, env.listing, Basename(solution)[..8], r.error)
    // 4: extraction
    ensures (HashStagePassed(solution, env, hash) && ListingPassed(Basename(solution)[..8], env)
      && env.extractStatus != 0) ==> r == Failure(ToolFailed("ar", env.extractStatus))
    ensures (HashStagePassed(solution, env, hash) && ListingPassed(Basename(solution)[..8], env)
      && env.extractStatus == 0 && multiset(env.extracted) != multiset(ExpectedMembers(Basename(solution)[..8]))) ==>
      r == Failure(ExtractedSetMismatch)
    // 5: the output directory
    ensures (HashStagePassed(solution, env, hash) && ExtractionPassed(Basename(solution)[..8], env)
      && !env.outputDirExists) ==> r == Failure(OutputDirMissing)
    // 6: the result
    ensures r.Success? <==>
      MatchesLooseBundleName(Basename(solution))
      && env.decryptStatus == 0
      && HexEncode(hash(env.archive)) == Basename(solution)[9..73]
      && env.listStatus == 0
      && multiset(NonEmpty(env.listing)) == multiset(ExpectedMembers(Basename(solution)[..8]))
      && ExpectedCount(Basename(solution)[..8]) >= 1
      && env.extractStatus == 0
      && multiset(env.extracted) == multiset(ExpectedMembers(Basename(solution)[..8]))
      && env.outputDirExists
    ensures r.Success? ==> r.value == ExpectedIds(Basename(solution)[..8], env.contents, hash)
  {
    // 0. the bundle name
    var parsed := ExtractCsidAndHash(solution);
    if parsed.Failure? {
      return Failure(parsed.error);
    }
    var (nameCsid, nameHashval) := parsed.value;
    assert nameCsid == Basename(solution)[..8] && nameHashval == Basename(solution)[9..73];
    // 1. decryption
    if env.decryptStatus != 0 {
      return Failure(ToolFailed("openssl", env.decryptStatus));
    }
    // 2. the archive hash
    var hashCheck := VerifyArchiveHashAsWritten(env.archive, nameHashval, hash);
    if hashCheck.Fail? {
      assert HexEncode(hash(env.archive)) != Basename(solution)[9..73];
      return Failure(hashCheck.error);
    }
    // 3 to 6
    r := VerifyContents(nameCsid, env, hash);
  }
}
