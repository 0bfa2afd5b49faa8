/** The submission step (scripts/cqe-submit-solution.py): check that the
    credentials, the encrypted bundle and its commitment file exist and are
    named alike, then read the credentials and upload the commitment before
    the bundle. Only the decisions and the order of the actions are modelled;
    the file system is the predicate `pathExists`. */
module SubmitSolution {
  import opened Results
  import opened Hex
  import opened Names

  /** The reasons the script stops through `sys.exit`. */
  datatype SubmitError =
    | MissingCreds(path: string)
    | MissingPackage
    | MissingCommitment
    | PackageMisnamed
    | CommitmentMisnamed
    | NamesDiffer

  /** What the script does once every check has passed. */
  datatype Action =
    | ReadCredentials(path: string)
    | Upload(key: string, file: string)

  /** Python's `s[0:-n]` for n >= 1: all but the last n characters, or nothing
      when the string is shorter. */
  function DropLast(s: string, n: nat): (r: string)
    requires n >= 1
    ensures |r| == if |s| >= n then |s| - n else 0
    ensures r <= s
  {
    if |s| >= n then s[..|s| - n] else []
  }

  /** Lines 44-81: the existence checks, the three name checks in order, then
      the credentials are read and the two files uploaded under
      `event_name + filename`, commitment first. */
  function Submit(credsPath: string, pkg: string, commitment: string, eventName: string,
                  pathExists: string -> bool): (r: Result<seq<Action>, SubmitError>)
    ensures r.Success? <==>
      pathExists(credsPath) && pathExists(pkg) && pathExists(commitment)
      && IsPackageName(pkg) && IsCommitmentName(commitment) && SameStem(pkg, commitment)
    ensures r.Success? ==>
      r.value == [ReadCredentials(credsPath), Upload(eventName + commitment, commitment), Upload(eventName + pkg, pkg)]
    ensures r.Failure? && r.error.MissingCreds? ==> r.error.path == credsPath && !pathExists(credsPath)
    ensures r.Failure? && r.error == MissingPackage ==> pathExists(credsPath) && !pathExists(pkg)
    ensures r.Failure? && r.error == MissingCommitment ==> pathExists(credsPath) && pathExists(pkg) && !pathExists(commitment)
    ensures r.Failure? && r.error == PackageMisnamed ==>
      pathExists(credsPath) && pathExists(pkg) && pathExists(commitment) && !IsPackageName(pkg)
    ensures r.Failure? && r.error == CommitmentMisnamed ==>
      pathExists(credsPath) && pathExists(pkg) && pathExists(commitment) && IsPackageName(pkg) && !IsCommitmentName(commitment)
    ensures r.Failure? && r.error == NamesDiffer ==>
      pathExists(credsPath) && pathExists(pkg) && pathExists(commitment)
      && IsPackageName(pkg) && IsCommitmentName(commitment) && !SameStem(pkg, commitment)
  {
    if !pathExists(credsPath) then Failure(MissingCreds(credsPath))
    else if !pathExists(pkg) then Failure(MissingPackage)
    else if !pathExists(commitment) then Failure(MissingCommitment)
    else if !IsPackageName(pkg) then Failure(PackageMisnamed)
    else if !IsCommitmentName(commitment) then Failure(CommitmentMisnamed)
    else if DropLast(commitment, 4) != DropLast(pkg, 7) then Failure(NamesDiffer)
    else Success([ReadCredentials(credsPath), Upload(eventName + commitment, commitment), Upload(eventName + pkg, pkg)])
  }

  /** Line 61: `commitment_file[0:-4] == encrypted_package[0:-7]`. */
  predicate SameStem(pkg: string, commitment: string)
  {
    DropLast(commitment, 4) == DropLast(pkg, 7)
  }

  /** Once both names are well-formed, the slice comparison holds exactly when
      they name the same CSID and the same hash. */
  lemma SameStemIff(pkg: string, commitment: string)
    requires IsPackageName(pkg) && IsCommitmentName(commitment)
    ensures SameStem(pkg, commitment) <==> pkg[..8] == commitment[..8] && pkg[9..73] == commitment[9..73]
  {
    StemRoundTrip(pkg[..8], pkg[9..73], ".ar.enc");
    StemRoundTrip(commitment[..8], commitment[9..73], ".txt");
    assert DropLast(pkg, 7) == pkg[..73];
    assert DropLast(commitment, 4) == commitment[..73];
    if pkg[..8] == commitment[..8] && pkg[9..73] == commitment[9..73] {
      assert pkg[..73] == BundleStem(pkg[..8], pkg[9..73]);
      assert commitment[..73] == BundleStem(commitment[..8], commitment[9..73]);
    }
  }

  /** A name of the form `<csid>_<hash><suffix>` holds no '/' when the
      suffix holds none. */
  lemma StemHasNoSlash(s: string, suffix: string)
    requires '/' !in suffix
    ensures HasStem(s, suffix) ==> forall i :: 0 <= i < |s| ==> s[i] != '/'
  {
    if HasStem(s, suffix) {
      forall i | 0 <= i < |s| ensures s[i] != '/' {
        if i < 8 {
          assert s[..8][i] == s[i];
        } else if 9 <= i < 73 {
          assert s[9..73][i - 9] == s[i];
        } else if i >= 73 {
          assert s[73..][i - 73] == s[i];
        }
      }
    }
  }

  /** The names are matched whole: a directory in front of either name is
      rejected. */
  lemma PathsRejected(dir: string, name: string)
    requires dir != [] && dir[|dir| - 1] == '/'
    ensures !IsPackageName(dir + name) && !IsCommitmentName(dir + name)
  {
    var s := dir + name;
    StemHasNoSlash(s, ".ar.enc");
    StemHasNoSlash(s, ".txt");
    assert s[|dir| - 1] == '/';
  }

  /** The pair the packaging step names after a CSID and a digest passes every
      name check. */
  lemma ProducerPairAccepted(csid: string, digest: Digest)
    requires IsCsid(csid)
    ensures IsPackageName(PackageName(csid, HexEncode(digest)))
    ensures IsCommitmentName(CommitmentName(csid, HexEncode(digest)))
    ensures SameStem(PackageName(csid, HexEncode(digest)), CommitmentName(csid, HexEncode(digest)))
  {
    var h := HexEncode(digest);
    StemRoundTrip(csid, h, ".ar.enc");
    StemRoundTrip(csid, h, ".txt");
    SameStemIff(PackageName(csid, h), CommitmentName(csid, h));
  }
}
