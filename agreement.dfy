/** How the three scripts fit together: what the packaging step produces passes
    the submission step's name checks and the verification step's checks, and
    every name the submission step accepts is one the verification step can
    parse. */
module Agreement {
  import opened Results
  import opened Hex
  import opened Ordering
  import opened Text
  import opened Names
  import Pkg = PackageSolution
  import Submit = SubmitSolution
  import Check = VerifySolutionPackage
  import Main = VerifySolutionMain

  /** Every package name the submission step accepts parses in the
      verification step to its first 8 characters and characters 10 to 73. */
  lemma SubmittedNameParses(pkg: string)
    requires IsPackageName(pkg)
    ensures Check.ExtractCsidAndHash(pkg) == Success((pkg[..8], pkg[9..73]))
  {
    Submit.StemHasNoSlash(pkg, ".ar.enc");
    assert '/' !in pkg;
    BasenameOfJoin([], pkg);
    assert [] + pkg == pkg;
    Check.StrictNameAccepted(pkg);
  }

  /** The two files the packaging step names pass all three name checks of the
      submission step, which then reads the credentials and uploads the
      commitment before the bundle. */
  lemma PackagedOutputsSubmit(csid: string, pov: string, files: seq<string>, passphrase: string,
                              run: Pkg.Command -> int, archiveOf: seq<string> -> seq<byte>,
                              hash: seq<byte> -> Digest, credsPath: string, eventName: string,
                              pathExists: string -> bool)
    requires IsCsid(csid)
    requires Pkg.PackageAux(csid, pov, files, passphrase, run, archiveOf, hash).Success?
    requires
      var out := Pkg.PackageAux(csid, pov, files, passphrase, run, archiveOf, hash).value;
      pathExists(credsPath) && pathExists(out.packageName) && pathExists(out.commitmentName)
    ensures
      var out := Pkg.PackageAux(csid, pov, files, passphrase, run, archiveOf, hash).value;
      Submit.Submit(credsPath, out.packageName, out.commitmentName, eventName, pathExists)
        == Success([Submit.ReadCredentials(credsPath),
                    Submit.Upload(eventName + out.commitmentName, out.commitmentName),
                    Submit.Upload(eventName + out.packageName, out.packageName)])
  {
    var out := Pkg.PackageAux(csid, pov, files, passphrase, run, archiveOf, hash).value;
    Submit.SameStemIff(out.packageName, out.commitmentName);
  }

  /** The bundle the packaging step names, wherever it is stored, parses back
      to the CSID and the digest, and the archive it was made from passes the
      verification step's hash check. */
  lemma PackagedBundleParses(csid: string, pov: string, files: seq<string>, passphrase: string,
                             run: Pkg.Command -> int, archiveOf: seq<string> -> seq<byte>,
                             hash: seq<byte> -> Digest, dir: string)
    requires IsCsid(csid) && (dir == [] || dir[|dir| - 1] == '/')
    requires Pkg.PackageAux(csid, pov, files, passphrase, run, archiveOf, hash).Success?
    ensures
      var name := Pkg.PackageAux(csid, pov, files, passphrase, run, archiveOf, hash).value.packageName;
      Check.ExtractCsidAndHash(dir + name) == Success((csid, name[9..73]))
      && Check.VerifyArchiveHash(archiveOf([pov] + files), name[9..73], hash).Pass?
  {
    var name := Pkg.PackageAux(csid, pov, files, passphrase, run, archiveOf, hash).value.packageName;
    StemRoundTrip(name[..8], name[9..73], ".ar.enc");
    Check.ExtractCsidAndHashRoundTrip(dir, csid, name[9..73]);
    Check.VerifyArchiveHashBytes(archiveOf([pov] + files), name[9..73], hash);
  }

  /** Names the packaging step accepts, archived and listed by `ar t` in any
      order (with any number of empty lines), pass the verification step's
      member-name check, which returns the PoV and the RBs in sorted order. */
  method ProducerListingAccepted(csid: string, pov: string, files: seq<string>, arLines: seq<string>)
    returns (r: Result<(string, seq<string>), Check.ValidationError>)
    requires Pkg.NamesAccepted(csid, pov, files)
    requires multiset(NonEmpty(arLines)) == multiset([pov] + files)
    ensures r == Success((pov, SortStrings(files)))
  {
    Pkg.NamesAcceptedIff(csid, pov, files);
    assert multiset([pov] + files) == multiset(ExpectedMembers(csid));
    r := Check.CheckArchiveFilenames(0, arLines, csid);
  }

  /** Extracting that archive creates exactly the checked names, so the
      extraction check passes and hands on the PoV and the sorted RBs. */
  method ProducerExtractionAccepted(csid: string, pov: string, files: seq<string>, extracted: seq<string>)
    returns (r: Result<(string, seq<string>), Check.ValidationError>)
    requires Pkg.NamesAccepted(csid, pov, files)
    requires multiset(extracted) == multiset([pov] + files)
    ensures r == Success((pov, SortStrings(files)))
  {
    Pkg.NamesAcceptedIff(csid, pov, files);
    ExpectedMembersSorted(csid);
    assert multiset([pov] + SortStrings(files)) == multiset([pov] + files);
    r := Check.ExtractArchive(0, extracted, pov, SortStrings(files));
  }

  /** The facts about the producer's bundle name that the verification step
      relies on: it parses, names the producer's CSID, and its hash part is the
      hex digest of the archive. */
  lemma ProducerNameFacts(csid: string, pov: string, files: seq<string>, passphrase: string,
                          run: Pkg.Command -> int, archiveOf: seq<string> -> seq<byte>,
                          hash: seq<byte> -> Digest, dir: string)
    requires IsCsid(csid) && (dir == [] || dir[|dir| - 1] == '/')
    requires Pkg.PackageAux(csid, pov, files, passphrase, run, archiveOf, hash).Success?
    ensures
      var name := Pkg.PackageAux(csid, pov, files, passphrase, run, archiveOf, hash).value.packageName;
      Check.MatchesLooseBundleName(Basename(dir + name))
      && Basename(dir + name)[..8] == csid
      && HexEncode(hash(archiveOf([pov] + files))) == Basename(dir + name)[9..73]
  {
    var name := Pkg.PackageAux(csid, pov, files, passphrase, run, archiveOf, hash).value.packageName;
    StoredBundleName(name, dir);
    EncodeDecode(name[9..73]);
  }

  /** A package name stored in any directory keeps its name as basename and
      passes the loose name check. */
  lemma StoredBundleName(name: string, dir: string)
    requires IsPackageName(name) && (dir == [] || dir[|dir| - 1] == '/')
    ensures Basename(dir + name) == name && Check.MatchesLooseBundleName(name)
  {
    Submit.StemHasNoSlash(name, ".ar.enc");
    BasenameOfJoin(dir, name);
    Check.StrictNameAccepted(name);
  }

  /** End to end: a bundle the packaging step produced from accepted names,
      which decrypts to the archive it was made from and whose listing and
      extraction hold the archived names in any order, is accepted by the
      verification step under the producer's CSID, and reports the PoV and
      CB List IDs of the announced names. */
  method ProducerBundleVerifies(csid: string, pov: string, files: seq<string>, passphrase: string,
                                run: Pkg.Command -> int, archiveOf: seq<string> -> seq<byte>,
                                hash: seq<byte> -> Digest, dir: string, env: Main.Environment)
    returns (r: Result<Main.ListIds, Check.ValidationError>)
    requires Pkg.NamesAccepted(csid, pov, files) && (dir == [] || dir[|dir| - 1] == '/')
    requires Pkg.PackageAux(csid, pov, SortStrings(files), passphrase, run, archiveOf, hash).Success?
    requires env.decryptStatus == 0 && env.archive == archiveOf([pov] + SortStrings(files))
    requires env.listStatus == 0 && multiset(NonEmpty(env.listing)) == multiset([pov] + files)
    requires env.extractStatus == 0 && multiset(env.extracted) == multiset([pov] + files)
    requires env.outputDirExists
    ensures r.Success? && r.value.csid == csid
    ensures r.Success? && r.value == Main.ExpectedIds(csid, env.contents, hash)
  {
    var name := Pkg.PackageAux(csid, pov, SortStrings(files), passphrase, run, archiveOf, hash).value.packageName;
    ProducerNameFacts(csid, pov, SortStrings(files), passphrase, run, archiveOf, hash, dir);
    assert multiset([pov] + files) == multiset(ExpectedMembers(csid)) && ExpectedCount(csid) >= 1 by {
      Pkg.NamesAcceptedIff(csid, pov, files);
    }
    r := Main.VerifySolution(dir + name, env, hash);
  }
}
