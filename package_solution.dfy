/** The producer side of a submission (scripts/cqe-package-solution.py): check
    the CSID, the replacement binaries (RBs) and the proof of vulnerability
    (PoV) before packaging, then name the encrypted archive and its commitment
    file after the CSID and the archive's SHA-256 digest.

    Every subprocess (`cgcef_verify`, `poll-validate`, `ar`, `openssl`) is the
    oracle `run`, which maps a command line to its exit status; what `ar`
    writes is the oracle `archiveOf`, and SHA-256 is the parameter `hash`. */
module PackageSolution {
  import opened Results
  import opened Hex
  import opened Ordering
  import opened Names

  /** The command lines the script hands to `subprocess.check_call`. */
  datatype Command =
    | CgcefVerify(rb: string)                  // cgcef_verify <rb>
    | PollValidate(pov: string)                // poll-validate <pov>
    | ArCreate(archive: string, members: seq<string>)  // ar crSD <archive> <members...>
    | OpensslEncrypt(passphrase: string, input: string, output: string)
                                               // openssl aes-256-cbc -pass pass:<passphrase> -in <input> -out <output>

  /** The reasons the script stops through `sys.exit`. */
  datatype PackageError =
    | MissingFile(path: string)
    | BadCsid
    | WrongRbCount(expectedCount: nat, gotCount: nat)
    | RbMisnamed(expected: string, got: string)
    | PovMisnamed(expected: string, got: string)
    | ToolFailed(cmd: Command, status: int)

  // ---------------------------------------------------------------------------
  // verify

  /** One `cgcef_verify` per RB, in the given order. */
  function CgcefCommands(rbs: seq<string>): (s: seq<Command>)
    ensures |s| == |rbs| && forall i :: 0 <= i < |rbs| ==> s[i] == CgcefVerify(rbs[i])
  {
    seq(|rbs|, i requires 0 <= i < |rbs| => CgcefVerify(rbs[i]))
  }

  /** The format checks `verify` runs when every name is right: the RB checks,
      then `poll-validate` on the PoV. */
  function Schedule(pov: string, rbs: seq<string>): seq<Command>
  {
    CgcefCommands(rbs) + [PollValidate(pov)]
  }

  /** The names `verify` accepts: a well-formed CSID announcing at least one
      RB, the RBs (in any order) named RB_<csid>_01 up to that count, and the
      PoV named POV_<csid>.xml. */
  predicate NamesAccepted(csid: string, pov: string, files: seq<string>)
  {
    IsCsid(csid) && ExpectedCount(csid) >= 1
    && SortStrings(files) == RbNames(csid, ExpectedCount(csid)) && pov == PovName(csid)
  }

  /** The RB names are accepted exactly when they are the announced names, each
      once, whatever their order. */
  lemma NamesAcceptedIff(csid: string, pov: string, files: seq<string>)
    ensures NamesAccepted(csid, pov, files) <==>
      IsCsid(csid) && ExpectedCount(csid) >= 1 && pov == PovName(csid)
      && multiset(files) == multiset(RbNames(csid, ExpectedCount(csid)))
  {
    if IsCsid(csid) {
      RbNamesSorted(csid, ExpectedCount(csid));
      SortEqualsIff(files, RbNames(csid, ExpectedCount(csid)));
    }
  }

  /** The accepted names are independent of the order the caller gave them in. */
  lemma NamesAcceptedOrderIndependent(csid: string, pov: string, files: seq<string>, files': seq<string>)
    requires multiset(files) == multiset(files')
    ensures NamesAccepted(csid, pov, files) <==> NamesAccepted(csid, pov, files')
  {
    NamesAcceptedIff(csid, pov, files);
    NamesAcceptedIff(csid, pov, files');
  }

  /** A CSID ending in `00` announces no RB and is never accepted. */
  lemma ZeroCountRejected(csid: string, pov: string, files: seq<string>)
    requires IsCsid(csid) && csid[6..] == "00"
    ensures !NamesAccepted(csid, pov, files)
  {
    ExpectedCountDigits(csid);
  }

  /** `files.sort()` on the caller's list. */
  method SortInPlace(files: array<string>)
    modifies files
    ensures files[..] == SortStrings(old(files[..]))
  {
    var sorted := SortStrings(files[..]);
    assert |sorted| == |multiset(sorted)| == files.Length;
    forall i | 0 <= i < files.Length {
      files[i] := sorted[i];
    }
  }

  /** The first `n` names are RB_<csid>_01, RB_<csid>_02, ... in order. */
  predicate NamedInOrder(csid: string, rbs: seq<string>, n: nat)
    requires n <= |rbs|
  {
    forall j :: 0 <= j < n ==> rbs[j] == RbName(csid, j + 1)
  }

  /** Every command in `cmds` exits with status 0. */
  predicate AllPass(run: Command -> int, cmds: seq<Command>)
  {
    forall k :: 0 <= k < |cmds| ==> run(cmds[k]) == 0
  }

  lemma PrefixStep<T>(s: seq<T>, i: nat)
    requires i < |s|
    ensures s[..i + 1] == s[..i] + [s[i]]
  {
  }

  /** Lines 32-41: for each sorted RB in turn, its name must be
      RB_<csid>_<index from 1 as %02x>, and then `cgcef_verify` must pass on
      it. The first failure stops the loop. */
  method CheckReplacements(csid: string, rbs: seq<string>, run: Command -> int)
    returns (r: Outcome<PackageError>, calls: seq<Command>)
    ensures |calls| <= |rbs| && calls == CgcefCommands(rbs)[..|calls|] && NamedInOrder(csid, rbs, |calls|)
    ensures r.Pass? <==> NamedInOrder(csid, rbs, |rbs|) && AllPass(run, CgcefCommands(rbs))
    ensures r.Pass? ==> calls == CgcefCommands(rbs) && AllPass(run, calls)
    ensures r.Fail? && r.error.ToolFailed? ==>
      calls != [] && AllPass(run, calls[..|calls| - 1])
      && r.error == ToolFailed(calls[|calls| - 1], run(calls[|calls| - 1])) && run(calls[|calls| - 1]) != 0
    ensures r.Fail? && !r.error.ToolFailed? ==>
      AllPass(run, calls) && |calls| < |rbs|
      && r.error == RbMisnamed(RbName(csid, |calls| + 1), rbs[|calls|]) && rbs[|calls|] != RbName(csid, |calls| + 1)
  {
    ghost var plan := CgcefCommands(rbs);
    calls := [];
    for index := 0 to |rbs|
      invariant calls == plan[..index]
      invariant NamedInOrder(csid, rbs, index) && AllPass(run, calls)
    {
      var expectedName := RbName(csid, index + 1);
      if rbs[index] != expectedName {
        assert !NamedInOrder(csid, rbs, |rbs|);
        return Fail(RbMisnamed(expectedName, rbs[index])), calls;
      }
      assert NamedInOrder(csid, rbs, index + 1);
      var cmd := CgcefVerify(rbs[index]);
      PrefixStep(plan, index);
      var status := run(cmd);
      if status != 0 {
        assert (calls + [cmd])[..index] == calls;
        assert !AllPass(run, plan);
        return Fail(ToolFailed(cmd, status)), calls + [cmd];
      }
      calls := calls + [cmd];
    }
    assert plan[..|rbs|] == plan;
    return Pass, calls;
  }

  /** The schedule passes when every RB check passes and then `poll-validate` does. */
  lemma AllPassSchedule(run: Command -> int, pov: string, rbs: seq<string>)
    ensures AllPass(run, Schedule(pov, rbs)) <==> AllPass(run, CgcefCommands(rbs)) && run(PollValidate(pov)) == 0
  {
    var s := Schedule(pov, rbs);
    if AllPass(run, CgcefCommands(rbs)) && run(PollValidate(pov)) == 0 {
      forall k | 0 <= k < |s| ensures run(s[k]) == 0 {
        if k < |rbs| { assert s[k] == CgcefCommands(rbs)[k]; }
      }
    }
    if AllPass(run, s) {
      assert s[|rbs|] == PollValidate(pov);
      forall k | 0 <= k < |rbs| ensures run(CgcefCommands(rbs)[k]) == 0 {
        assert s[k] == CgcefCommands(rbs)[k];
      }
    }
  }

  /** A prefix of the RB checks is a prefix of the schedule. */
  lemma SchedulePrefix(pov: string, rbs: seq<string>, calls: seq<Command>)
    requires calls <= CgcefCommands(rbs)
    ensures calls <= Schedule(pov, rbs)
    ensures calls + [PollValidate(pov)] <= Schedule(pov, rbs) <==> calls == CgcefCommands(rbs)
  {
    if calls == CgcefCommands(rbs) {
      assert calls + [PollValidate(pov)] == Schedule(pov, rbs);
    }
    if calls + [PollValidate(pov)] <= Schedule(pov, rbs) {
      assert Schedule(pov, rbs)[|calls|] == PollValidate(pov);
    }
  }

  /** Every RB named in order is the announced list, when the count matches. */
  lemma NamedInOrderIff(csid: string, rbs: seq<string>)
    ensures NamedInOrder(csid, rbs, |rbs|) <==> rbs == RbNames(csid, |rbs|)
  {
  }

  /** What the checks after sorting report about the sorted list `sorted`:
      the commands run are a prefix of the schedule and all but a failing last
      one passed; every file a command ran on had its name checked first; a
      misnamed RB is the first one out of place and nothing was
      run on it; a misnamed PoV is reported only after every RB passed; and the
      run passes exactly when every name is right and every command passes. */
  ghost predicate ComponentsReport(csid: string, pov: string, sorted: seq<string>, run: Command -> int,
                                   r: Outcome<PackageError>, calls: seq<Command>)
  {
    calls <= Schedule(pov, sorted)
    && NamedInOrder(csid, sorted, if |calls| <= |sorted| then |calls| else |sorted|)
    && (|calls| > |sorted| ==> pov == PovName(csid))
    && (r.Fail? ==> r.error.ToolFailed? || r.error.RbMisnamed? || r.error.PovMisnamed?)
    && (r.Fail? && r.error.ToolFailed? ==>
      calls != [] && AllPass(run, calls[..|calls| - 1])
      && r.error == ToolFailed(calls[|calls| - 1], run(calls[|calls| - 1])) && run(calls[|calls| - 1]) != 0)
    && (r.Fail? && r.error.RbMisnamed? ==>
      AllPass(run, calls) && |calls| < |sorted| && NamedInOrder(csid, sorted, |calls|)
      && r.error == RbMisnamed(RbName(csid, |calls| + 1), sorted[|calls|]) && sorted[|calls|] != RbName(csid, |calls| + 1))
    && (r.Fail? && r.error.PovMisnamed? ==>
      r.error == PovMisnamed(PovName(csid), pov) && pov != PovName(csid)
      && NamedInOrder(csid, sorted, |sorted|) && calls == CgcefCommands(sorted) && AllPass(run, calls))
    && (r.Pass? <==> NamedInOrder(csid, sorted, |sorted|) && pov == PovName(csid) && AllPass(run, Schedule(pov, sorted)))
    && (r.Pass? ==> calls == Schedule(pov, sorted))
  }

  /** When the first sorted RB is misnamed, that is the error and no command
      has run. */
  lemma FirstRbMisnamedRunsNothing(csid: string, pov: string, sorted: seq<string>, run: Command -> int,
                                   r: Outcome<PackageError>, calls: seq<Command>)
    requires |sorted| >= 1 && sorted[0] != RbName(csid, 1)
    requires ComponentsReport(csid, pov, sorted, run, r, calls)
    ensures r == Fail(RbMisnamed(RbName(csid, 1), sorted[0])) && calls == []
  {
  }

  /** A misnamed PoV is never reported as a failing `poll-validate`: that
      command runs only after the PoV's name passed. */
  lemma MisnamedPovSkipsPollValidate(csid: string, pov: string, sorted: seq<string>, run: Command -> int,
                                     r: Outcome<PackageError>, calls: seq<Command>)
    requires pov != PovName(csid)
    requires ComponentsReport(csid, pov, sorted, run, r, calls)
    ensures r.Fail? && |calls| <= |sorted|
    ensures r.error.ToolFailed? ==> r.error.cmd.CgcefVerify?
  {
    if r.error.ToolFailed? {
      assert r.error.cmd == calls[|calls| - 1] == Schedule(pov, sorted)[|calls| - 1];
    }
  }

  /** Lines 32-51 on the sorted list: the RB checks, then the PoV's name, then
      `poll-validate` on it. */
  method CheckComponents(csid: string, pov: string, sorted: seq<string>, run: Command -> int)
    returns (r: Outcome<PackageError>, calls: seq<Command>)
    ensures ComponentsReport(csid, pov, sorted, run, r, calls)
  {
    AllPassSchedule(run, pov, sorted);
    var rbCheck;
    rbCheck, calls := CheckReplacements(csid, sorted, run);
    SchedulePrefix(pov, sorted, calls);
    if rbCheck.Fail? {
      return rbCheck, calls;
    }
    var expectedName := PovName(csid);
    if pov != expectedName {
      return Fail(PovMisnamed(expectedName, pov)), calls;
    }
    var cmd := PollValidate(pov);
    var status := run(cmd);
    if status != 0 {
      assert (calls + [cmd])[..|calls|] == calls;
      return Fail(ToolFailed(cmd, status)), calls + [cmd];
    }
    assert AllPass(run, calls + [cmd]);
    return Pass, calls + [cmd];
  }

  /** Lines 13-51: the checks before packaging, in the script's order. A
      malformed CSID, a zero count or a wrong number of RBs stops the run
      before anything is sorted or executed. Otherwise the caller's list is
      sorted in place and, for each RB in turn, its name is checked and then
      `cgcef_verify` is run on it; then the PoV's name is checked and
      `poll-validate` is run on it. The first failure stops the run. `calls`
      lists the commands run, in order. */
  method Verify(csid: string, pov: string, files: array<string>, run: Command -> int)
    returns (r: Outcome<PackageError>, calls: seq<Command>)
    modifies files
    ensures !IsCsid(csid) || ExpectedCount(csid) < 1 ==>
      r == Fail(BadCsid) && calls == [] && files[..] == old(files[..])
    ensures IsCsid(csid) && ExpectedCount(csid) >= 1 && files.Length != ExpectedCount(csid) ==>
      r == Fail(WrongRbCount(ExpectedCount(csid), files.Length)) && calls == [] && files[..] == old(files[..])
    ensures IsCsid(csid) && ExpectedCount(csid) == files.Length >= 1 ==>
      files[..] == SortStrings(old(files[..])) && ComponentsReport(csid, pov, files[..], run, r, calls)
    ensures r.Fail? ==> !r.error.MissingFile?
    ensures r.Pass? <==>
      NamesAccepted(csid, pov, old(files[..])) && AllPass(run, Schedule(pov, SortStrings(old(files[..]))))
    ensures r.Pass? ==> files[..] == RbNames(csid, ExpectedCount(csid)) && calls == Schedule(pov, files[..])
  {
    if !IsCsid(csid) {
      return Fail(BadCsid), [];
    }
    var expectedNumCbs := ExpectedCount(csid);
    if expectedNumCbs < 1 {
      return Fail(BadCsid), [];
    }
    var numCbs := files.Length;
    if numCbs != expectedNumCbs {
      assert |SortStrings(files[..])| == numCbs by { assert |multiset(SortStrings(files[..]))| == |multiset(files[..])|; }
      return Fail(WrongRbCount(expectedNumCbs, numCbs)), [];
    }
    ghost var given := files[..];
    SortInPlace(files);
    assert |SortStrings(given)| == |given| by { assert |multiset(SortStrings(given))| == |multiset(given)|; }
    var sorted := files[..];
    r, calls := CheckComponents(csid, pov, sorted, run);
    assert |sorted| == expectedNumCbs;
    assert NamedInOrder(csid, sorted, |sorted|) <==> sorted == RbNames(csid, expectedNumCbs) by {
      NamedInOrderIff(csid, sorted);
    }
  }

  // ---------------------------------------------------------------------------
  // package_aux

  /** What `package_aux` leaves behind: the commitment file's name and (empty)
      contents, and the encrypted archive's name. */
  datatype Packaged = Packaged(commitmentName: string, commitmentContents: seq<byte>, packageName: string)

  /** Lines 54-89: archive the PoV and the RBs in the order given into
      `<csid>.ar`, hash that archive, encrypt it to `<csid>_<digest>.ar.enc`
      and create the empty `<csid>_<digest>.txt`. */
  function PackageAux(csid: string, pov: string, files: seq<string>, passphrase: string,
                      run: Command -> int, archiveOf: seq<string> -> seq<byte>, hash: seq<byte> -> Digest)
    : (r: Result<Packaged, PackageError>)
    ensures run(ArCreate(csid + ".ar", [pov] + files)) != 0 ==>
      r == Failure(ToolFailed(ArCreate(csid + ".ar", [pov] + files), run(ArCreate(csid + ".ar", [pov] + files))))
    ensures r.Failure? ==> r.error.ToolFailed? && run(r.error.cmd) != 0 && r.error.status == run(r.error.cmd)
    ensures r.Failure? && r.error.cmd.OpensslEncrypt? ==>
      run(ArCreate(csid + ".ar", [pov] + files)) == 0 && r.error.cmd.passphrase == passphrase
      && r.error.cmd.input == csid + ".ar"
    ensures r.Success? ==> r.value.commitmentContents == []
    ensures r.Success? ==>
      run(ArCreate(csid + ".ar", [pov] + files)) == 0
      && run(OpensslEncrypt(passphrase, csid + ".ar", r.value.packageName)) == 0
    ensures r.Success? && IsCsid(csid) ==>
      IsPackageName(r.value.packageName) && IsCommitmentName(r.value.commitmentName)
      && r.value.packageName[..8] == csid && r.value.commitmentName[..8] == csid
      && HexDecode(r.value.packageName[9..73]) == hash(archiveOf([pov] + files))
      && r.value.commitmentName[9..73] == r.value.packageName[9..73]
  {
    var pkgName := csid + ".ar";
    var arCmd := ArCreate(pkgName, [pov] + files);
    if run(arCmd) != 0 then Failure(ToolFailed(arCmd, run(arCmd)))
    else
      var hashval := HexEncode(hash(archiveOf([pov] + files)));
      var pkgNameS := PackageName(csid, hashval);
      var commitmentName := CommitmentName(csid, hashval);
      var encCmd := OpensslEncrypt(passphrase, pkgName, pkgNameS);
      if run(encCmd) != 0 then Failure(ToolFailed(encCmd, run(encCmd)))
      else
        assert IsCsid(csid) ==> IsHash(hashval) && HexDecode(hashval) == hash(archiveOf([pov] + files)) by {
          DecodeEncode(hash(archiveOf([pov] + files)));
        }
        StemRoundTrip(csid, hashval, ".ar.enc");
        StemRoundTrip(csid, hashval, ".txt");
        Success(Packaged(commitmentName, [], pkgNameS))
  }

  // ---------------------------------------------------------------------------
  // package

  /** Lines 104-107: the first of `paths` that does not exist, if any. */
  method FindMissing(paths: seq<string>, pathExists: string -> bool) returns (missing: Option<string>)
    ensures missing.None? <==> forall i :: 0 <= i < |paths| ==> pathExists(paths[i])
    ensures missing.Some? ==>
      exists i :: 0 <= i < |paths| && paths[i] == missing.value && !pathExists(paths[i])
        && forall j :: 0 <= j < i ==> pathExists(paths[j])
  {
    for i := 0 to |paths|
      invariant forall j :: 0 <= j < i ==> pathExists(paths[j])
    {
      if !pathExists(paths[i]) {
        return Some(paths[i]);
      }
    }
    return None;
  }

  /** The credentials file, the PoV and every RB exist. */
  predicate InputsExist(credsPath: string, pov: string, rbs: seq<string>, pathExists: string -> bool)
  {
    pathExists(credsPath) && pathExists(pov) && forall i :: 0 <= i < |rbs| ==> pathExists(rbs[i])
  }

  /** Lines 91-121: the credentials file, the PoV and every RB must exist;
      then `verify` runs (sorting `files` in place) and `package_aux` is given
      the sorted list. Each failure ends the run with its own error, in the
      script's order. The encryption passphrase read from the credentials
      file is a parameter. */
  method Package(credsPath: string, csid: string, pov: string, files: array<string>, passphrase: string,
                 pathExists: string -> bool, run: Command -> int, archiveOf: seq<string> -> seq<byte>,
                 hash: seq<byte> -> Digest)
    returns (r: Result<Packaged, PackageError>)
    modifies files
    // the existence checks, in order
    ensures !pathExists(credsPath) ==> r == Failure(MissingFile(credsPath))
    ensures pathExists(credsPath) && !pathExists(pov) ==> r == Failure(MissingFile(pov))
    ensures pathExists(credsPath) && pathExists(pov) ==>
      forall i :: (0 <= i < files.Length && !pathExists(old(files[i]))
        && forall j :: 0 <= j < i ==> pathExists(old(files[j]))) ==> r == Failure(MissingFile(old(files[i])))
    ensures r.Failure? && r.error.MissingFile? ==> !pathExists(r.error.path) && files[..] == old(files[..])
    // verify's error, once every input exists
    ensures InputsExist(credsPath, pov, old(files[..]), pathExists) && !(IsCsid(csid) && ExpectedCount(csid) >= 1) ==>
      r == Failure(BadCsid)
    ensures (InputsExist(credsPath, pov, old(files[..]), pathExists) && IsCsid(csid)
      && ExpectedCount(csid) >= 1 && files.Length != ExpectedCount(csid)) ==>
      r == Failure(WrongRbCount(ExpectedCount(csid), files.Length))
    ensures (InputsExist(credsPath, pov, old(files[..]), pathExists) && IsCsid(csid)
      && ExpectedCount(csid) == files.Length >= 1
      && !(NamesAccepted(csid, pov, old(files[..])) && AllPass(run, Schedule(pov, SortStrings(old(files[..])))))) ==>
      files[..] == SortStrings(old(files[..]))
      && r.Failure? && exists calls :: ComponentsReport(csid, pov, files[..], run, Fail(r.error), calls)
    // the caller's list: sorted once verify's count check is reached, unchanged otherwise
    ensures (!InputsExist(credsPath, pov, old(files[..]), pathExists) || !IsCsid(csid)
      || ExpectedCount(csid) != files.Length || files.Length < 1) ==> files[..] == old(files[..])
    ensures (InputsExist(credsPath, pov, old(files[..]), pathExists) && IsCsid(csid)
      && ExpectedCount(csid) == files.Length >= 1) ==> files[..] == SortStrings(old(files[..]))
    // package_aux's outcome, once every input exists and verify passes
    ensures (InputsExist(credsPath, pov, old(files[..]), pathExists) && NamesAccepted(csid, pov, old(files[..]))
      && AllPass(run, Schedule(pov, RbNames(csid, ExpectedCount(csid))))) ==>
      r == PackageAux(csid, pov, RbNames(csid, ExpectedCount(csid)), passphrase, run, archiveOf, hash)
    // the result
    ensures r.Success? <==>
      InputsExist(credsPath, pov, old(files[..]), pathExists)
      && NamesAccepted(csid, pov, old(files[..])) && AllPass(run, Schedule(pov, RbNames(csid, ExpectedCount(csid))))
      && PackageAux(csid, pov, RbNames(csid, ExpectedCount(csid)), passphrase, run, archiveOf, hash).Success?
    ensures r.Success? ==>
      files[..] == RbNames(csid, ExpectedCount(csid))
      && r == PackageAux(csid, pov, RbNames(csid, ExpectedCount(csid)), passphrase, run, archiveOf, hash)
  {
    if !pathExists(credsPath) {
      return Failure(MissingFile(credsPath));
    }
    if !pathExists(pov) {
      return Failure(MissingFile(pov));
    }
    ghost var given := files[..];
    var missing := FindMissing(files[..], pathExists);
    if missing.Some? {
      return Failure(MissingFile(missing.value));
    }
    assert forall i :: 0 <= i < files.Length ==> pathExists(given[i]);
    var checked, calls := Verify(csid, pov, files, run);
    if checked.Fail? {
      assert NamesAccepted(csid, pov, given) ==> SortStrings(given) == RbNames(csid, ExpectedCount(csid));
      return Failure(checked.error);
    }
    r := PackageAux(csid, pov, files[..], passphrase, run, archiveOf, hash);
  }
}
