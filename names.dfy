/** The naming grammar shared by the packaging, submission and verification
    scripts: challenge-set identifiers (CSIDs), replacement-binary (RB) and
    proof-of-vulnerability (PoV) names, and the names of the encrypted bundle
    and its commitment file. */
module Names {
  import opened Hex
  import opened Ordering

  /** `^[0-9a-f]{8}$`, with `$` read as the end of the string. */
  predicate IsCsid(s: string)
  {
    |s| == 8 && IsHexString(s)
  }

  /** `int(csid[-2:], 16)`: the number of replacement binaries a CSID announces. */
  function ExpectedCount(csid: string): (n: nat)
    requires IsCsid(csid)
    ensures n < 256
  {
    assert Pow16(2) == 256;
    ParseHex(csid[6..])
  }

  /** The count is the value of the last two hex digits, so a CSID ending in
      `00` announces none and `ff` announces 255. */
  lemma ExpectedCountDigits(csid: string)
    requires IsCsid(csid)
    ensures ExpectedCount(csid) == DigitValue(csid[6]) * 16 + DigitValue(csid[7])
    ensures ExpectedCount(csid) == 0 <==> csid[6..] == "00"
  {
    var t := csid[6..];
    assert |t| == 2 && t[..|t| - 1] == [csid[6]] && t[|t| - 1] == csid[7];
    assert ParseHex([csid[6]]) == DigitValue(csid[6]) by { assert [csid[6]][..0] == []; }
  }

  lemma ExpectedCountExamples()
    ensures ExpectedCount("000000ff") == 255
    ensures ExpectedCount("00000001") == 1
  {
    ExpectedCountDigits("000000ff");
    ExpectedCountDigits("00000001");
  }

  /** `"RB_%s_%02x" % (csid, index)`. */
  function RbName(csid: string, index: nat): string
  {
    "RB_" + csid + "_" + Format02x(index)
  }

  /** `"POV_%s.xml" % csid`. */
  function PovName(csid: string): string
  {
    "POV_" + csid + ".xml"
  }

  /** `[RB_<csid>_01, ..., RB_<csid>_<n as %02x>]`. */
  function RbNames(csid: string, n: nat): (r: seq<string>)
    ensures |r| == n && forall i :: 0 <= i < n ==> r[i] == RbName(csid, i + 1)
  {
    seq(n, i requires 0 <= i < n => RbName(csid, i + 1))
  }

  /** The members a bundle for `csid` must hold, in sorted order: the PoV, then
      every replacement binary the CSID announces. */
  function ExpectedMembers(csid: string): seq<string>
    requires IsCsid(csid)
  {
    [PovName(csid)] + RbNames(csid, ExpectedCount(csid))
  }

  /** Two-digit lowercase hex sorts in numeric order, so the sorted position of
      an RB name is its index. */
  lemma RbNameOrder(csid: string, i: nat, j: nat)
    requires i < 256 && j < 256
    ensures StrLe(RbName(csid, i), RbName(csid, j)) <==> i <= j
  {
    var p := "RB_" + csid + "_";
    assert RbName(csid, i) == p + Format02x(i) && RbName(csid, j) == p + Format02x(j);
    StrLeCommonPrefix(p, Format02x(i), Format02x(j));
    Format02xOrder(i, j);
  }

  /** `%02x` spellings of values below 256 compare as the values do. */
  lemma Format02xOrder(i: nat, j: nat)
    requires i < 256 && j < 256
    ensures StrLe(Format02x(i), Format02x(j)) <==> i <= j
  {
    Format02xDigits(i);
    Format02xDigits(j);
    StrLePair(Format02x(i), Format02x(j));
    DigitCharMonotonic(i / 16, j / 16);
    DigitCharMonotonic(j / 16, i / 16);
    DigitCharMonotonic(i % 16, j % 16);
    DigitCharMonotonic(j % 16, i % 16);
    assert i == 16 * (i / 16) + i % 16 && j == 16 * (j / 16) + j % 16;
  }

  /** Two-character strings compare by their first character, then their second. */
  lemma StrLePair(a: string, b: string)
    requires |a| == 2 && |b| == 2
    ensures StrLe(a, b) <==> a[0] < b[0] || (a[0] == b[0] && a[1] <= b[1])
  {
    if a[0] == b[0] {
      assert StrLe(a, b) == StrLe(a[1..], b[1..]);
      var a', b' := a[1..], b[1..];
      assert a'[0] == a[1] && b'[0] == b[1];
      if a[1] == b[1] {
        assert a'[1..] == [];
        assert StrLe(a', b') == StrLe(a'[1..], b'[1..]);
      }
    }
  }

  /** The RB names up to any count below 256 are in sorted order. */
  lemma RbNamesSorted(csid: string, n: nat)
    requires n < 256
    ensures Sorted(RbNames(csid, n))
  {
    var r := RbNames(csid, n);
    forall i, j | 0 <= i < j < |r| ensures StrLe(r[i], r[j]) {
      assert r[i] == RbName(csid, i + 1) && r[j] == RbName(csid, j + 1);
      RbNameOrder(csid, i + 1, j + 1);
    }
  }

  /** The PoV name sorts before every RB name of any CSID ('P' < 'R'). */
  lemma PovBeforeRb(csid: string, csid': string, i: nat)
    ensures StrLe(PovName(csid), RbName(csid', i)) && PovName(csid) != RbName(csid', i)
  {
    assert PovName(csid)[0] == 'P' && RbName(csid', i)[0] == 'R';
  }

  /** The expected member list is already in sorted order. */
  lemma ExpectedMembersSorted(csid: string)
    requires IsCsid(csid)
    ensures Sorted(ExpectedMembers(csid))
  {
    var e := ExpectedMembers(csid);
    forall i, j | 0 <= i < j < |e| ensures StrLe(e[i], e[j]) {
      if i == 0 {
        PovBeforeRb(csid, csid, j);
      } else {
        RbNameOrder(csid, i, j);
      }
    }
  }

  /** Distinct indices give distinct RB names. */
  lemma RbNameInjective(csid: string, i: nat, j: nat)
    requires i < 256 && j < 256 && RbName(csid, i) == RbName(csid, j)
    ensures i == j
  {
    StrLeReflexive(RbName(csid, i));
    RbNameOrder(csid, i, j);
    RbNameOrder(csid, j, i);
  }

  /** `<csid>_<hash>`: the common stem of the bundle and commitment names. */
  function BundleStem(csid: string, hash: string): string
  {
    csid + "_" + hash
  }

  /** `<csid>_<hash>.ar.enc`: the encrypted bundle. */
  function PackageName(csid: string, hash: string): string
  {
    BundleStem(csid, hash) + ".ar.enc"
  }

  /** `<csid>_<hash>.txt`: the commitment file. */
  function CommitmentName(csid: string, hash: string): string
  {
    BundleStem(csid, hash) + ".txt"
  }

  predicate IsHash(h: string)
  {
    |h| == 64 && IsHexString(h)
  }

  /** `^[0-9a-f]{8}_[0-9a-f]{64}` then the literal `suffix` and the end of the string. */
  predicate HasStem(s: string, suffix: string)
  {
    |s| == 73 + |suffix| && IsCsid(s[..8]) && s[8] == '_' && IsHash(s[9..73]) && s[73..] == suffix
  }

  /** `^[0-9a-f]{8}_[0-9a-f]{64}\.ar\.enc$` */
  predicate IsPackageName(s: string)
  {
    HasStem(s, ".ar.enc")
  }

  /** `^[0-9a-f]{8}_[0-9a-f]{64}\.txt$` */
  predicate IsCommitmentName(s: string)
  {
    HasStem(s, ".txt")
  }

  /** Building a name from a CSID and a hash and reading the parts back agree,
      in both directions. */
  lemma {:induction false} StemRoundTrip(csid: string, hash: string, suffix: string)
    ensures IsCsid(csid) && IsHash(hash) ==>
      HasStem(BundleStem(csid, hash) + suffix, suffix)
      && (BundleStem(csid, hash) + suffix)[..8] == csid
      && (BundleStem(csid, hash) + suffix)[9..73] == hash
    ensures forall s :: HasStem(s, suffix) ==> s == BundleStem(s[..8], s[9..73]) + suffix
  {
    if IsCsid(csid) && IsHash(hash) {
      var s := BundleStem(csid, hash) + suffix;
      assert s[..8] == csid && s[8] == '_' && s[9..73] == hash && s[73..] == suffix;
    }
    forall s | HasStem(s, suffix) ensures s == BundleStem(s[..8], s[9..73]) + suffix {
      assert s == s[..8] + [s[8]] + s[9..73] + s[73..];
    }
  }
}
