/** The two list identifiers the verifier reports after a bundle is accepted
    (cqe-verify-solution-package.py, lines 222-248): the PoV List ID, a digest of
    the PoV after its DTD reference is made canonical, and the CB List ID, the
    byte-wise XOR of the replacement binaries' digests. */
module Identifiers {
  import opened Hex
  import opened Text
  import opened Results

  /** The DTD path older PoVs name. */
  function LegacyDtd(): seq<byte>
  {
    // /usr/share/cgc-replay/replay.dtd
    [
      0x2f, 0x75, 0x73, 0x72, 0x2f, 0x73, 0x68, 0x61, 0x72, 0x65, 0x2f, 0x63,
      0x67, 0x63, 0x2d, 0x72, 0x65, 0x70, 0x6c, 0x61, 0x79, 0x2f, 0x72, 0x65,
      0x70, 0x6c, 0x61, 0x79, 0x2e, 0x64, 0x74, 0x64
    ]
  }

  /** The DTD path the identifier is computed against. */
  function CanonicalDtd(): seq<byte>
  {
    // /usr/share/cgc-docs/replay.dtd
    [
      0x2f, 0x75, 0x73, 0x72, 0x2f, 0x73, 0x68, 0x61, 0x72, 0x65, 0x2f, 0x63,
      0x67, 0x63, 0x2d, 0x64, 0x6f, 0x63, 0x73, 0x2f, 0x72, 0x65, 0x70, 0x6c,
      0x61, 0x79, 0x2e, 0x64, 0x74, 0x64
    ]
  }

  function XmlDeclaration(): seq<byte>
  {
    // <?xml version="1.0" standalone="no" ?>\n
    [
      0x3c, 0x3f, 0x78, 0x6d, 0x6c, 0x20, 0x76, 0x65, 0x72, 0x73, 0x69, 0x6f,
      0x6e, 0x3d, 0x22, 0x31, 0x2e, 0x30, 0x22, 0x20, 0x73, 0x74, 0x61, 0x6e,
      0x64, 0x61, 0x6c, 0x6f, 0x6e, 0x65, 0x3d, 0x22, 0x6e, 0x6f, 0x22, 0x20,
      0x3f, 0x3e, 0x0a
    ]
  }

  function DoctypeOpen(): seq<byte>
  {
    // <!DOCTYPE pov SYSTEM "
    [
      0x3c, 0x21, 0x44, 0x4f, 0x43, 0x54, 0x59, 0x50, 0x45, 0x20, 0x70, 0x6f,
      0x76, 0x20, 0x53, 0x59, 0x53, 0x54, 0x45, 0x4d, 0x20, 0x22
    ]
  }

  function DoctypeClose(): seq<byte>
  {
    // ">\n
    [
      0x22, 0x3e, 0x0a
    ]
  }

  /** What is put in front of a PoV that names no DTD path. */
  function Preamble(): seq<byte>
  {
    XmlDeclaration() + DoctypeOpen() + CanonicalDtd() + DoctypeClose()
  }

  const SLASH: byte := 0x2f
  const LETTER_U: byte := 0x75

  /** Rewrite the first legacy DTD path to the canonical one; if the canonical
      path is then still absent, prepend the XML declaration and a DOCTYPE that
      names it. */
  function CanonicalizePov(pov: seq<byte>): (r: seq<byte>)
    ensures Contains(r, CanonicalDtd())
  {
    var fixed := ReplaceFirst(pov, LegacyDtd(), CanonicalDtd());
    if Contains(fixed, CanonicalDtd()) then fixed
    else
      PreambleNamesCanonical(fixed);
      Preamble() + fixed
  }

  /** The PoV List ID: the hex SHA-256 digest of the canonical PoV. */
  function PovListId(pov: seq<byte>, hash: seq<byte> -> Digest): (id: string)
    ensures IsHexString(id) && |id| == 64
  {
    HexEncode(hash(CanonicalizePov(pov)))
  }

  // ---------------------------------------------------------------------------
  // Facts about the byte constants

  lemma PreambleNamesCanonical(x: seq<byte>)
    ensures Contains(Preamble() + x, CanonicalDtd())
  {
    var s := Preamble() + x;
    assert s[61..91] == CanonicalDtd();
    assert OccursAt(s, CanonicalDtd(), 61);
  }

  /** The legacy path begins "/u", and nowhere else in it does "/u" start. */
  lemma LegacyBytes()
    ensures |LegacyDtd()| == 32 && LegacyDtd()[0] == SLASH && LegacyDtd()[1] == LETTER_U
    ensures forall d :: 0 < d < 32 && LegacyDtd()[d] == SLASH ==> d + 1 < 32 && LegacyDtd()[d + 1] != LETTER_U
  {
  }

  /** The canonical path begins "/u", and nowhere else in it does "/u" start. */
  lemma CanonicalBytes()
    ensures |CanonicalDtd()| == 30 && CanonicalDtd()[0] == SLASH && CanonicalDtd()[1] == LETTER_U
    ensures forall d :: 0 < d < 30 && CanonicalDtd()[d] == SLASH ==> d + 1 < 30 && CanonicalDtd()[d + 1] != LETTER_U
  {
  }

  /** The two paths differ at offset 15 ("cgc-replay" against "cgc-docs/"). */
  lemma PathsDiffer()
    ensures |LegacyDtd()| == 32 && |CanonicalDtd()| == 30 && LegacyDtd()[15] != CanonicalDtd()[15]
  {
  }

  lemma PreambleBytes()
    ensures |XmlDeclaration()| == 39 && |DoctypeOpen()| == 22 && |DoctypeClose()| == 3 && |Preamble()| == 94
    ensures forall i :: 0 <= i < 39 ==> XmlDeclaration()[i] != SLASH
    ensures forall i :: 0 <= i < 22 ==> DoctypeOpen()[i] != SLASH
    ensures forall i :: 0 <= i < 3 ==> DoctypeClose()[i] != SLASH
  {
  }

  lemma OccursAtIndex(s: seq<byte>, t: seq<byte>, k: nat, i: nat)
    requires OccursAt(s, t, k) && i < |t|
    ensures s[k + i] == t[i]
  {
    assert s[k..k + |t|][i] == s[k + i];
  }

  /** Two occurrences of the legacy path never overlap. */
  lemma LegacyOccurrencesApart(s: seq<byte>, i: nat, j: nat)
    requires OccursAt(s, LegacyDtd(), i) && OccursAt(s, LegacyDtd(), j) && i < j
    ensures i + 32 <= j
  {
    LegacyBytes();
    if j < i + 32 {
      var d := j - i;
      OccursAtIndex(s, LegacyDtd(), j, 0);
      OccursAtIndex(s, LegacyDtd(), i, d);
      OccursAtIndex(s, LegacyDtd(), j, 1);
      OccursAtIndex(s, LegacyDtd(), i, d + 1);
      assert false;
    }
  }

  /** No occurrence of the legacy path overlaps an inserted canonical path. */
  lemma NoLegacyAcrossCanonical(a: seq<byte>, b: seq<byte>, k: nat)
    requires OccursAt(a + CanonicalDtd() + b, LegacyDtd(), k)
    ensures k + 32 <= |a| || |a| + 30 <= k
  {
    LegacyBytes();
    CanonicalBytes();
    PathsDiffer();
    var s := a + CanonicalDtd() + b;
    assert forall d :: 0 <= d < 30 ==> s[|a| + d] == CanonicalDtd()[d];
    assert forall i :: 0 <= i < 32 ==> s[k + i] == LegacyDtd()[i] by {
      forall i | 0 <= i < 32 ensures s[k + i] == LegacyDtd()[i] { OccursAtIndex(s, LegacyDtd(), k, i); }
    }
    if |a| <= k < |a| + 30 {
      assert false;
    } else if |a| - 32 < k < |a| {
      assert false;
    }
  }

  /** An occurrence of the legacy path starts with a slash. */
  lemma LegacyStartsWithSlash(s: seq<byte>, k: nat)
    requires OccursAt(s, LegacyDtd(), k)
    ensures s[k] == SLASH
  {
    LegacyBytes();
    OccursAtIndex(s, LegacyDtd(), k, 0);
  }

  lemma PreambleSlashes(x: seq<byte>)
    ensures |Preamble()| == 94
    ensures forall i :: 0 <= i < 61 ==> (Preamble() + x)[i] != SLASH
    ensures forall i :: 91 <= i < 94 ==> (Preamble() + x)[i] != SLASH
  {
    PreambleBytes();
    var s := Preamble() + x;
    forall i | 0 <= i < 61 ensures s[i] != SLASH {
      if i < 39 { assert s[i] == XmlDeclaration()[i]; } else { assert s[i] == DoctypeOpen()[i - 39]; }
    }
    forall i | 91 <= i < 94 ensures s[i] != SLASH {
      assert s[i] == DoctypeClose()[i - 91];
    }
  }

  /** The preamble holds no legacy path, even where it meets the document. */
  lemma NoLegacyInPreamble(x: seq<byte>, k: nat)
    requires OccursAt(Preamble() + x, LegacyDtd(), k)
    ensures |Preamble()| <= k
  {
    PreambleSlashes(x);
    var head := XmlDeclaration() + DoctypeOpen();
    assert |head| == 61;
    assert Preamble() + x == head + CanonicalDtd() + (DoctypeClose() + x);
    NoLegacyAcrossCanonical(head, DoctypeClose() + x, k);
    LegacyStartsWithSlash(Preamble() + x, k);
  }

  // ---------------------------------------------------------------------------
  // Properties of the canonicalisation

  /** Only the leftmost legacy path is rewritten: the text before it is kept,
      and every later legacy path survives, two bytes earlier. */
  lemma PovFirstOccurrenceOnly(pov: seq<byte>, i: nat)
    requires Find(pov, LegacyDtd()) == Some(i)
    ensures CanonicalizePov(pov) == pov[..i] + CanonicalDtd() + pov[i + 32..]
    ensures forall k: nat :: k < i ==> !OccursAt(pov, LegacyDtd(), k)
    ensures forall k: nat :: i + 32 <= k && OccursAt(pov, LegacyDtd(), k) ==>
      OccursAt(CanonicalizePov(pov), LegacyDtd(), k - 2)
  {
    LegacyBytes();
    var fixed := pov[..i] + CanonicalDtd() + pov[i + 32..];
    assert OccursAt(fixed, CanonicalDtd(), i) by {
      assert fixed[i..i + 30] == CanonicalDtd();
    }
    forall k: nat | i + 32 <= k && OccursAt(pov, LegacyDtd(), k)
      ensures OccursAt(fixed, LegacyDtd(), k - 2)
    {
      OccurrenceShifted(pov, i, k);
    }
  }

  /** Replacing the 32 bytes at i by the 30-byte path moves a later legacy path
      two bytes to the left. */
  lemma OccurrenceShifted(pov: seq<byte>, i: nat, k: nat)
    requires i + 32 <= k && OccursAt(pov, LegacyDtd(), k)
    ensures OccursAt(pov[..i] + CanonicalDtd() + pov[i + 32..], LegacyDtd(), k - 2)
  {
    LegacyBytes();
    CanonicalBytes();
    var fixed := pov[..i] + CanonicalDtd() + pov[i + 32..];
    assert fixed[k - 2..k + 30] == pov[k..k + 32];
  }

  /** The preamble is added exactly when the PoV names neither DTD path;
      otherwise the result is the single replacement. */
  lemma PovPreambleIff(pov: seq<byte>)
    ensures CanonicalizePov(pov) == Preamble() + pov <==>
      !Contains(pov, LegacyDtd()) && !Contains(pov, CanonicalDtd())
    ensures Contains(pov, LegacyDtd()) || Contains(pov, CanonicalDtd()) ==>
      CanonicalizePov(pov) == ReplaceFirst(pov, LegacyDtd(), CanonicalDtd())
  {
    PreambleBytes();
    LegacyBytes();
    match Find(pov, LegacyDtd())
    case Some(i) =>
      PovFirstOccurrenceOnly(pov, i);
      assert |CanonicalizePov(pov)| == |pov| - 2;
    case None =>
  }

  /** A PoV that already names only the canonical path is left as it is. */
  lemma PovAlreadyCanonical(pov: seq<byte>)
    requires Contains(pov, CanonicalDtd()) && !Contains(pov, LegacyDtd())
    ensures CanonicalizePov(pov) == pov
  {
  }

  /** Canonicalising again changes nothing exactly when no legacy path is left. */
  lemma PovCanonicalStableIff(pov: seq<byte>)
    ensures CanonicalizePov(CanonicalizePov(pov)) == CanonicalizePov(pov) <==>
      !Contains(CanonicalizePov(pov), LegacyDtd())
  {
    var c := CanonicalizePov(pov);
    LegacyBytes();
    match Find(c, LegacyDtd())
    case Some(i) =>
      PovFirstOccurrenceOnly(c, i);
      assert |CanonicalizePov(c)| == |c| - 2;
    case None =>
  }

  /** The legacy path occurs at most once. */
  ghost predicate AtMostOnce(s: seq<byte>, t: seq<byte>)
  {
    forall i: nat, j: nat :: OccursAt(s, t, i) && OccursAt(s, t, j) ==> i == j
  }

  /** Canonicalisation is idempotent on a PoV exactly when the PoV names the
      legacy path at most once: a second legacy path survives the single
      replacement and is rewritten by the next one. */
  lemma PovIdempotentIff(pov: seq<byte>)
    ensures CanonicalizePov(CanonicalizePov(pov)) == CanonicalizePov(pov) <==>
      AtMostOnce(pov, LegacyDtd())
  {
    PovCanonicalStableIff(pov);
    if AtMostOnce(pov, LegacyDtd()) {
      AtMostOnceLeavesNoLegacy(pov);
    } else {
      SecondLegacySurvives(pov);
    }
  }

  lemma SecondLegacySurvives(pov: seq<byte>)
    requires !AtMostOnce(pov, LegacyDtd())
    ensures Contains(CanonicalizePov(pov), LegacyDtd())
  {
    var i: nat, j: nat :| OccursAt(pov, LegacyDtd(), i) && OccursAt(pov, LegacyDtd(), j) && i != j;
    if j < i { i, j := j, i; }
    LegacyOccurrencesApart(pov, i, j);
    var f := FirstOccurrence(pov, i);
    LaterLegacySurvives(pov, f, j);
    ContainsIff(CanonicalizePov(pov), LegacyDtd());
  }

  /** A legacy path after the leftmost one is still there after canonicalising. */
  lemma LaterLegacySurvives(pov: seq<byte>, f: nat, j: nat)
    requires Find(pov, LegacyDtd()) == Some(f) && f + 32 <= j && OccursAt(pov, LegacyDtd(), j)
    ensures OccursAt(CanonicalizePov(pov), LegacyDtd(), j - 2)
  {
    PovFirstOccurrenceOnly(pov, f);
  }

  /** Where some occurrence exists, the leftmost one is found at or before it. */
  lemma FirstOccurrence(pov: seq<byte>, i: nat) returns (f: nat)
    requires OccursAt(pov, LegacyDtd(), i)
    ensures Find(pov, LegacyDtd()) == Some(f) && f <= i
  {
    ContainsIff(pov, LegacyDtd());
    f := Find(pov, LegacyDtd()).value;
  }

  lemma AtMostOnceLeavesNoLegacy(pov: seq<byte>)
    requires AtMostOnce(pov, LegacyDtd())
    ensures !Contains(CanonicalizePov(pov), LegacyDtd())
  {
    match Find(pov, LegacyDtd())
    case None =>
      if !Contains(pov, CanonicalDtd()) {
        PreambleAddsNoLegacy(pov);
      }
    case Some(i) =>
      PovFirstOccurrenceOnly(pov, i);
      ReplacementLeavesNoLegacy(pov, i, CanonicalizePov(pov));
      ContainsIff(CanonicalizePov(pov), LegacyDtd());
  }

  lemma PreambleAddsNoLegacy(pov: seq<byte>)
    requires !Contains(pov, LegacyDtd())
    ensures !Contains(Preamble() + pov, LegacyDtd())
  {
    ContainsIff(Preamble() + pov, LegacyDtd());
    ContainsIff(pov, LegacyDtd());
    PreambleAddsNoOccurrence(pov);
  }

  lemma PreambleAddsNoOccurrence(pov: seq<byte>)
    ensures forall k: nat :: OccursAt(Preamble() + pov, LegacyDtd(), k) ==> k >= 94 && OccursAt(pov, LegacyDtd(), k - 94)
  {
    var s := Preamble() + pov;
    PreambleBytes();
    forall k: nat | OccursAt(s, LegacyDtd(), k) ensures k >= 94 && OccursAt(pov, LegacyDtd(), k - 94) {
      NoLegacyInPreamble(pov, k);
      LegacyBytes();
      assert s[k..k + 32] == pov[k - 94..k - 94 + 32];
    }
  }

  lemma ReplacementLeavesNoLegacy(pov: seq<byte>, i: nat, c: seq<byte>)
    requires AtMostOnce(pov, LegacyDtd()) && OccursAt(pov, LegacyDtd(), i)
    requires c == pov[..i] + CanonicalDtd() + pov[i + 32..]
    ensures forall k: nat :: !OccursAt(c, LegacyDtd(), k)
  {
    forall k: nat | OccursAt(c, LegacyDtd(), k)
      ensures exists j: nat :: j != i && OccursAt(pov, LegacyDtd(), j)
    {
      ReplacementOccurrenceOrigin(pov, i, c, k);
    }
    SoleOccurrenceRemoved(pov, LegacyDtd(), i, c);
  }

  /** A legacy path in the rewritten PoV was already in the original, away
      from the replaced occurrence. */
  lemma ReplacementOccurrenceOrigin(pov: seq<byte>, i: nat, c: seq<byte>, k: nat)
    requires OccursAt(pov, LegacyDtd(), i) && c == pov[..i] + CanonicalDtd() + pov[i + 32..]
    requires OccursAt(c, LegacyDtd(), k)
    ensures exists j: nat :: j != i && OccursAt(pov, LegacyDtd(), j)
  {
    NoLegacyAcrossCanonical(pov[..i], pov[i + 32..], k);
    if k + 32 <= i {
      assert c[k..k + 32] == pov[k..k + 32];
      assert OccursAt(pov, LegacyDtd(), k);
    } else {
      assert c[k..k + 32] == pov[k + 2..k + 34];
      assert OccursAt(pov, LegacyDtd(), k + 2);
    }
  }

  /** If every occurrence in c implies an occurrence in s other than the one
      at i, and s has only that one, then c has none. */
  lemma SoleOccurrenceRemoved(s: seq<byte>, t: seq<byte>, i: nat, c: seq<byte>)
    requires AtMostOnce(s, t) && OccursAt(s, t, i)
    requires forall k: nat :: OccursAt(c, t, k) ==> exists j: nat :: j != i && OccursAt(s, t, j)
    ensures forall k: nat :: !OccursAt(c, t, k)
  {
  }

  // ---------------------------------------------------------------------------
  // CB List ID

  function Min(a: nat, b: nat): nat
  {
    if a <= b then a else b
  }

  /** `"".join(chr(ord(x) ^ ord(y)) for x, y in zip(a, b))`: byte-wise XOR,
      cut to the shorter operand. */
  function ZipXor(a: seq<byte>, b: seq<byte>): (r: seq<byte>)
    ensures |r| == Min(|a|, |b|)
    ensures forall i :: 0 <= i < |r| ==> r[i] == a[i] ^ b[i]
  {
    seq(Min(|a|, |b|), i requires 0 <= i < Min(|a|, |b|) => a[i] ^ b[i])
  }

  lemma ZipXorCommutes(a: seq<byte>, b: seq<byte>)
    ensures ZipXor(a, b) == ZipXor(b, a)
  {
  }

  lemma ZipXorAssociates(a: seq<byte>, b: seq<byte>, c: seq<byte>)
    ensures ZipXor(ZipXor(a, b), c) == ZipXor(a, ZipXor(b, c))
  {
  }

  /** The CB List ID of a list of digests: the first digest, XORed in turn with
      each later one. It is as long as the shortest digest. */
  function XorFold(ds: seq<seq<byte>>): (r: seq<byte>)
    requires |ds| >= 1
    ensures forall j :: 0 <= j < |ds| ==> |r| <= |ds[j]|
    ensures exists j :: 0 <= j < |ds| && |r| == |ds[j]|
  {
    if |ds| == 1 then ds[0]
    else
      var front := XorFold(ds[..|ds| - 1]);
      assert forall j :: 0 <= j < |ds| - 1 ==> ds[..|ds| - 1][j] == ds[j];
      ZipXor(front, ds[|ds| - 1])
  }

  /** The fold's last step: everything before the last digest, XORed with it. */
  lemma XorFoldLast(ds: seq<seq<byte>>)
    requires |ds| >= 2
    ensures XorFold(ds) == ZipXor(XorFold(ds[..|ds| - 1]), ds[|ds| - 1])
  {
  }

  /** Two digests XORed into an accumulator can be taken in either order. */
  lemma ZipXorSwapLast(f: seq<byte>, a: seq<byte>, b: seq<byte>)
    ensures ZipXor(ZipXor(f, a), b) == ZipXor(ZipXor(f, b), a)
  {
    ZipXorAssociates(f, a, b);
    ZipXorCommutes(a, b);
    ZipXorAssociates(f, b, a);
  }

  /** Any one digest can be taken out of the fold and XORed in last. */
  lemma {:induction false} XorFoldRemove(ds: seq<seq<byte>>, k: nat)
    requires |ds| >= 2 && k < |ds|
    ensures XorFold(ds) == ZipXor(XorFold(ds[..k] + ds[k + 1..]), ds[k])
  {
    var n := |ds|;
    if k == n - 1 {
      assert ds[..k] + ds[k + 1..] == ds[..n - 1];
      XorFoldLast(ds);
    } else if n == 2 {
      assert ds[..k] + ds[k + 1..] == [ds[1]];
      assert ds[..1] == [ds[0]];
      XorFoldLast(ds);
      ZipXorCommutes(ds[0], ds[1]);
    } else {
      var front := ds[..n - 1];
      XorFoldRemove(front, k);
      var rest' := front[..k] + front[k + 1..];
      var rest := ds[..k] + ds[k + 1..];
      assert rest[..|rest| - 1] == rest' && rest[|rest| - 1] == ds[n - 1] && front[k] == ds[k];
      XorFoldLast(ds);
      XorFoldLast(rest);
      ZipXorSwapLast(XorFold(rest'), ds[k], ds[n - 1]);
    }
  }

  lemma MultisetRemove(ds: seq<seq<byte>>, k: nat)
    requires k < |ds|
    ensures multiset(ds[..k] + ds[k + 1..]) == multiset(ds) - multiset{ds[k]}
  {
    assert ds == ds[..k] + [ds[k]] + ds[k + 1..];
  }

  /** Two lists with the same elements: the last of one sits somewhere in the
      other, and the lists without those entries still have the same elements. */
  lemma MatchLast(ds: seq<seq<byte>>, es: seq<seq<byte>>) returns (k: nat)
    requires |es| >= 1 && multiset(ds) == multiset(es)
    ensures |ds| == |es| && k < |ds| && ds[k] == es[|es| - 1]
    ensures multiset(ds[..k] + ds[k + 1..]) == multiset(es[..|es| - 1])
  {
    assert |es| == |ds| by { assert |multiset(es)| == |multiset(ds)|; }
    var n := |es|;
    var last := es[n - 1];
    assert last in ds by { assert last in multiset(es); }
    k :| 0 <= k < |ds| && ds[k] == last;
    MultisetRemove(ds, k);
    assert es == es[..n - 1] + [last];
  }

  /** The CB List ID does not depend on the order of the digests. */
  lemma {:induction false} XorFoldPermutation(ds: seq<seq<byte>>, es: seq<seq<byte>>)
    requires |ds| >= 1 && multiset(ds) == multiset(es)
    ensures XorFold(ds) == XorFold(es)
    decreases |ds|
  {
    var k := MatchLast(ds, es);
    if |ds| == 1 {
      assert ds == [ds[0]] && es == [es[0]];
    } else {
      var rest := ds[..k] + ds[k + 1..];
      XorFoldPermutation(rest, es[..|es| - 1]);
      XorFoldRemove(ds, k);
      XorFoldLast(es);
    }
  }

  /** The identifier's known weakness: a digest listed twice cancels to zeros. */
  lemma XorFoldPairCancels(d: seq<byte>)
    ensures XorFold([d, d]) == seq(|d|, _ => 0)
  {
    assert [d, d][..1] == [d];
  }

  /** The loop at lines 243-247: start from the first digest and XOR in the
      rest in order. */
  method CbListId(hashlist: seq<seq<byte>>) returns (cbId: seq<byte>)
    requires |hashlist| >= 1
    ensures cbId == XorFold(hashlist)
    ensures |hashlist| == 1 ==> cbId == hashlist[0]
    ensures (forall j :: 0 <= j < |hashlist| ==> |hashlist[j]| == 32) ==> |cbId| == 32
  {
    cbId := hashlist[0];
    assert hashlist[..1] == [hashlist[0]];
    for i := 1 to |hashlist|
      invariant cbId == XorFold(hashlist[..i])
    {
      assert hashlist[..i + 1][..i] == hashlist[..i];
      cbId := ZipXor(cbId, hashlist[i]);
    }
    assert hashlist[..|hashlist|] == hashlist;
  }
}
