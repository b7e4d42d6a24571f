/** Certificates by fingerprint: which of a list are missing from a set, as both merges in the hook decide it. */
module CertSets {
  import opened Bytes

  /** A SHA-256 fingerprint in hexadecimal. */
  type Fingerprint = f: bytes | |f| == 64 witness seq(64, _ => 48)
  type Sha256 = bytes -> Fingerprint

  /** The certificates to add: the first of each fingerprint not present. */
  function MissingCerts(add: seq<bytes>, present: set<bytes>, sha: Sha256): seq<bytes> {
    if add == [] then []
    else if sha(add[0]) in present then MissingCerts(add[1..], present, sha)
    else [add[0]] + MissingCerts(add[1..], present + {sha(add[0])}, sha)
  }

  function Fingerprints(ders: seq<bytes>, sha: Sha256): set<bytes> {
    set i | 0 <= i < |ders| :: sha(ders[i])
  }

  lemma FingerprintsCons(der: bytes, ders: seq<bytes>, sha: Sha256)
    ensures Fingerprints([der] + ders, sha) == {sha(der)} + Fingerprints(ders, sha)
  {
    var all := [der] + ders;
    assert all[0] == der && forall i :: 0 <= i < |ders| ==> all[i + 1] == ders[i];
    forall fp ensures fp in Fingerprints(all, sha) <==> fp in {sha(der)} + Fingerprints(ders, sha) {
      if fp in Fingerprints(ders, sha) {
        var i :| 0 <= i < |ders| && sha(ders[i]) == fp;
        assert sha(all[i + 1]) == fp;
      }
    }
  }

  ghost predicate DistinctFingerprints(ders: seq<bytes>, sha: Sha256) {
    forall i, j :: 0 <= i < j < |ders| ==> sha(ders[i]) != sha(ders[j])
  }

  /** The place of the first certificate with a fingerprint, or the end. */
  function FirstWith(ders: seq<bytes>, fp: bytes, sha: Sha256): (i: nat)
    ensures i <= |ders|
  {
    if ders == [] || sha(ders[0]) == fp then 0 else 1 + FirstWith(ders[1..], fp, sha)
  }

  /** What is added: one certificate of `add` for each of its fingerprints that is not present, and no other. */
  lemma {:induction false} MissingCertsAreExact(add: seq<bytes>, present: set<bytes>, sha: Sha256)
    ensures var m := MissingCerts(add, present, sha);
            && Fingerprints(m, sha) == Fingerprints(add, sha) - present
            && DistinctFingerprints(m, sha)
            && forall i :: 0 <= i < |m| ==> m[i] in add
  {
    if add != [] {
      var fp, rest := sha(add[0]), add[1..];
      assert add == [add[0]] + rest;
      FingerprintsCons(add[0], rest, sha);
      if fp in present {
        MissingCertsAreExact(rest, present, sha);
      } else {
        MissingCertsAreExact(rest, present + {fp}, sha);
        var n := MissingCerts(rest, present + {fp}, sha);
        FingerprintsCons(add[0], n, sha);
        forall i | 0 <= i < |n| ensures sha(n[i]) != fp {
          assert sha(n[i]) in Fingerprints(n, sha);
        }
      }
    }
  }

  /** Where the first certificate with the fingerprint of the j-th added one stands. */
  function Origin(add: seq<bytes>, present: set<bytes>, sha: Sha256, j: nat): nat
    requires j < |MissingCerts(add, present, sha)|
  {
    FirstWith(add, sha(MissingCerts(add, present, sha)[j]), sha)
  }

  lemma OriginShifts(add: seq<bytes>, present: set<bytes>, sha: Sha256, j: nat)
    requires add != []
    requires var seen := if sha(add[0]) in present then present else present + {sha(add[0])};
             j < |MissingCerts(add[1..], seen, sha)|
    ensures var shift := if sha(add[0]) in present then 0 else 1;
            var seen := if sha(add[0]) in present then present else present + {sha(add[0])};
            && j + shift < |MissingCerts(add, present, sha)|
            && MissingCerts(add, present, sha)[j + shift] == MissingCerts(add[1..], seen, sha)[j]
            && Origin(add, present, sha, j + shift) == 1 + Origin(add[1..], seen, sha, j)
  {
    var seen := if sha(add[0]) in present then present else present + {sha(add[0])};
    MissingIsAbsent(add[1..], seen, sha, j);
  }

  /** Of each fingerprint the first certificate is added, and these in the order they stand in. */
  lemma {:induction false} MissingCertsInOrder(add: seq<bytes>, present: set<bytes>, sha: Sha256, j: nat, k: nat)
    requires j <= k < |MissingCerts(add, present, sha)|
    ensures Origin(add, present, sha, j) < |add|
    ensures MissingCerts(add, present, sha)[j] == add[Origin(add, present, sha, j)]
    ensures j < k ==> Origin(add, present, sha, j) < Origin(add, present, sha, k)
    decreases |add|
  {
    hide Origin;
    var fp, rest := sha(add[0]), add[1..];
    if fp in present {
      OriginShifts(add, present, sha, j);
      OriginShifts(add, present, sha, k);
      MissingCertsInOrder(rest, present, sha, j, k);
    } else {
      var seen := present + {fp};
      FirstOrigin(add, present, sha);
      if k > 0 {
        OriginShifts(add, present, sha, k - 1);
      }
      if j > 0 {
        OriginShifts(add, present, sha, j - 1);
        MissingCertsInOrder(rest, seen, sha, j - 1, k - 1);
      }
    }
  }

  lemma FirstOrigin(add: seq<bytes>, present: set<bytes>, sha: Sha256)
    requires add != [] && sha(add[0]) !in present
    ensures Origin(add, present, sha, 0) == 0 && MissingCerts(add, present, sha)[0] == add[0]
  {
  }

  lemma MissingIsAbsent(add: seq<bytes>, present: set<bytes>, sha: Sha256, j: nat)
    requires j < |MissingCerts(add, present, sha)|
    ensures sha(MissingCerts(add, present, sha)[j]) !in present
  {
    MissingCertsAreExact(add, present, sha);
    var m := MissingCerts(add, present, sha);
    assert sha(m[j]) in Fingerprints(m, sha);
  }

  /** Nothing is missing exactly when every fingerprint is present. */
  lemma NothingMissing(add: seq<bytes>, present: set<bytes>, sha: Sha256)
    ensures MissingCerts(add, present, sha) == [] <==> Fingerprints(add, sha) <= present
  {
    MissingCertsAreExact(add, present, sha);
    var m := MissingCerts(add, present, sha);
    if m != [] {
      assert sha(m[0]) in Fingerprints(m, sha);
    }
  }
}
