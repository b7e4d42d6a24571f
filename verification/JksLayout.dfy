/**
 The JKS format by its byte positions: where each field of a file stands, and what
 the reader says of a file that is not as it should be. Nothing here is said in
 terms of how the fields are printed or read.
 */
module JksLayout {
  import opened Bytes
  import opened Options
  import opened JksFormat

  /** The number that n bytes at position i stand for, most significant byte first. */
  function WordAt(s: bytes, i: nat, n: nat): nat
    requires i + n <= |s|
  {
    if n == 0 then 0 else WordAt(s, i, n - 1) * 256 + s[i + n - 1] as nat
  }

  lemma {:induction false} WordIsRead(s: bytes, i: nat, n: nat)
    requires i + n <= |s|
    ensures WordAt(s, i, n) == FromBigEndian(s[i..i + n])
  {
    if n > 0 {
      WordIsRead(s, i, n - 1);
      assert s[i..i + n][..n - 1] == s[i..i + n - 1];
    }
  }

  lemma WordIsPrinted(s: bytes, i: nat, n: nat, v: nat)
    requires i + n <= |s| && v < Pow256(n) && s[i..i + n] == ToBigEndian(v, n)
    ensures WordAt(s, i, n) == v
  {
    WordIsRead(s, i, n);
    FromToBigEndian(v, n);
  }

  /**
   A trusted-certificate entry of a version 2 store: tag 2, alias, milliseconds in
   two's complement, certificate type and certificate, each text and the
   certificate after its length.
   */
  lemma RecordLayout(r: Record)
    requires |r.alias| < 0x1_0000 && |r.ctype| < 0x1_0000 && |r.der| < 0x1_0000_0000
    ensures var p, a, t := PrintRecord(r, 2), |r.alias|, |r.ctype|;
            && |p| == 20 + a + t + |r.der|
            && WordAt(p, 0, 4) == 2
            && WordAt(p, 4, 2) == a && p[6..6 + a] == r.alias
            && WordAt(p, 6 + a, 8) == (if r.millis < 0 then r.millis + 0x1_0000_0000_0000_0000 else r.millis)
            && WordAt(p, 14 + a, 2) == t && p[16 + a..16 + a + t] == r.ctype
            && WordAt(p, 16 + a + t, 4) == |r.der| && p[20 + a + t..] == r.der
  {
    hide ToBigEndian, FromBigEndian, WordAt;
    WordSizes();
    var p, a, t := PrintRecord(r, 2), |r.alias|, |r.ctype|;
    var blob := ToBigEndian(|r.der|, 4) + r.der;
    var ctype := PrintUtf(r.ctype) + blob;
    var time := ToBigEndian(ToUint64(r.millis), 8) + ctype;
    assert p == ToBigEndian(2, 4) + (PrintUtf(r.alias) + time);
    WordField(p, 0, 4, 2, PrintUtf(r.alias) + time);
    TextField(p, 4, r.alias, time);
    WordField(p, 6 + a, 8, ToUint64(r.millis), ctype);
    TextField(p, 14 + a, r.ctype, blob);
    WordField(p, 16 + a + t, 4, |r.der|, r.der);
  }

  /** A number at the front of what is left, and a text after its length. */
  lemma WordField(s: bytes, i: nat, n: nat, v: nat, tail: bytes)
    requires i <= |s| && s[i..] == ToBigEndian(v, n) + tail && v < Pow256(n)
    ensures i + n <= |s| && WordAt(s, i, n) == v && s[i + n..] == tail
  {
    assert s[i..][..n] == s[i..i + n] && s[i..][n..] == s[i + n..];
    WordIsPrinted(s, i, n, v);
  }

  lemma TextField(s: bytes, i: nat, text: bytes, tail: bytes)
    requires i <= |s| && s[i..] == PrintUtf(text) + tail && |text| < 0x1_0000
    ensures i + 2 + |text| <= |s| && WordAt(s, i, 2) == |text|
    ensures s[i + 2..i + 2 + |text|] == text && s[i + 2 + |text|..] == tail
  {
    hide ToBigEndian;
    WordSizes();
    assert PrintUtf(text) + tail == ToBigEndian(|text|, 2) + (text + tail);
    WordField(s, i, 2, |text|, text + tail);
    var rest := s[i + 2..];
    assert rest[..|text|] == s[i + 2..i + 2 + |text|] && rest[|text|..] == s[i + 2 + |text|..];
  }

  /** The head of a version 2 store, and its entries one after the other. */
  lemma StreamLayout(rs: seq<Record>)
    requires |rs| < 0x1_0000_0000
    ensures var p := PrintStream(JKS_MAGIC, JKS_VERSION, rs);
            && |p| >= 12 && p[..8] == [0xFE, 0xED, 0xFE, 0xED, 0, 0, 0, 2] && WordAt(p, 8, 4) == |rs|
            && p[12..] == PrintRecords(rs, 2)
    ensures X509 == [88, 46, 53, 48, 57]
  {
    hide ToBigEndian, PrintRecords;
    WordSizes();
    var p := PrintStream(JKS_MAGIC, JKS_VERSION, rs);
    MagicBytes();
    assert p[..4] == ToBigEndian(JKS_MAGIC, 4) && p[4..8] == ToBigEndian(JKS_VERSION, 4);
    assert p[..8] == p[..4] + p[4..8];
    assert p[8..12] == ToBigEndian(|rs|, 4) && p[12..] == PrintRecords(rs, 2);
    WordIsPrinted(p, 8, 4, |rs|);
  }

  lemma MagicBytes()
    ensures ToBigEndian(JKS_MAGIC, 4) == [0xFE, 0xED, 0xFE, 0xED]
    ensures ToBigEndian(JKS_VERSION, 4) == [0, 0, 0, 2]
  {
    assert ToBigEndian(0xFEED, 2) == [0xFE, 0xED];
    assert ToBigEndian(0, 2) == [0, 0];
  }

  lemma {:induction false} RecordsConcat(a: seq<Record>, b: seq<Record>, version: nat)
    ensures PrintRecords(a + b, version) == PrintRecords(a, version) + PrintRecords(b, version)
  {
    if a == [] {
      assert a + b == b;
    } else {
      assert (a + b)[1..] == a[1..] + b;
      RecordsConcat(a[1..], b, version);
    }
  }

  // ----- what the reader says of other files

  /** Tag, alias and time are all there. */
  predicate HeadThere(s: bytes) {
    |s| >= 6 && |s| >= 14 + WordAt(s, 4, 2)
  }

  /** So is the certificate type, in a version 2 store. */
  predicate TypeThere(s: bytes, version: nat) {
    HeadThere(s)
    && (version == 2 ==>
          && |s| >= 16 + WordAt(s, 4, 2)
          && |s| >= 16 + WordAt(s, 4, 2) + WordAt(s, 14 + WordAt(s, 4, 2), 2))
  }

  /** Where the certificate's length stands. */
  function BlobAt(s: bytes, version: nat): (i: nat)
    requires TypeThere(s, version)
    ensures i <= |s|
  {
    if version == 2 then 16 + WordAt(s, 4, 2) + WordAt(s, 14 + WordAt(s, 4, 2), 2) else 14 + WordAt(s, 4, 2)
  }

  predicate LengthThere(s: bytes, version: nat) {
    TypeThere(s, version) && |s| >= BlobAt(s, version) + 4
  }

  /** The certificate's length, as declared. */
  function CertLength(s: bytes, version: nat): nat
    requires LengthThere(s, version)
  {
    WordAt(s, BlobAt(s, version), 4)
  }

  predicate CertThere(s: bytes, version: nat) {
    LengthThere(s, version) && |s| >= BlobAt(s, version) + 4 + CertLength(s, version)
  }

  function CertOf(s: bytes, version: nat): bytes
    requires CertThere(s, version)
  {
    s[BlobAt(s, version) + 4..BlobAt(s, version) + 4 + CertLength(s, version)]
  }

  lemma HeadIsRead(s: bytes)
    ensures ReadHead(s).Some? <==> HeadThere(s)
    ensures HeadThere(s) ==>
              var a := WordAt(s, 4, 2);
              var u := WordAt(s, 6 + a, 8);
              && ReadHead(s).value.0.0 == WordAt(s, 0, 4) && ReadHead(s).value.0.1 == s[6..6 + a]
              && ReadHead(s).value.0.2 == (if u < 0x8000_0000_0000_0000 then u else u - 0x1_0000_0000_0000_0000)
              && ReadHead(s).value.1 == s[14 + a..]
  {
    hide FromBigEndian, WordAt;
    if |s| >= 6 {
      WordIsRead(s, 0, 4);
      WordIsRead(s, 4, 2);
      assert s[4..][..2] == s[4..6] && s[4..][2..] == s[6..];
      var a := WordAt(s, 4, 2);
      if |s| >= 14 + a {
        assert s[6..][..a] == s[6..6 + a] && s[6..][a..] == s[6 + a..];
        WordIsRead(s, 6 + a, 8);
        assert s[6 + a..][..8] == s[6 + a..14 + a] && s[6 + a..][8..] == s[14 + a..];
      }
    }
  }

  lemma TypeIsRead(s: bytes, version: nat)
    requires HeadThere(s)
    ensures var t := ReadType(s[14 + WordAt(s, 4, 2)..], version);
            && (t.Some? <==> TypeThere(s, version))
            && (t.Some? ==> t.value.1 == s[BlobAt(s, version)..])
  {
    hide FromBigEndian, WordAt;
    var i := 14 + WordAt(s, 4, 2);
    var rest := s[i..];
    if version == 2 && |s| >= i + 2 {
      WordIsRead(s, i, 2);
      assert rest[..2] == s[i..i + 2] && rest[2..] == s[i + 2..];
      var n := WordAt(s, i, 2);
      if |s| >= i + 2 + n {
        assert rest[2..][n..] == s[i + 2 + n..];
      }
    }
  }

  lemma BlobIsRead(s: bytes, version: nat, cap: nat)
    requires TypeThere(s, version)
    ensures var o := ReadBlob(s[BlobAt(s, version)..], cap);
            && (o == Err(CertTooLarge) <==> LengthThere(s, version) && CertLength(s, version) > cap)
            && (o.Ok? <==> CertThere(s, version) && CertLength(s, version) <= cap)
            && (o.Ok? ==> o.value == (CertOf(s, version), s[BlobAt(s, version) + 4 + CertLength(s, version)..]))
            && (o.Err? ==> o.error == CertTooLarge || o.error == Truncated)
  {
    hide FromBigEndian, WordAt, TypeThere, BlobAt;
    var i := BlobAt(s, version);
    var rest := s[i..];
    if |s| >= i + 4 {
      WordIsRead(s, i, 4);
      assert rest[..4] == s[i..i + 4] && rest[4..] == s[i + 4..];
      var n := WordAt(s, i, 4);
      if |s| >= i + 4 + n {
        assert rest[4..][..n] == s[i + 4..i + 4 + n] && rest[4..][n..] == s[i + 4 + n..];
      }
    }
  }

  /**
   One entry, and each way it can fail: a private key and an unknown tag are
   told as soon as tag, alias and time are there, a certificate that is too large
   before it is missed.
   */
  lemma RecordOutcomes(s: bytes, version: nat, cap: nat, parses: bytes -> bool)
    ensures var o := ReadRecord(s, version, cap, parses);
            var trusted := HeadThere(s) && WordAt(s, 0, 4) == 2;
            && (o == Err(PrivateKeyEntry) <==> HeadThere(s) && WordAt(s, 0, 4) == 1)
            && (o == Err(UnknownTag) <==> HeadThere(s) && WordAt(s, 0, 4) != 1 && WordAt(s, 0, 4) != 2)
            && (o == Err(CertTooLarge) <==> trusted && LengthThere(s, version) && CertLength(s, version) > cap)
            && (o == Err(BadCertificate)
                <==> trusted && CertThere(s, version) && CertLength(s, version) <= cap && !parses(CertOf(s, version)))
            && (o.Ok?
                <==> trusted && CertThere(s, version) && CertLength(s, version) <= cap && parses(CertOf(s, version)))
            && (o.Ok? ==> o.value.0.der == CertOf(s, version)
                          && o.value.1 == s[BlobAt(s, version) + 4 + CertLength(s, version)..])
            && (o.Err? ==> o.error in {PrivateKeyEntry, UnknownTag, CertTooLarge, BadCertificate, Truncated})
  {
    hide ReadHead, ReadType, ReadBlob, WordAt, BlobAt, CertOf, CertLength;
    HeadIsRead(s);
    if HeadThere(s) {
      TypeIsRead(s, version);
      if TypeThere(s, version) {
        BlobIsRead(s, version, cap);
      }
    }
  }

  /** The entries fail with the first that fails. */
  lemma {:induction false} RecordsFail(s: bytes, count: nat, version: nat, cap: nat, parses: bytes -> bool, e: JksError)
    ensures ReadRecords(s, count, version, cap, parses) == Err(e)
            <==> exists k :: 0 <= k < count && ReadRecords(s, k, version, cap, parses).Ok?
                   && ReadRecord(ReadRecords(s, k, version, cap, parses).value.1, version, cap, parses) == Err(e)
    decreases count
  {
    hide ReadRecord;
    if count > 0 {
      RecordsStep(s, count - 1, version, cap, parses);
      RecordsFail(s, count - 1, version, cap, parses, e);
    }
  }

  /** Reading one entry more, from the back. */
  lemma {:induction false} RecordsStep(s: bytes, k: nat, version: nat, cap: nat, parses: bytes -> bool)
    ensures var before, all := ReadRecords(s, k, version, cap, parses), ReadRecords(s, k + 1, version, cap, parses);
            match before
            case Err(e) => all == Err(e)
            case Ok((rs, rest)) =>
              match ReadRecord(rest, version, cap, parses)
              case Err(e) => all == Err(e)
              case Ok((r, s1)) => all == Ok((rs + [r], s1))
    decreases k
  {
    hide ReadRecord;
    match ReadRecord(s, version, cap, parses)
    case Err(_) =>
    case Ok((r, s1)) =>
      if k > 0 {
        RecordsStep(s1, k - 1, version, cap, parses);
        match ReadRecords(s1, k - 1, version, cap, parses)
        case Err(_) =>
        case Ok((rs, _)) =>
          assert forall last :: [r] + (rs + [last]) == ([r] + rs) + [last];
      } else {
        assert [r] + [] == [] + [r];
      }
  }

  /** The head of a file decides before any entry is looked at. */
  lemma StoreOutcomes(data: bytes, maxEntries: nat, cap: nat, parses: bytes -> bool)
    ensures var o := ReadStore(data, maxEntries, cap, parses);
            var versioned := |data| >= 32 && (WordAt(data, 4, 4) == 1 || WordAt(data, 4, 4) == 2);
            && (o == Err(TooShort) <==> |data| < 32)
            && (o == Err(BadVersion) <==> |data| >= 32 && !versioned)
            && (o == Err(TooManyEntries) <==> versioned && WordAt(data, 8, 4) > maxEntries)
            && (versioned && WordAt(data, 8, 4) <= maxEntries ==>
                  var all := ReadRecords(data[12..|data| - 20], WordAt(data, 8, 4), WordAt(data, 4, 4), cap, parses);
                  && (o.Ok? <==> all.Ok?) && (o.Err? ==> o == Err(all.error))
                  && (o.Ok? ==> o.value.records == all.value.0 && o.value.version == WordAt(data, 4, 4)
                                && o.value.magic == WordAt(data, 0, 4) && o.value.digest == data[|data| - 20..]))
  {
    hide ReadRecords, FromBigEndian, WordAt;
    if |data| >= 32 {
      var stream := data[..|data| - 20];
      WordIsRead(data, 0, 4);
      WordIsRead(data, 4, 4);
      WordIsRead(data, 8, 4);
      assert stream[..4] == data[0..4] && stream[4..][..4] == data[4..8] && stream[4..][4..][..4] == data[8..12];
      assert stream[4..][4..][4..] == data[12..|data| - 20];
      RecordsErrors(data[12..|data| - 20], WordAt(data, 8, 4), WordAt(data, 4, 4), cap, parses);
    }
  }

  lemma {:induction false} RecordsErrors(s: bytes, count: nat, version: nat, cap: nat, parses: bytes -> bool)
    ensures var o := ReadRecords(s, count, version, cap, parses);
            o.Err? ==> o.error in {PrivateKeyEntry, UnknownTag, CertTooLarge, BadCertificate, Truncated}
  {
    hide ReadRecord;
    if count > 0 {
      RecordOutcomes(s, version, cap, parses);
      if ReadRecord(s, version, cap, parses).Ok? {
        RecordsErrors(ReadRecord(s, version, cap, parses).value.1, count - 1, version, cap, parses);
      }
    }
  }
}
