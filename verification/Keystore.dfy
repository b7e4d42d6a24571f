/**
 Trust store entries, and what parseJKS and encodeJKS of
 pkg/javakeystore/javakeystore.go do with them. Certificates are their DER
 bytes; `parses` says which bytes x509.ParseCertificate accepts, and SHA-1 is
 any function to digests.
 */
module Keystore {
  import opened Bytes
  import opened Dedupe
  import opened JksFormat
  import opened JksLayout
  import opened Options

  /** A point in time: milliseconds since 1970 and the nanoseconds above them. */
  datatype Time = Time(millis: int64, nanos: nat)

  /** Go's zero time, 1 January of year 1. */
  const ZERO_MILLIS: int64 := -62_135_596_800_000
  const ZERO_TIME := Time(ZERO_MILLIS, 0)

  datatype Entry = Entry(alias: bytes, time: Time, cert: Option<bytes>)
  type Clock = nat -> Time
  type Sha1 = bytes -> digest

  datatype Format = FormatUnknown | FormatJKS | FormatPKCS12

  /** The format Parse chooses by the first bytes. */
  function DetectFormat(data: bytes): Format {
    if |data| >= 4 && FromBigEndian(data[..4]) == JKS_MAGIC then FormatJKS
    else if |data| > 0 && data[0] == 0x30 then FormatPKCS12
    else FormatUnknown
  }

  /** By the bytes: a JKS store's magic number, or the tag of a DER sequence. */
  lemma FormatExactly(data: bytes)
    ensures DetectFormat(data) == FormatJKS <==> |data| >= 4 && data[..4] == [0xFE, 0xED, 0xFE, 0xED]
    ensures DetectFormat(data) == FormatPKCS12
            <==> |data| > 0 && data[0] == 48 && !(|data| >= 4 && data[..4] == [0xFE, 0xED, 0xFE, 0xED])
  {
    if |data| >= 4 {
      MagicBytes();
      WordSizes();
      ToFromBigEndian(data[..4]);
      FromToBigEndian(JKS_MAGIC, 4);
    }
  }

  const PASSWORD_UTF16: bytes :=
    [0, 99, 0, 104, 0, 97, 0, 110, 0, 103, 0, 101, 0, 105, 0, 116]
  const DIGEST_SALT: bytes := Ascii("Mighty Aphrodite")

  /** jksDigest. */
  function JksDigest(sha1: Sha1, data: bytes): digest {
    sha1(PASSWORD_UTF16 + DIGEST_SALT + data)
  }

  /** What is hashed before the stream: the password "changeit" in UTF-16, and the format's own salt. */
  predicate IsDigestKey(key: bytes) {
    && |key| == 32
    && (forall i :: 0 <= i < 8 ==> key[2 * i] == 0 && key[2 * i + 1] as int == "changeit"[i] as int)
    && (forall i :: 0 <= i < 16 ==> key[16 + i] as int == "Mighty Aphrodite"[i] as int)
  }

  /** A digest of a stream as keytool checks it. */
  ghost predicate IsDigestOf(sha1: Sha1, stream: bytes, d: bytes) {
    exists key :: IsDigestKey(key) && d == sha1(key + stream)
  }

  lemma AsciiAt(s: string, i: nat)
    requires forall k :: 0 <= k < |s| ==> s[k] as int < 128
    requires i < |s|
    ensures Ascii(s)[i] as int == s[i] as int
  {
    if i > 0 {
      AsciiAt(s[1..], i - 1);
    }
  }

  lemma DigestKeyParts(password: bytes, salt: bytes)
    requires |password| == 16 && |salt| == 16
    requires forall i :: 0 <= i < 8 ==> password[2 * i] == 0 && password[2 * i + 1] as int == "changeit"[i] as int
    requires forall i :: 0 <= i < 16 ==> salt[i] as int == "Mighty Aphrodite"[i] as int
    ensures IsDigestKey(password + salt)
  {
  }

  lemma OwnDigestKey()
    ensures IsDigestKey(PASSWORD_UTF16 + DIGEST_SALT)
  {
    hide IsDigestKey;
    forall i | 0 <= i < 16 ensures DIGEST_SALT[i] as int == "Mighty Aphrodite"[i] as int {
      AsciiAt("Mighty Aphrodite", i);
    }
    forall i | 0 <= i < 8
      ensures PASSWORD_UTF16[2 * i] == 0 && PASSWORD_UTF16[2 * i + 1] as int == "changeit"[i] as int {
      PasswordAt(i);
    }
    DigestKeyParts(PASSWORD_UTF16, DIGEST_SALT);
  }

  lemma PasswordAt(i: nat)
    requires i < 8
    ensures PASSWORD_UTF16[2 * i] == 0 && PASSWORD_UTF16[2 * i + 1] as int == "changeit"[i] as int
  {
    assert i == 0 || i == 1 || i == 2 || i == 3 || i == 4 || i == 5 || i == 6 || i == 7;
  }

  lemma DigestWith(sha1: Sha1, stream: bytes, d: bytes, key: bytes)
    requires IsDigestKey(key)
    ensures IsDigestOf(sha1, stream, d) <==> d == sha1(key + stream)
  {
    hide IsDigestKey;
    forall other | IsDigestKey(other) ensures other == key {
      OneDigestKey(other, key);
    }
  }

  /** There is one such digest, and it is the encoder's. */
  lemma DigestExactly(sha1: Sha1, stream: bytes, d: bytes)
    ensures IsDigestOf(sha1, stream, d) <==> d == JksDigest(sha1, stream)
  {
    hide IsDigestKey, IsDigestOf;
    OwnDigestKey();
    DigestWith(sha1, stream, d, PASSWORD_UTF16 + DIGEST_SALT);
  }

  lemma OneDigestKey(a: bytes, b: bytes)
    requires IsDigestKey(a) && IsDigestKey(b)
    ensures a == b
  {
    forall k | 0 <= k < 32 ensures a[k] == b[k] {
      if k >= 16 {
        assert a[16 + (k - 16)] as int == "Mighty Aphrodite"[k - 16] as int == b[16 + (k - 16)] as int;
      } else {
        assert a[2 * (k / 2)] == 0 == b[2 * (k / 2)];
        assert a[2 * (k / 2) + 1] as int == "changeit"[k / 2] as int == b[2 * (k / 2) + 1] as int;
      }
    }
  }

  /** entryTime: an unset time becomes the time of encoding. */
  function EntryTime(t: Time, now: Time): Time {
    if t == ZERO_TIME then now else t
  }

  function Aliases(es: seq<Entry>): (a: seq<bytes>)
    ensures |a| == |es|
  {
    seq(|es|, i requires 0 <= i < |es| => es[i].alias)
  }

  predicate AllCerts(es: seq<Entry>) {
    forall i :: 0 <= i < |es| ==> es[i].cert.Some?
  }

  predicate AliasesFit(rs: seq<Record>) {
    forall i :: 0 <= i < |rs| ==> |rs[i].alias| <= MAX_UTF_LEN
  }

  /** What the i-th entry is written as; the clock's i-th reading stamps it if it has no time. */
  function RecordOf(e: Entry, alias: bytes, now: Time): Record {
    Record(alias, EntryTime(e.time, now).millis, X509, if e.cert.Some? then e.cert.value else [])
  }

  function RecordsOf(es: seq<Entry>, clock: Clock): (rs: seq<Record>)
    ensures |rs| == |es|
  {
    var aliases := Deduped(Aliases(es), {});
    seq(|es|, i requires 0 <= i < |es| => RecordOf(es[i], aliases[i], clock(i)))
  }

  lemma RecordAt(es: seq<Entry>, clock: Clock, i: nat)
    requires i < |es|
    ensures RecordsOf(es, clock)[i] == RecordOf(es[i], Deduped(Aliases(es), {})[i], clock(i))
  {
  }

  /** encodeJKS: an entry without a certificate is reported before a string that is too long. */
  function EncodeJks(es: seq<Entry>, clock: Clock, sha1: Sha1): Result<bytes> {
    var rs := RecordsOf(es, clock);
    if !AllCerts(es) then Err(NoCertificate)
    else if !AliasesFit(rs) then Err(StringTooLong)
    else
      var stream := PrintStream(JKS_MAGIC, JKS_VERSION, rs);
      Ok(stream + JksDigest(sha1, stream))
  }

  /** Every entry has a certificate, and the unique aliases fit their 16-bit length. */
  predicate Encodable(es: seq<Entry>) {
    AllCerts(es) && forall i :: 0 <= i < |es| ==> |Deduped(Aliases(es), {})[i]| <= MAX_UTF_LEN
  }

  lemma EncodesExactly(es: seq<Entry>, clock: Clock, sha1: Sha1)
    ensures AliasesFit(RecordsOf(es, clock)) <==> forall i :: 0 <= i < |es| ==>
        |Deduped(Aliases(es), {})[i]| <= MAX_UTF_LEN
    ensures EncodeJks(es, clock, sha1).Ok? <==> Encodable(es)
  {
    hide PrintStream, JksDigest, Deduped, RecordsOf, AllCerts;
    var rs, unique := RecordsOf(es, clock), Deduped(Aliases(es), {});
    forall i | 0 <= i < |es| ensures rs[i].alias == unique[i] {
      RecordAt(es, clock, i);
    }
    if forall i :: 0 <= i < |es| ==> |unique[i]| <= MAX_UTF_LEN {
      forall i | 0 <= i < |rs| ensures |rs[i].alias| <= MAX_UTF_LEN {
        assert |unique[i]| <= MAX_UTF_LEN;
      }
    } else {
      var i :| 0 <= i < |es| && |unique[i]| > MAX_UTF_LEN;
      assert |rs[i].alias| > MAX_UTF_LEN;
    }
  }

  /** Unique aliases grow by no more than the longest suffix that so many entries can need. */
  lemma {:induction false} DedupedLength(aliases: seq<bytes>, seen: set<bytes>, n: nat, i: nat)
    requires |seen| + |aliases| <= n && i < |aliases|
    ensures |Deduped(aliases, seen)[i]| <= |Base(aliases[i])| + 1 + |Decimal(n)|
  {
    var free := FreeAlias(aliases[0], seen);
    if i == 0 {
      DecimalLength(FirstFree(Base(aliases[0]), seen, 1), n);
    } else {
      DedupedLength(aliases[1..], seen + {free}, n, i - 1);
    }
  }

  /**
   What a caller can rely on: entries with certificates are encoded if no alias
   comes within a suffix's length of the 16-bit limit; and when aliases are
   distinct and not empty, if and only if each is within the limit itself.
   */
  lemma EncodesWithShortAliases(es: seq<Entry>, clock: Clock, sha1: Sha1)
    ensures !AllCerts(es) <==> EncodeJks(es, clock, sha1) == Err(NoCertificate)
    ensures AllCerts(es) && (forall i :: 0 <= i < |es| ==> |Base(es[i].alias)| + 1 + |Decimal(|es|)| <= 65535)
            ==> EncodeJks(es, clock, sha1).Ok?
    ensures AllCerts(es) && Distinct(Aliases(es)) && NonEmpty(Aliases(es))
            ==> (EncodeJks(es, clock, sha1).Ok? <==> forall i :: 0 <= i < |es| ==> |es[i].alias| <= 65535)
  {
    hide PrintStream, JksDigest, Deduped, RecordsOf, AliasesFit, Decimal, Base;
    EncodesExactly(es, clock, sha1);
    forall i | 0 <= i < |es| ensures |Deduped(Aliases(es), {})[i]| <= |Base(es[i].alias)| + 1 + |Decimal(|es|)| {
      DedupedLength(Aliases(es), {}, |es|, i);
    }
    DedupedIsSame(Aliases(es), {});
  }

  function EntryOf(r: Record): Entry {
    Entry(r.alias, Time(r.millis, 0), Some(r.der))
  }

  function EntriesOf(rs: seq<Record>): (es: seq<Entry>)
    ensures |es| == |rs|
  {
    seq(|rs|, i requires 0 <= i < |rs| => EntryOf(rs[i]))
  }

  /** parseJKS. */
  function ParseJks(data: bytes, parses: bytes -> bool): Result<seq<Entry>> {
    match ReadStore(data, MAX_ENTRIES, MAX_CERT_LEN, parses)
    case Err(e) => Err(e)
    case Ok(s) => Ok(EntriesOf(s.records))
  }

  /** The size limits of the reader. */
  ghost predicate WithinLimits(es: seq<Entry>, parses: bytes -> bool) {
    && |es| <= 65536
    && forall i :: 0 <= i < |es| ==>
         es[i].cert.Some? && |es[i].cert.value| <= 0x10_0000 && parses(es[i].cert.value)
  }

  /** Lengths a 32-bit length field can hold; beyond them encodeJKS truncates the length it writes. */
  ghost predicate FitsLengthFields(es: seq<Entry>) {
    && |es| < 0x1_0000_0000
    && forall i :: 0 <= i < |es| && es[i].cert.Some? ==> |es[i].cert.value| < 0x1_0000_0000
  }

  /** The store an encoding is. */
  function StoreOf(es: seq<Entry>, clock: Clock, sha1: Sha1): Store {
    var rs := RecordsOf(es, clock);
    Store(JKS_MAGIC, JKS_VERSION, rs, [], JksDigest(sha1, PrintStream(JKS_MAGIC, JKS_VERSION, rs)))
  }

  lemma EncodedIsPrinted(es: seq<Entry>, clock: Clock, sha1: Sha1)
    requires Encodable(es)
    ensures EncodeJks(es, clock, sha1) == Ok(PrintStore(StoreOf(es, clock, sha1)))
  {
    hide PrintStream, RecordsOf, JksDigest, EncodeJks, Encodable;
    EncodedIsStream(es, clock, sha1);
    var stream := PrintStream(JKS_MAGIC, JKS_VERSION, RecordsOf(es, clock));
    assert stream + [] == stream;
  }

  lemma EncodedIsStream(es: seq<Entry>, clock: Clock, sha1: Sha1)
    requires Encodable(es)
    ensures var stream := PrintStream(JKS_MAGIC, JKS_VERSION, RecordsOf(es, clock));
            EncodeJks(es, clock, sha1) == Ok(stream + JksDigest(sha1, stream))
  {
    hide PrintStream, RecordsOf, JksDigest, Encodable;
    EncodesExactly(es, clock, sha1);
  }

  /** An encoding ends in the digest that keytool and the JVM check, of all bytes before it. */
  lemma EncodedDigest(es: seq<Entry>, clock: Clock, sha1: Sha1)
    requires Encodable(es)
    ensures EncodeJks(es, clock, sha1).Ok?
    ensures var data := EncodeJks(es, clock, sha1).value;
            |data| >= 20 && IsDigestOf(sha1, data[..|data| - 20], data[|data| - 20..])
  {
    hide PrintStream, RecordsOf, JksDigest, Encodable, EncodeJks, IsDigestOf;
    EncodedIsStream(es, clock, sha1);
    var stream := PrintStream(JKS_MAGIC, JKS_VERSION, RecordsOf(es, clock));
    var data := EncodeJks(es, clock, sha1).value;
    assert data[..|data| - 20] == stream && data[|data| - 20..] == JksDigest(sha1, stream);
    DigestExactly(sha1, stream, JksDigest(sha1, stream));
  }

  lemma EncodedReads(es: seq<Entry>, clock: Clock, sha1: Sha1, maxEntries: nat, cap: nat, parses: bytes -> bool)
    requires Encodable(es) && maxEntries < 0x1_0000_0000 && cap < 0x1_0000_0000
    requires |es| <= maxEntries
    requires forall i :: 0 <= i < |es| && es[i].cert.Some? ==> |es[i].cert.value| <= cap && parses(es[i].cert.value)
    ensures EncodeJks(es, clock, sha1).Ok?
    ensures ReadStore(EncodeJks(es, clock, sha1).value, maxEntries, cap, parses) == Ok(StoreOf(es, clock, sha1))
  {
    hide PrintStream, ReadStore, EncodeJks, Deduped, PrintStore, JksDigest;
    EncodedIsPrinted(es, clock, sha1);
    var s := StoreOf(es, clock, sha1);
    forall r | r in s.records ensures Readable(r, s.version, cap, parses) {
      var i :| 0 <= i < |es| && s.records[i] == r;
      RecordAt(es, clock, i);
      assert |X509| == 5;
    }
    assert |s.digest| == DIGEST_SIZE;
    ReadPrintedStore(s, maxEntries, cap, parses);
  }

  /**
   Round trip: entries that each have a certificate, and no unique alias that is
   too long, are encoded, and parsing the encoding gives back the entries with their unique
   aliases, their milliseconds, their certificates and their order. An encoding
   is parsed at all exactly when it is within the reader's limits.
   */
  lemma RoundTrip(es: seq<Entry>, clock: Clock, sha1: Sha1, parses: bytes -> bool)
    requires Encodable(es) && FitsLengthFields(es)
    ensures EncodeJks(es, clock, sha1).Ok?
    ensures var parsed := ParseJks(EncodeJks(es, clock, sha1).value, parses);
            && (WithinLimits(es, parses) ==> parsed == Ok(EntriesOf(RecordsOf(es, clock))))
            && (parsed.Ok? <==> WithinLimits(es, parses))
  {
    hide ReadStore, PrintStream, EncodeJks, Deduped, PrintStore, JksDigest;
    EncodedIsPrinted(es, clock, sha1);
    var data := EncodeJks(es, clock, sha1).value;
    if WithinLimits(es, parses) {
      EncodedReads(es, clock, sha1, MAX_ENTRIES, MAX_CERT_LEN, parses);
    }
    if ParseJks(data, parses).Ok? {
      PrintReadStore(data, MAX_ENTRIES, MAX_CERT_LEN, parses);
      var s := ReadStore(data, MAX_ENTRIES, MAX_CERT_LEN, parses).value;
      // with no limits to speak of, the bytes are read as only one store
      ReadPrintedStore(s, 0xFFFF_FFFF, 0xFFFF_FFFF, _ => true);
      EncodedReads(es, clock, sha1, 0xFFFF_FFFF, 0xFFFF_FFFF, _ => true);
      assert s == StoreOf(es, clock, sha1);
      forall i | 0 <= i < |es| ensures |es[i].cert.value| <= MAX_CERT_LEN && parses(es[i].cert.value) {
        RecordAt(es, clock, i);
        assert s.records[i] in s.records;
      }
    }
  }

  lemma WrittenAndRead(es: seq<Entry>, clock: Clock, i: nat)
    requires i < |es| && es[i].cert.Some?
    ensures EntriesOf(RecordsOf(es, clock))[i]
         == Entry(Deduped(Aliases(es), {})[i], Time(EntryTime(es[i].time, clock(i)).millis, 0), es[i].cert)
  {
    hide Deduped;
    RecordAt(es, clock, i);
  }

  /** Field by field: the unique alias, the milliseconds or the time of encoding, and the certificate. */
  ghost predicate ReadBackOf(es: seq<Entry>, clock: Clock, parsed: seq<Entry>) {
    |parsed| == |es|
    && forall i :: 0 <= i < |es| ==>
         && parsed[i].alias == Deduped(Aliases(es), {})[i] && parsed[i].cert == es[i].cert
         && parsed[i].time
            == Time(if es[i].time == Time(-62_135_596_800_000, 0) then clock(i).millis else es[i].time.millis, 0)
  }

  lemma RecordsReadBack(es: seq<Entry>, clock: Clock, parses: bytes -> bool)
    requires WithinLimits(es, parses)
    ensures ReadBackOf(es, clock, EntriesOf(RecordsOf(es, clock)))
  {
    hide Deduped, EntriesOf, RecordsOf, RecordOf;
    forall i | 0 <= i < |es|
      ensures EntriesOf(RecordsOf(es, clock))[i]
           == Entry(Deduped(Aliases(es), {})[i], Time(EntryTime(es[i].time, clock(i)).millis, 0), es[i].cert)
    {
      WrittenAndRead(es, clock, i);
    }
  }

  /** What is read back of every encoding within the reader's limits. */
  lemma RoundTripFields(es: seq<Entry>, clock: Clock, sha1: Sha1, parses: bytes -> bool, data: bytes)
    requires Encodable(es) && FitsLengthFields(es) && WithinLimits(es, parses) && EncodeJks(es, clock, sha1) == Ok(data)
    ensures ParseJks(data, parses).Ok? && ReadBackOf(es, clock, ParseJks(data, parses).value)
  {
    hide *;
    RoundTrip(es, clock, sha1, parses);
    RecordsReadBack(es, clock, parses);
  }

  /** Two entry lists with the same entry stream are written as the same records. */
  lemma StreamsAreUnique(es: seq<Entry>, fs: seq<Entry>, clock: Clock, clock': Clock, sha1: Sha1)
    requires Encodable(es) && Encodable(fs)
    requires FitsLengthFields(es) && FitsLengthFields(fs)
    ensures EncodeJks(es, clock, sha1).Ok? && EncodeJks(fs, clock', sha1).Ok?
    ensures var a, b := EncodeJks(es, clock, sha1).value, EncodeJks(fs, clock', sha1).value;
            a[..|a| - DIGEST_SIZE] == b[..|b| - DIGEST_SIZE] ==> RecordsOf(es, clock) == RecordsOf(fs, clock')
  {
    hide ReadStore, PrintStream, EncodeJks, RecordsOf, JksDigest, Encodable, Deduped;
    EncodedReads(es, clock, sha1, 0xFFFF_FFFF, 0xFFFF_FFFF, _ => true);
    EncodedReads(fs, clock', sha1, 0xFFFF_FFFF, 0xFFFF_FFFF, _ => true);
    EncodedIsStream(es, clock, sha1);
    EncodedIsStream(fs, clock', sha1);
    var a, b := EncodeJks(es, clock, sha1).value, EncodeJks(fs, clock', sha1).value;
    var stream, stream' := PrintStream(JKS_MAGIC, JKS_VERSION, RecordsOf(es, clock)),
      PrintStream(JKS_MAGIC, JKS_VERSION, RecordsOf(fs, clock'));
    assert a[..|a| - DIGEST_SIZE] == stream && b[..|b| - DIGEST_SIZE] == stream';
    if stream == stream' {
      assert a == b;
    }
  }

  // ----- the converse: which stores are rewritten byte for byte

  ghost predicate ZeroTimesKept(rs: seq<Record>, clock: Clock) {
    forall i :: 0 <= i < |rs| && rs[i].millis == ZERO_MILLIS ==> clock(i).millis == ZERO_MILLIS
  }

  function RecordAliases(rs: seq<Record>): (a: seq<bytes>)
    ensures |a| == |rs|
  {
    seq(|rs|, i requires 0 <= i < |rs| => rs[i].alias)
  }

  /** What in a store the encoder would write in the same way. */
  ghost predicate Canonical(s: Store, clock: Clock, sha1: Sha1) {
    && s.version == 2
    && (forall i :: 0 <= i < |s.records| ==> s.records[i].ctype == X509)
    && Distinct(RecordAliases(s.records)) && NonEmpty(RecordAliases(s.records))
    && ZeroTimesKept(s.records, clock)
    && s.rest == []
    && IsDigestOf(sha1, PrintStream(s.magic, s.version, s.records), s.digest)
  }

  lemma RewrittenRecords(rs: seq<Record>, clock: Clock)
    ensures RecordsOf(EntriesOf(rs), clock) == rs
       <==> (forall i :: 0 <= i < |rs| ==> rs[i].ctype == X509)
            && Distinct(RecordAliases(rs)) && NonEmpty(RecordAliases(rs)) && ZeroTimesKept(rs, clock)
  {
    var es := EntriesOf(rs);
    var ts := RecordsOf(es, clock);
    var aliases := RecordAliases(rs);
    assert Aliases(es) == aliases;
    DedupedIsSame(aliases, {});
    var deduped := Deduped(aliases, {});
    forall i | 0 <= i < |rs|
      ensures ts[i] == rs[i]
         <==> deduped[i] == aliases[i] && rs[i].ctype == X509
              && (rs[i].millis == ZERO_MILLIS ==> clock(i).millis == ZERO_MILLIS)
    {
      assert ts[i] == RecordOf(EntryOf(rs[i]), deduped[i], clock(i));
    }
    if ts == rs {
      assert deduped == aliases;
    }
  }

  /**
   Converse: re-encoding the entries of an accepted JKS file gives the file back
   byte for byte exactly when the file is canonical.
   */
  lemma ReencodesExactly(data: bytes, clock: Clock, sha1: Sha1, parses: bytes -> bool)
    requires ReadStore(data, MAX_ENTRIES, MAX_CERT_LEN, parses).Ok?
    requires ReadStore(data, MAX_ENTRIES, MAX_CERT_LEN, parses).value.magic == JKS_MAGIC
    ensures var s := ReadStore(data, MAX_ENTRIES, MAX_CERT_LEN, parses).value;
            EncodeJks(EntriesOf(s.records), clock, sha1) == Ok(data) <==> Canonical(s, clock, sha1)
  {
    hide ReadStore, PrintStream, Deduped, JksDigest, IsDigestOf;
    PrintReadStore(data, MAX_ENTRIES, MAX_CERT_LEN, parses);
    var s := ReadStore(data, MAX_ENTRIES, MAX_CERT_LEN, parses).value;
    DigestExactly(sha1, PrintStream(s.magic, s.version, s.records), s.digest);
    var es := EntriesOf(s.records);
    RewrittenRecords(s.records, clock);
    forall i | 0 <= i < |es|
      ensures es[i].cert == Some(s.records[i].der) && Readable(s.records[i], s.version, MAX_CERT_LEN, parses) {
      assert s.records[i] in s.records;
    }
    EncodesExactly(es, clock, sha1);
    if EncodeJks(es, clock, sha1) == Ok(data) {
      EncodedReads(es, clock, sha1, MAX_ENTRIES, MAX_CERT_LEN, parses);
      assert s == StoreOf(es, clock, sha1);
    }
    if Canonical(s, clock, sha1) {
      assert RecordsOf(es, clock) == s.records;
      EncodedIsPrinted(es, clock, sha1);
    }
  }
}
