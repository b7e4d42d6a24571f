/**
 The JKS store format of pkg/javakeystore/javakeystore.go: what a store says
 (records), how it is printed, and how bytes are read back into records.
 */
module JksFormat {
  import opened Bytes
  import opened Options

  const JKS_MAGIC: nat := 0xFEED_FEED
  const JKS_VERSION: nat := 2
  const TAG_PRIVATE_KEY: nat := 1
  const TAG_TRUSTED_CERT: nat := 2
  const X509: bytes := Ascii("X.509")
  const MAX_ENTRIES: nat := 65536
  const MAX_CERT_LEN: nat := 0x10_0000
  const MAX_UTF_LEN: nat := 0xFFFF
  const DIGEST_SIZE: nat := 20

  type int64 = x: int | -0x8000_0000_0000_0000 <= x < 0x8000_0000_0000_0000
  type digest = d: bytes | |d| == DIGEST_SIZE witness seq(DIGEST_SIZE, _ => 0)

  datatype JksError =
    TooShort | BadVersion | TooManyEntries | Truncated | PrivateKeyEntry | UnknownTag | CertTooLarge | BadCertificate
    | NoCertificate | StringTooLong | UnknownFormat
  datatype Result<+T> = Ok(value: T) | Err(error: JksError)

  /** One trusted-certificate entry as written; a version 1 store has no certificate type. */
  datatype Record = Record(alias: bytes, millis: int64, ctype: bytes, der: bytes)

  /** A whole store as read: `rest` are the bytes between the last entry and the digest. */
  datatype Store = Store(magic: nat, version: nat, records: seq<Record>, rest: bytes, digest: bytes)

  /** uint64(int64) and int64(uint64). */
  function ToUint64(m: int64): nat {
    if m < 0 then m + 0x1_0000_0000_0000_0000 else m
  }

  function ToInt64(u: nat): int64
    requires u < 0x1_0000_0000_0000_0000
  {
    if u < 0x8000_0000_0000_0000 then u else u - 0x1_0000_0000_0000_0000
  }

  // ----- printing

  function PrintUtf(s: bytes): bytes {
    ToBigEndian(|s|, 2) + s
  }

  function PrintRecord(r: Record, version: nat): bytes {
    ToBigEndian(TAG_TRUSTED_CERT, 4) + (PrintUtf(r.alias) + (ToBigEndian(ToUint64(r.millis), 8)
    + ((if version == 2 then PrintUtf(r.ctype) else []) + (ToBigEndian(|r.der|, 4) + r.der))))
  }

  function PrintRecords(records: seq<Record>, version: nat): bytes {
    if records == [] then [] else PrintRecord(records[0], version) + PrintRecords(records[1..], version)
  }

  /** The entry stream: everything the digest covers. */
  function PrintStream(magic: nat, version: nat, records: seq<Record>): bytes {
    ToBigEndian(magic, 4) + (ToBigEndian(version, 4) + (ToBigEndian(|records|, 4) + PrintRecords(records, version)))
  }

  // ----- reading, each reader taking its field off the front

  function ReadWord(s: bytes, n: nat): Option<(nat, bytes)> {
    if |s| < n then None else Some((FromBigEndian(s[..n]), s[n..]))
  }

  function ReadUtf(s: bytes): Option<(bytes, bytes)> {
    match ReadWord(s, 2)
    case None => None
    case Some((n, t)) => if |t| < n then None else Some((t[..n], t[n..]))
  }

  /** Tag, alias and time, which are read before the tag is looked at. */
  function ReadHead(s: bytes): (r: Option<((nat, bytes, int64), bytes)>) {
    match ReadWord(s, 4)
    case None => None
    case Some((tag, s1)) =>
      match ReadUtf(s1)
      case None => None
      case Some((alias, s2)) =>
        match ReadWord(s2, 8)
        case None => None
        case Some((u, s3)) =>
          WordBound(s2, 8);
          Some(((tag, alias, ToInt64(u)), s3))
  }

  function ReadBlob(s: bytes, cap: nat): Result<(bytes, bytes)> {
    match ReadWord(s, 4)
    case None => Err(Truncated)
    case Some((n, t)) =>
      if n > cap then Err(CertTooLarge)
      else if |t| < n then Err(Truncated)
      else Ok((t[..n], t[n..]))
  }

  /** The certificate type, in a version 2 store. */
  function ReadType(s: bytes, version: nat): Option<(bytes, bytes)> {
    if version == 2 then ReadUtf(s) else Some(([], s))
  }

  function ReadRecord(s: bytes, version: nat, cap: nat, parses: bytes -> bool): Result<(Record, bytes)> {
    match ReadHead(s)
    case None => Err(Truncated)
    case Some(((tag, alias, millis), s1)) =>
      if tag == TAG_PRIVATE_KEY then Err(PrivateKeyEntry)
      else if tag != TAG_TRUSTED_CERT then Err(UnknownTag)
      else
        match ReadType(s1, version)
        case None => Err(Truncated)
        case Some((ctype, s2)) =>
          match ReadBlob(s2, cap)
          case Err(e) => Err(e)
          case Ok((der, s3)) =>
            if !parses(der) then Err(BadCertificate) else Ok((Record(alias, millis, ctype, der), s3))
  }

  function ReadRecords(s: bytes, count: nat, version: nat, cap: nat, parses: bytes -> bool)
      : Result<(seq<Record>, bytes)>
  {
    if count == 0 then Ok(([], s))
    else
      match ReadRecord(s, version, cap, parses)
      case Err(e) => Err(e)
      case Ok((r, s1)) =>
        match ReadRecords(s1, count - 1, version, cap, parses)
        case Err(e) => Err(e)
        case Ok((rs, s2)) => Ok(([r] + rs, s2))
  }

  /** parseJKS, keeping what it skips: the magic number, the type strings, the bytes after the last entry, the
      digest. */
  function ReadStore(data: bytes, maxEntries: nat, cap: nat, parses: bytes -> bool): Result<Store> {
    if |data| < 12 + DIGEST_SIZE then Err(TooShort)
    else
      var stream := data[..|data| - DIGEST_SIZE];
      var magic, version, count :=
        FromBigEndian(stream[..4]), FromBigEndian(stream[4..][..4]), FromBigEndian(stream[4..][4..][..4]);
      if version != 1 && version != 2 then Err(BadVersion)
      else if count > maxEntries then Err(TooManyEntries)
      else
        match ReadRecords(stream[4..][4..][4..], count, version, cap, parses)
        case Err(e) => Err(e)
        case Ok((records, rest)) => Ok(Store(magic, version, records, rest, data[|data| - DIGEST_SIZE..]))
  }

  // ----- each reader undoes its printer, and accepts nothing else

  lemma WordBound(s: bytes, n: nat)
    requires |s| >= n
    ensures FromBigEndian(s[..n]) < Pow256(n)
    ensures n == 8 ==> FromBigEndian(s[..n]) < 0x1_0000_0000_0000_0000
  {
    ToFromBigEndian(s[..n]);
    WordSizes();
  }

  lemma ReadPrintedWord(v: nat, n: nat, rest: bytes)
    requires v < Pow256(n)
    ensures ReadWord(ToBigEndian(v, n) + rest, n) == Some((v, rest))
  {
    var w := ToBigEndian(v, n);
    FromToBigEndian(v, n);
    assert (w + rest)[..n] == w && (w + rest)[n..] == rest;
  }

  lemma PrintReadWord(s: bytes, n: nat)
    requires ReadWord(s, n).Some?
    ensures var (v, rest) := ReadWord(s, n).value; v < Pow256(n) && s == ToBigEndian(v, n) + rest
  {
    ToFromBigEndian(s[..n]);
    assert s == s[..n] + s[n..];
  }

  lemma ReadPrintedUtf(s: bytes, rest: bytes)
    requires |s| <= MAX_UTF_LEN
    ensures ReadUtf(PrintUtf(s) + rest) == Some((s, rest))
  {
    WordSizes();
    ReadPrintedWord(|s|, 2, s + rest);
    assert PrintUtf(s) + rest == ToBigEndian(|s|, 2) + (s + rest);
    assert (s + rest)[..|s|] == s && (s + rest)[|s|..] == rest;
  }

  lemma PrintReadUtf(s: bytes)
    requires ReadUtf(s).Some?
    ensures var (v, rest) := ReadUtf(s).value; |v| <= MAX_UTF_LEN && s == PrintUtf(v) + rest
  {
    WordSizes();
    PrintReadWord(s, 2);
    var (n, t) := ReadWord(s, 2).value;
    assert t == t[..n] + t[n..];
    assert s == PrintUtf(t[..n]) + t[n..];
  }

  /** What a record must satisfy to be read back: strings and certificate within their limits. */
  ghost predicate Readable(r: Record, version: nat, cap: nat, parses: bytes -> bool) {
    && |r.alias| <= MAX_UTF_LEN && |r.ctype| <= MAX_UTF_LEN && (version != 2 ==> r.ctype == [])
    && |r.der| <= cap && parses(r.der)
  }

  lemma ReadPrintedRecord(r: Record, version: nat, cap: nat, parses: bytes -> bool, rest: bytes)
    requires Readable(r, version, cap, parses) && cap < 0x1_0000_0000
    ensures ReadRecord(PrintRecord(r, version) + rest, version, cap, parses) == Ok((r, rest))
  {
    hide ReadWord, ReadUtf, ToBigEndian, FromBigEndian, PrintUtf;
    WordSizes();
    var blob := ToBigEndian(|r.der|, 4) + (r.der + rest);
    var typed := (if version == 2 then PrintUtf(r.ctype) else []) + blob;
    var timed := ToBigEndian(ToUint64(r.millis), 8) + typed;
    var named := PrintUtf(r.alias) + timed;
    assert PrintRecord(r, version) + rest == ToBigEndian(TAG_TRUSTED_CERT, 4) + named by {
      PrintRecordSplits(r, version, rest);
    }
    ReadPrintedWord(TAG_TRUSTED_CERT, 4, named);
    ReadPrintedUtf(r.alias, timed);
    ReadPrintedWord(ToUint64(r.millis), 8, typed);
    ReadPrintedUtf(r.ctype, blob);
    ReadPrintedWord(|r.der|, 4, r.der + rest);
    assert (r.der + rest)[..|r.der|] == r.der && (r.der + rest)[|r.der|..] == rest;
    assert [] + blob == blob;
  }

  lemma PrintRecordSplits(r: Record, version: nat, rest: bytes)
    ensures PrintRecord(r, version) + rest
         == ToBigEndian(TAG_TRUSTED_CERT, 4) + (PrintUtf(r.alias) + (ToBigEndian(ToUint64(r.millis), 8)
            + ((if version == 2 then PrintUtf(r.ctype) else []) + (ToBigEndian(|r.der|, 4) + (r.der + rest)))))
  {
  }

  lemma PrintReadRecord(s: bytes, version: nat, cap: nat, parses: bytes -> bool)
    requires ReadRecord(s, version, cap, parses).Ok?
    ensures var (r, rest) := ReadRecord(s, version, cap, parses).value;
            Readable(r, version, cap, parses) && s == PrintRecord(r, version) + rest
  {
    hide ReadWord, ReadUtf, ToBigEndian, FromBigEndian, PrintUtf;
    var (r, rest) := ReadRecord(s, version, cap, parses).value;
    PrintReadWord(s, 4);
    var s1 := ReadWord(s, 4).value.1;
    PrintReadUtf(s1);
    var s2 := ReadUtf(s1).value.1;
    PrintReadWord(s2, 8);
    WordSizes();
    var s3 := ReadWord(s2, 8).value.1;
    if version == 2 {
      PrintReadUtf(s3);
    }
    var s4 := ReadType(s3, version).value.1;
    PrintReadWord(s4, 4);
    var t := ReadWord(s4, 4).value.1;
    assert t == t[..|r.der|] + t[|r.der|..];
    PrintRecordSplits(r, version, rest);
    assert [] + s4 == s4;
  }

  lemma {:induction false} ReadPrintedRecords(rs: seq<Record>, version: nat, cap: nat, parses: bytes -> bool,
      rest: bytes)
    requires (forall r :: r in rs ==> Readable(r, version, cap, parses)) && cap < 0x1_0000_0000
    ensures ReadRecords(PrintRecords(rs, version) + rest, |rs|, version, cap, parses) == Ok((rs, rest))
  {
    hide ReadRecord, PrintRecord;
    if rs == [] {
      assert PrintRecords(rs, version) + rest == rest;
    } else {
      var tail := PrintRecords(rs[1..], version);
      ReadPrintedRecord(rs[0], version, cap, parses, tail + rest);
      assert PrintRecords(rs, version) + rest == PrintRecord(rs[0], version) + (tail + rest);
      ReadPrintedRecords(rs[1..], version, cap, parses, rest);
      assert rs == [rs[0]] + rs[1..];
    }
  }

  lemma {:induction false} PrintReadRecords(s: bytes, count: nat, version: nat, cap: nat, parses: bytes -> bool)
    requires ReadRecords(s, count, version, cap, parses).Ok?
    ensures var (rs, rest) := ReadRecords(s, count, version, cap, parses).value;
            && |rs| == count && s == PrintRecords(rs, version) + rest
            && forall r :: r in rs ==> Readable(r, version, cap, parses)
    decreases count
  {
    hide ReadRecord, PrintRecord;
    if count > 0 {
      PrintReadRecord(s, version, cap, parses);
      var (r, s1) := ReadRecord(s, version, cap, parses).value;
      PrintReadRecords(s1, count - 1, version, cap, parses);
      var (rs, rest) := ReadRecords(s1, count - 1, version, cap, parses).value;
      assert ([r] + rs)[1..] == rs;
    }
  }

  /** The bytes of a store. */
  function PrintStore(s: Store): bytes {
    PrintStream(s.magic, s.version, s.records) + s.rest + s.digest
  }

  ghost predicate ReadableStore(s: Store, maxEntries: nat, cap: nat, parses: bytes -> bool) {
    && s.magic < 0x1_0000_0000 && (s.version == 1 || s.version == 2) && |s.digest| == DIGEST_SIZE
    && |s.records| <= maxEntries && forall r :: r in s.records ==> Readable(r, s.version, cap, parses)
  }

  /** Reading undoes printing. */
  lemma ReadPrintedStore(s: Store, maxEntries: nat, cap: nat, parses: bytes -> bool)
    requires ReadableStore(s, maxEntries, cap, parses) && maxEntries < 0x1_0000_0000 && cap < 0x1_0000_0000
    ensures ReadStore(PrintStore(s), maxEntries, cap, parses) == Ok(s)
  {
    hide ReadRecords, PrintRecords, ToBigEndian, FromBigEndian;
    WordSizes();
    var data := PrintStore(s);
    var entries := PrintRecords(s.records, s.version) + s.rest;
    var counted := ToBigEndian(|s.records|, 4) + entries;
    var versioned := ToBigEndian(s.version, 4) + counted;
    var stream := ToBigEndian(s.magic, 4) + versioned;
    assert PrintStream(s.magic, s.version, s.records) + s.rest == stream;
    assert data[..|data| - DIGEST_SIZE] == stream && data[|data| - DIGEST_SIZE..] == s.digest;
    ReadPrintedWord(s.magic, 4, versioned);
    ReadPrintedWord(s.version, 4, counted);
    ReadPrintedWord(|s.records|, 4, entries);
    ReadPrintedRecords(s.records, s.version, cap, parses, s.rest);
  }

  /** Printing undoes reading: nothing is accepted but what printing a readable store gives. */
  lemma PrintReadStore(data: bytes, maxEntries: nat, cap: nat, parses: bytes -> bool)
    requires ReadStore(data, maxEntries, cap, parses).Ok?
    ensures var s := ReadStore(data, maxEntries, cap, parses).value;
            ReadableStore(s, maxEntries, cap, parses) && PrintStore(s) == data
  {
    hide ReadRecords, PrintRecords, ToBigEndian, FromBigEndian;
    WordSizes();
    var s := ReadStore(data, maxEntries, cap, parses).value;
    var stream := data[..|data| - DIGEST_SIZE];
    PrintReadWord(stream, 4);
    PrintReadWord(stream[4..], 4);
    PrintReadWord(stream[4..][4..], 4);
    PrintReadRecords(stream[4..][4..][4..], FromBigEndian(stream[4..][4..][..4]), s.version, cap, parses);
    assert stream == PrintStream(s.magic, s.version, s.records) + s.rest;
    assert data == stream + s.digest;
  }
}
