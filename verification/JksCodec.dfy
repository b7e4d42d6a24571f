/**
 The imperative JKS reader and writer of pkg/javakeystore/javakeystore.go: a
 bounds-checked reader and a buffer writer with sticky errors, and the parse and
 encode loops over them, proved against the format's functions.
 */
module JksCodec {
  import opened Bytes
  import opened Dedupe
  import opened JksFormat
  import opened Keystore
  import opened Options

  /** reader: the first error is kept, and nothing is read after it. */
  class Reader {
    const b: bytes
    var i: nat
    var err: Option<JksError>

    ghost predicate Valid()
      reads this
    {
      i <= |b|
    }

    ghost function Rest(): bytes
      requires Valid()
      reads this
    {
      b[i..]
    }

    constructor (b: bytes)
      ensures Valid() && this.b == b && Rest() == b && err == None
    {
      this.b, i, err := b, 0, None;
    }

    /** take */
    method Take(n: nat) returns (out: Option<bytes>)
      requires Valid()
      modifies this
      ensures Valid()
      ensures old(err).Some? ==> out == None && err == old(err)
      ensures old(err).None? && n <= |old(Rest())| ==>
                out == Some(old(Rest())[..n]) && Rest() == old(Rest())[n..] && err == None
      ensures old(err).None? && n > |old(Rest())| ==> out == None && err == Some(Truncated)
    {
      if err.Some? {
        return None;
      }
      if i + n > |b| {
        err := Some(Truncated);
        return None;
      }
      assert b[i..][..n] == b[i..i + n] && b[i..][n..] == b[i + n..];
      out := Some(b[i..i + n]);
      i := i + n;
    }

    /** u4 and u8 */
    method Word(n: nat) returns (v: nat)
      requires Valid()
      modifies this
      ensures Valid()
      ensures old(err).Some? ==> v == 0 && err == old(err)
      ensures old(err).None? ==>
                match ReadWord(old(Rest()), n)
                case None => v == 0 && err == Some(Truncated)
                case Some((w, rest)) => v == w && Rest() == rest && err == None
    {
      var taken := Take(n);
      v := if taken.Some? then FromBigEndian(taken.value) else 0;
    }

    /** utf */
    method Utf() returns (s: bytes)
      requires Valid()
      modifies this
      ensures Valid()
      ensures old(err).Some? ==> s == [] && err == old(err)
      ensures old(err).None? ==>
                match ReadUtf(old(Rest()))
                case None => s == [] && err == Some(Truncated)
                case Some((text, rest)) => s == text && Rest() == rest && err == None
    {
      var length := Take(2);
      if length.None? {
        return [];
      }
      var taken := Take(FromBigEndian(length.value));
      s := if taken.Some? then taken.value else [];
    }

    /** blob */
    method Blob() returns (s: bytes)
      requires Valid()
      modifies this
      ensures Valid()
      ensures old(err).Some? ==> s == [] && err == old(err)
      ensures old(err).None? ==>
                match ReadBlob(old(Rest()), MAX_CERT_LEN)
                case Err(e) => s == [] && err == Some(e)
                case Ok((data, rest)) => s == data && Rest() == rest && err == None
    {
      var n := Word(4);
      if err.Some? {
        return [];
      }
      if n > MAX_CERT_LEN {
        err := Some(CertTooLarge);
        return [];
      }
      var taken := Take(n);
      s := if taken.Some? then taken.value else [];
    }
  }

  /** The body of parseJKS's loop: one entry. */
  method ReadEntry(r: Reader, version: nat, parses: bytes -> bool) returns (res: Result<Record>)
    requires r.Valid() && r.err.None?
    modifies r
    ensures r.Valid()
    ensures match ReadRecord(old(r.Rest()), version, MAX_CERT_LEN, parses)
            case Err(e) => res == Err(e)
            case Ok((rec, rest)) => res == Ok(rec) && r.err.None? && r.Rest() == rest
  {
    hide FromBigEndian;
    ghost var start := r.Rest();
    var tag := r.Word(4);
    var alias := r.Utf();
    var u := r.Word(8);
    if r.err.Some? {
      return Err(r.err.value);
    }
    ghost var head := ReadHead(start).value;
    assert head.0.0 == tag && head.0.1 == alias && head.1 == r.Rest();
    if tag == TAG_PRIVATE_KEY {
      return Err(PrivateKeyEntry);
    }
    if tag != TAG_TRUSTED_CERT {
      return Err(UnknownTag);
    }
    WordBound(ReadUtf(ReadWord(start, 4).value.1).value.1, 8);
    var millis := ToInt64(u);
    var ctype := [];
    if version == 2 {
      ctype := r.Utf();
    }
    var der := r.Blob();
    if r.err.Some? {
      return Err(r.err.value);
    }
    if !parses(der) {
      return Err(BadCertificate);
    }
    res := Ok(Record(alias, millis, ctype, der));
  }

  /** The outcome of reading more entries, with those read so far in front. */
  ghost function After(rs: seq<Record>, more: Result<(seq<Record>, bytes)>): Result<(seq<Record>, bytes)> {
    match more
    case Err(e) => Err(e)
    case Ok((ts, rest)) => Ok((rs + ts, rest))
  }

  lemma AfterNothing(more: Result<(seq<Record>, bytes)>)
    ensures After([], more) == more
  {
    if more.Ok? {
      assert [] + more.value.0 == more.value.0;
    }
  }

  lemma AfterOne(rs: seq<Record>, r: Record, more: Result<(seq<Record>, bytes)>)
    ensures After(rs + [r], more)
         == After(rs, match more case Err(e) => Err(e) case Ok((ts, rest)) => Ok(([r] + ts, rest)))
    ensures EntriesOf(rs + [r]) == EntriesOf(rs) + [EntryOf(r)]
  {
    if more.Ok? {
      assert rs + [r] + more.value.0 == rs + ([r] + more.value.0);
    }
    assert EntriesOf(rs + [r]) == EntriesOf(rs) + [EntryOf(r)];
  }

  /** The loop of parseJKS. */
  method ReadEntries(r: Reader, count: nat, version: nat, parses: bytes -> bool) returns (res: Result<seq<Entry>>)
    requires r.Valid() && r.err.None?
    modifies r
    ensures match ReadRecords(old(r.Rest()), count, version, MAX_CERT_LEN, parses)
            case Err(e) => res == Err(e)
            case Ok((rs, _)) => res == Ok(EntriesOf(rs))
  {
    hide ReadRecord, EntriesOf;
    ghost var all := ReadRecords(r.Rest(), count, version, MAX_CERT_LEN, parses);
    ghost var records: seq<Record> := [];
    var entries: seq<Entry> := [];
    AfterNothing(all);
    EntriesOfNothing();
    for k := 0 to count
      invariant r.Valid() && r.err.None?
      invariant entries == EntriesOf(records)
      invariant After(records, ReadRecords(r.Rest(), count - k, version, MAX_CERT_LEN, parses)) == all
    {
      var entry := ReadEntry(r, version, parses);
      if entry.Err? {
        return Err(entry.error);
      }
      AfterOne(records, entry.value, ReadRecords(r.Rest(), count - k - 1, version, MAX_CERT_LEN, parses));
      records := records + [entry.value];
      entries := entries + [EntryOf(entry.value)];
    }
    assert records + [] == records;
    res := Ok(entries);
  }

  lemma EntriesOfNothing()
    ensures EntriesOf([]) == []
  {
  }

  /** parseJKS */
  method Parse(data: bytes, parses: bytes -> bool) returns (res: Result<seq<Entry>>)
    ensures res == ParseJks(data, parses)
  {
    hide FromBigEndian, ReadRecords, EntriesOf;
    if |data| < 12 + DIGEST_SIZE {
      return Err(TooShort);
    }
    var stream := data[..|data| - DIGEST_SIZE];
    var r := new Reader(stream);
    var _ := r.Take(4);
    var version := r.Word(4);
    if version != 1 && version != 2 {
      return Err(BadVersion);
    }
    var count := r.Word(4);
    // The sticky error cannot be set here: the header's 12 bytes are there.
    assert r.err.None?;
    if count > MAX_ENTRIES {
      return Err(TooManyEntries);
    }
    res := ReadEntries(r, count, version, parses);
  }

  /** writer: after a string that is too long nothing more is written. */
  class Writer {
    var buf: bytes
    var err: bool

    constructor ()
      ensures buf == [] && !err
    {
      buf, err := [], false;
    }

    method Raw(b: bytes)
      modifies this
      ensures err == old(err) && buf == if err then old(buf) else old(buf) + b
    {
      if !err {
        buf := buf + b;
      }
    }

    /** u4 and u8: the number's last n bytes. */
    method Word(v: nat, n: nat)
      modifies this
      ensures err == old(err) && buf == if err then old(buf) else old(buf) + ToBigEndian(v, n)
    {
      Raw(ToBigEndian(v, n));
    }

    method Utf(s: bytes)
      modifies this
      ensures err == (old(err) || |s| > MAX_UTF_LEN)
      ensures buf == if err then old(buf) else old(buf) + PrintUtf(s)
    {
      if |s| > MAX_UTF_LEN {
        err := true;
        return;
      }
      Raw(ToBigEndian(|s|, 2));
      Raw(s);
    }
  }

  lemma {:induction false} PrintRecordsSnoc(rs: seq<Record>, r: Record, version: nat)
    ensures PrintRecords(rs + [r], version) == PrintRecords(rs, version) + PrintRecord(r, version)
  {
    hide PrintRecord;
    if rs == [] {
      assert [r][1..] == [];
    } else {
      assert (rs + [r])[1..] == rs[1..] + [r];
      PrintRecordsSnoc(rs[1..], r, version);
    }
  }

  lemma ConcatSix(b: bytes, x1: bytes, x2: bytes, x3: bytes, x4: bytes, x5: bytes, x6: bytes)
    ensures b + x1 + x2 + x3 + x4 + x5 + x6 == b + (x1 + (x2 + (x3 + (x4 + (x5 + x6)))))
  {
  }

  /** The writes of one loop round of encodeJKS. */
  method WriteEntry(w: Writer, rec: Record)
    requires rec.ctype == X509
    modifies w
    ensures w.err == (old(w.err) || |rec.alias| > MAX_UTF_LEN)
    ensures !w.err ==> w.buf == old(w.buf) + PrintRecord(rec, JKS_VERSION)
  {
    hide ToBigEndian, PrintUtf;
    assert |X509| == 5;
    ConcatSix(w.buf, ToBigEndian(TAG_TRUSTED_CERT, 4), PrintUtf(rec.alias), ToBigEndian(ToUint64(rec.millis), 8),
              PrintUtf(rec.ctype), ToBigEndian(|rec.der|, 4), rec.der);
    w.Word(TAG_TRUSTED_CERT, 4);
    w.Utf(rec.alias);
    w.Word(ToUint64(rec.millis), 8);
    w.Utf(rec.ctype);
    w.Word(|rec.der|, 4);
    w.Raw(rec.der);
  }

  lemma AliasesFitSnoc(rs: seq<Record>, r: Record)
    ensures AliasesFit(rs + [r]) <==> AliasesFit(rs) && |r.alias| <= MAX_UTF_LEN
  {
    assert (rs + [r])[|rs|] == r;
    assert forall i :: 0 <= i < |rs| ==> (rs + [r])[i] == rs[i];
  }

  lemma StreamIsHeaderAndRecords(rs: seq<Record>)
    ensures PrintStream(JKS_MAGIC, JKS_VERSION, rs)
         == ToBigEndian(JKS_MAGIC, 4) + ToBigEndian(JKS_VERSION, 4) + ToBigEndian(|rs|, 4)
           + PrintRecords(rs, JKS_VERSION)
  {
    hide ToBigEndian, PrintRecords;
  }

  lemma AllFitEmpty()
    ensures AliasesFit([])
  {
  }

  /** The loop of encodeJKS. */
  method WriteEntries(w: Writer, es: seq<Entry>, aliases: seq<bytes>, clock: Clock) returns (ok: bool)
    requires aliases == Deduped(Aliases(es), {}) && !w.err
    modifies w
    ensures ok <==> AllCerts(es)
    ensures ok ==> w.err == !AliasesFit(RecordsOf(es, clock))
    ensures ok && !w.err ==> w.buf == old(w.buf) + PrintRecords(RecordsOf(es, clock), JKS_VERSION)
  {
    hide PrintRecord, Deduped, RecordsOf, AliasesFit;
    ghost var rs := RecordsOf(es, clock);
    AllFitEmpty();
    assert rs[..0] == [];
    for i := 0 to |es|
      invariant forall j :: 0 <= j < i ==> es[j].cert.Some?
      invariant w.err == !AliasesFit(rs[..i])
      invariant !w.err ==> w.buf == old(w.buf) + PrintRecords(rs[..i], JKS_VERSION)
    {
      if es[i].cert.None? {
        return false;
      }
      RecordAt(es, clock, i);
      PrintRecordsSnoc(rs[..i], rs[i], JKS_VERSION);
      AliasesFitSnoc(rs[..i], rs[i]);
      assert rs[..i + 1] == rs[..i] + [rs[i]];
      WriteEntry(w, RecordOf(es[i], aliases[i], clock(i)));
    }
    assert rs[..|es|] == rs;
    ok := true;
  }

  /** encodeJKS */
  method Encode(es: seq<Entry>, clock: Clock, sha1: Sha1) returns (res: Result<bytes>)
    ensures res == EncodeJks(es, clock, sha1)
  {
    hide ToBigEndian, PrintRecords, JksDigest, Deduped, RecordsOf, AliasesFit, PrintStream;
    var aliases := DedupeAliases(Aliases(es));
    var w := new Writer();
    w.Word(JKS_MAGIC, 4);
    w.Word(JKS_VERSION, 4);
    w.Word(|es|, 4);
    assert [] + ToBigEndian(JKS_MAGIC, 4) == ToBigEndian(JKS_MAGIC, 4);
    var ok := WriteEntries(w, es, aliases, clock);
    if !ok {
      return Err(NoCertificate);
    }
    if w.err {
      return Err(StringTooLong);
    }
    var out := w.buf;
    StreamIsHeaderAndRecords(RecordsOf(es, clock));
    res := Ok(out + JksDigest(sha1, out));
  }
}
