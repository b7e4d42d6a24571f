/** mergeStore of internal/engine/processors/java/java.go: adding the organisation's certificates to a Java trust
    store. */
module StoreMerge {
  import opened Bytes
  import opened CertSets
  import opened Dedupe
  import opened JksFormat
  import opened Keystore
  import opened JksCodec
  import opened Options

  /** What the model does not look into: certificate parsing, the hash functions, and the PKCS#12 codec. */
  datatype Crypto = Crypto(
    parses: bytes -> bool, sha1: Sha1, sha256: Sha256,
    parsePkcs12: bytes -> Result<seq<Entry>>, encodePkcs12: seq<Entry> -> Result<bytes>)

  const ALIAS_PREFIX: bytes := Ascii("cainjekt-")

  /** fingerprint: empty for a missing certificate. */
  function FingerprintOf(e: Entry, c: Crypto): bytes {
    if e.cert.Some? then c.sha256(e.cert.value) else []
  }

  function Present(es: seq<Entry>, c: Crypto): set<bytes> {
    set i | 0 <= i < |es| :: FingerprintOf(es[i], c)
  }

  function NewEntry(der: bytes, c: Crypto): Entry {
    Entry(ALIAS_PREFIX + c.sha256(der)[..16], ZERO_TIME, Some(der))
  }

  function NewEntries(ders: seq<bytes>, c: Crypto): (es: seq<Entry>)
    ensures |es| == |ders|
  {
    seq(|ders|, i requires 0 <= i < |ders| => NewEntry(ders[i], c))
  }

  /** Parse and Encode of pkg/javakeystore/javakeystore.go. */
  function ParseAny(data: bytes, c: Crypto): Result<seq<Entry>> {
    match DetectFormat(data)
    case FormatJKS => ParseJks(data, c.parses)
    case FormatPKCS12 => c.parsePkcs12(data)
    case FormatUnknown => Err(UnknownFormat)
  }

  function EncodeAny(format: Format, es: seq<Entry>, clock: Clock, c: Crypto): Result<bytes> {
    match format
    case FormatJKS => EncodeJks(es, clock, c.sha1)
    case FormatPKCS12 => c.encodePkcs12(es)
    case FormatUnknown => Err(UnknownFormat)
  }

  datatype Merge = Unchanged | Rewritten(data: bytes) | Failed(error: JksError)

  /** The entries after the merge. */
  function MergedEntries(es: seq<Entry>, add: seq<bytes>, c: Crypto): seq<Entry> {
    es + NewEntries(MissingCerts(add, Present(es, c), c.sha256), c)
  }

  /** mergeStore on the store's bytes. */
  function MergeData(data: bytes, add: seq<bytes>, clock: Clock, c: Crypto): Merge {
    match ParseAny(data, c)
    case Err(e) => Failed(e)
    case Ok(es) =>
      if MissingCerts(add, Present(es, c), c.sha256) == [] then Unchanged
      else match EncodeAny(DetectFormat(data), MergedEntries(es, add, c), clock, c)
        case Err(e) => Failed(e)
        case Ok(out) => Rewritten(out)
  }

  /** Every certificate of `add` is in the store, up to its fingerprint. */
  ghost predicate Trusts(data: bytes, add: seq<bytes>, c: Crypto) {
    ParseAny(data, c).Ok? && Fingerprints(add, c.sha256) <= Present(ParseAny(data, c).value, c)
  }

  lemma UnchangedMeansTrusts(data: bytes, add: seq<bytes>, clock: Clock, c: Crypto)
    ensures MergeData(data, add, clock, c) == Unchanged <==> Trusts(data, add, c)
  {
    if ParseAny(data, c).Ok? {
      NothingMissing(add, Present(ParseAny(data, c).value, c), c.sha256);
    }
  }

  /** The alias of an added certificate: by its fingerprint, so that adding it again would take the same. */
  function OwnAlias(der: bytes, sha256: Sha256): bytes {
    [99, 97, 105, 110, 106, 101, 107, 116, 45] + sha256(der)[..16]  // "cainjekt-"
  }

  /** The rewritten JKS store keeps every earlier entry in order, and ends with one entry per missing fingerprint. */
  ghost predicate Conserves(before: seq<Entry>, after: seq<Entry>, missing: seq<bytes>, clock: Clock, sha256: Sha256) {
    && |after| == |before| + |missing|
    && (forall i :: 0 <= i < |before| ==>
          && after[i].cert == before[i].cert
          && after[i].time.millis == if before[i].time == Time(-62_135_596_800_000, 0) then clock(i).millis
                                     else before[i].time.millis)
    && (Distinct(Aliases(before)) && NonEmpty(Aliases(before)) ==>
          forall i :: 0 <= i < |before| ==> after[i].alias == before[i].alias)
    && (forall i :: |before| <= i < |after| ==>
          var der := missing[i - |before|];
          && after[i].cert == Some(der) && after[i].time.millis == clock(i).millis
          && OwnAlias(der, sha256) <= after[i].alias
          && (OwnAlias(der, sha256) !in Aliases(after)[..i] ==> after[i].alias == OwnAlias(der, sha256)))
    && Distinct(Aliases(after))
  }

  /** The aliases earlier entries are written with are those they would be written with alone. */
  lemma EarlierAliases(es: seq<Entry>, news: seq<Entry>)
    ensures var aliases := Deduped(Aliases(es + news), {});
            && Distinct(aliases)
            && (Distinct(Aliases(es)) && NonEmpty(Aliases(es)) ==>
                 forall i :: 0 <= i < |es| ==> aliases[i] == es[i].alias)
  {
    hide Deduped, Distinct, NonEmpty;
    var aliases := Deduped(Aliases(es + news), {});
    assert Aliases(es + news) == Aliases(es) + Aliases(news);
    DedupedPrefix(Aliases(es), Aliases(news), {});
    DedupedIsSame(Aliases(es), {});
    DedupedIsDistinct(Aliases(es + news), {});
    forall i | 0 <= i < |es| ensures aliases[i] == Deduped(Aliases(es), {})[i] {
      assert aliases[..|es|][i] == aliases[i];
    }
  }

  lemma AddedAlias(all: seq<Entry>, der: bytes, c: Crypto, i: nat)
    requires i < |all| && all[i] == NewEntry(der, c)
    ensures var aliases, own := Deduped(Aliases(all), {}), OwnAlias(der, c.sha256);
            own <= aliases[i] && (own !in aliases[..i] ==> aliases[i] == own)
  {
    hide Deduped;
    DedupedExactly(Aliases(all), i);
    assert ALIAS_PREFIX == [99, 97, 105, 110, 106, 101, 107, 116, 45];
    assert Aliases(all)[i] == OwnAlias(der, c.sha256);
  }

  lemma RewriteConserves(es: seq<Entry>, missing: seq<bytes>, clock: Clock, c: Crypto)
    requires forall i :: 0 <= i < |es| ==> es[i].cert.Some?
    ensures Conserves(es, EntriesOf(RecordsOf(es + NewEntries(missing, c), clock)), missing, clock, c.sha256)
  {
    hide Deduped, RecordsOf, EntriesOf, Distinct, NonEmpty, OwnAlias;
    var all := es + NewEntries(missing, c);
    var after := EntriesOf(RecordsOf(all, clock));
    var aliases := Deduped(Aliases(all), {});
    EarlierAliases(es, NewEntries(missing, c));
    forall i | 0 <= i < |all|
      ensures after[i] == Entry(aliases[i], Time(EntryTime(all[i].time, clock(i)).millis, 0), all[i].cert)
    {
      WrittenAndRead(all, clock, i);
    }
    assert Aliases(after) == aliases;
    forall i | |es| <= i < |all|
      ensures var own := OwnAlias(missing[i - |es|], c.sha256);
              own <= aliases[i] && (own !in aliases[..i] ==> aliases[i] == own)
    {
      AddedAlias(all, missing[i - |es|], c, i);
    }
  }

  lemma EncodedIsJks(es: seq<Entry>, clock: Clock, sha1: Sha1)
    requires Encodable(es)
    ensures EncodeJks(es, clock, sha1).Ok? && DetectFormat(EncodeJks(es, clock, sha1).value) == FormatJKS
  {
    hide PrintRecords, RecordsOf, JksDigest, ToBigEndian;
    EncodesExactly(es, clock, sha1);
    WordSizes();
    var out := EncodeJks(es, clock, sha1).value;
    var rs := RecordsOf(es, clock);
    var rest := ToBigEndian(JKS_VERSION, 4) + (ToBigEndian(|rs|, 4) + PrintRecords(rs, JKS_VERSION));
    assert out[..4] == ToBigEndian(JKS_MAGIC, 4) by {
      assert |ToBigEndian(JKS_MAGIC, 4)| == 4;
    }
    FromToBigEndian(JKS_MAGIC, 4);
  }

  /**
   Conservation and idempotence of the keystore merge: a JKS store that lacks
   some certificate is rewritten exactly when the longer list encodes; within the
   codec's limits the rewritten store is read back with every earlier entry in
   order and one entry per fingerprint that was missing, and merging the same
   certificates again reports nothing to do; beyond the limits it cannot be read
   back at all.
   */
  lemma MergeConserves(data: bytes, add: seq<bytes>, clock: Clock, clock': Clock, c: Crypto)
    requires DetectFormat(data) == FormatJKS && ParseJks(data, c.parses).Ok?
    requires MissingCerts(add, Present(ParseJks(data, c.parses).value, c), c.sha256) != []
    requires FitsLengthFields(MergedEntries(ParseJks(data, c.parses).value, add, c))
    ensures var es := ParseJks(data, c.parses).value;
            var all := MergedEntries(es, add, c);
            var m := MergeData(data, add, clock, c);
            && (m.Rewritten? <==> Encodable(all))
            && (m.Rewritten? && WithinLimits(all, c.parses) ==>
                  && ParseAny(m.data, c).Ok?
                  && Conserves(es, ParseAny(m.data, c).value, MissingCerts(add, Present(es, c), c.sha256), clock,
                               c.sha256)
                  && Trusts(m.data, add, c))
            && (m.Rewritten? ==> (MergeData(m.data, add, clock', c) == Unchanged <==> WithinLimits(all, c.parses)))
  {
    hide ParseJks, EncodeJks, RecordsOf, DetectFormat, Encodable;
    var es := ParseJks(data, c.parses).value;
    var missing := MissingCerts(add, Present(es, c), c.sha256);
    var all := MergedEntries(es, add, c);
    EncodesExactly(all, clock, c.sha1);
    if Encodable(all) {
      var out := MergeData(data, add, clock, c).data;
      RoundTrip(all, clock, c.sha1, c.parses);
      EncodedIsJks(all, clock, c.sha1);
      ParsedHaveCerts(data, c.parses);
      RewriteConserves(es, missing, clock, c);
      if WithinLimits(all, c.parses) {
        var after := EntriesOf(RecordsOf(all, clock));
        MissingCertsAreExact(add, Present(es, c), c.sha256);
        RewriteTrusts(es, after, missing, clock, c);
      }
      UnchangedMeansTrusts(out, add, clock', c);
    }
  }

  /** A PKCS#12 codec that loses no certificate and keeps their order. */
  ghost predicate KeepsCertificates(c: Crypto) {
    forall es: seq<Entry> :: c.encodePkcs12(es).Ok? ==>
      var out := c.encodePkcs12(es).value;
      && DetectFormat(out) == FormatPKCS12 && c.parsePkcs12(out).Ok? && |c.parsePkcs12(out).value| == |es|
      && forall i :: 0 <= i < |es| ==> c.parsePkcs12(out).value[i].cert == es[i].cert
  }

  /**
   The same of a PKCS#12 store, with any such codec: rewritten exactly when the
   longer list encodes, every earlier certificate and every missing one is there
   in order, and merging again reports nothing to do.
   */
  lemma Pkcs12Conserves(data: bytes, add: seq<bytes>, clock: Clock, clock': Clock, c: Crypto)
    requires DetectFormat(data) == FormatPKCS12 && c.parsePkcs12(data).Ok? && KeepsCertificates(c)
    requires MissingCerts(add, Present(c.parsePkcs12(data).value, c), c.sha256) != []
    ensures var es := c.parsePkcs12(data).value;
            var missing := MissingCerts(add, Present(es, c), c.sha256);
            var m := MergeData(data, add, clock, c);
            && (m.Rewritten? <==> c.encodePkcs12(es + NewEntries(missing, c)).Ok?)
            && (m.Rewritten? ==>
                  && DetectFormat(m.data) == FormatPKCS12 && c.parsePkcs12(m.data).Ok?
                  && Trusts(m.data, add, c) && MergeData(m.data, add, clock', c) == Unchanged
                  && var after := c.parsePkcs12(m.data).value;
                     && |after| == |es| + |missing|
                     && (forall i :: 0 <= i < |es| ==> after[i].cert == es[i].cert)
                     && (forall i :: |es| <= i < |after| ==> after[i].cert == Some(missing[i - |es|])))
  {
    hide DetectFormat, MissingCerts, Present, Fingerprints, ParseJks, EncodeJks;
    var es := c.parsePkcs12(data).value;
    var missing := MissingCerts(add, Present(es, c), c.sha256);
    var all := es + NewEntries(missing, c);
    if c.encodePkcs12(all).Ok? {
      var out := c.encodePkcs12(all).value;
      var after := c.parsePkcs12(out).value;
      forall i | |es| <= i < |after| ensures after[i].cert == Some(missing[i - |es|]) {
        assert after[i].cert == all[i].cert && all[i] == NewEntry(missing[i - |es|], c);
      }
      forall i | 0 <= i < |es| ensures after[i].cert == es[i].cert {
        assert all[i] == es[i];
      }
      AllPresent(es, after, add, missing, c);
      UnchangedMeansTrusts(out, add, clock', c);
    }
  }

  lemma AllPresent(before: seq<Entry>, after: seq<Entry>, add: seq<bytes>, missing: seq<bytes>, c: Crypto)
    requires |after| == |before| + |missing| && missing == MissingCerts(add, Present(before, c), c.sha256)
    requires forall i :: 0 <= i < |before| ==> after[i].cert == before[i].cert
    requires forall i :: |before| <= i < |after| ==> after[i].cert == Some(missing[i - |before|])
    ensures Fingerprints(add, c.sha256) <= Present(after, c)
  {
    hide MissingCerts;
    MissingCertsAreExact(add, Present(before, c), c.sha256);
    forall fp | fp in Fingerprints(add, c.sha256) ensures fp in Present(after, c) {
      if fp in Present(before, c) {
        var i :| 0 <= i < |before| && FingerprintOf(before[i], c) == fp;
        assert FingerprintOf(after[i], c) == fp;
      } else {
        assert fp in Fingerprints(missing, c.sha256);
        var j :| 0 <= j < |missing| && c.sha256(missing[j]) == fp;
        assert FingerprintOf(after[|before| + j], c) == fp;
      }
    }
  }

  /** What is neither is an error, and so is what cannot be parsed or encoded. */
  lemma MergeFailsExactly(data: bytes, add: seq<bytes>, clock: Clock, c: Crypto, e: JksError)
    ensures MergeData(data, add, clock, c) == Failed(e) <==>
              || (DetectFormat(data) == FormatUnknown && e == UnknownFormat)
              || (DetectFormat(data) == FormatJKS
                  && match ParseJks(data, c.parses)
                     case Err(e') => e' == e
                     case Ok(es) => !Trusts(data, add, c)
                                    && EncodeJks(MergedEntries(es, add, c), clock, c.sha1) == Err(e))
              || (DetectFormat(data) == FormatPKCS12
                  && match c.parsePkcs12(data)
                     case Err(e') => e' == e
                     case Ok(es) => !Trusts(data, add, c) && c.encodePkcs12(MergedEntries(es, add, c)) == Err(e))
  {
    hide DetectFormat, ParseJks, EncodeJks, Trusts;
    UnchangedMeansTrusts(data, add, clock, c);
  }

  /** Everything that was present or missing is in what the rewritten store is read back as. */
  lemma RewriteTrusts(before: seq<Entry>, after: seq<Entry>, missing: seq<bytes>, clock: Clock, c: Crypto)
    requires Conserves(before, after, missing, clock, c.sha256)
    ensures Present(before, c) + Fingerprints(missing, c.sha256) <= Present(after, c)
  {
    forall fp | fp in Present(before, c) + Fingerprints(missing, c.sha256) ensures fp in Present(after, c) {
      if fp in Present(before, c) {
        var i :| 0 <= i < |before| && FingerprintOf(before[i], c) == fp;
        assert FingerprintOf(after[i], c) == fp;
      } else {
        var j :| 0 <= j < |missing| && c.sha256(missing[j]) == fp;
        assert FingerprintOf(after[|before| + j], c) == fp;
      }
    }
  }

  lemma ParsedHaveCerts(data: bytes, parses: bytes -> bool)
    requires ParseJks(data, parses).Ok?
    ensures forall i :: 0 <= i < |ParseJks(data, parses).value| ==> ParseJks(data, parses).value[i].cert.Some?
  {
  }

  /** The limits on the merged store, from what is added: an accepted store is within them already. */
  lemma MergedWithinLimits(data: bytes, add: seq<bytes>, c: Crypto)
    requires ParseJks(data, c.parses).Ok?
    requires forall k :: 0 <= k < |add| ==> c.parses(add[k]) && |add[k]| <= MAX_CERT_LEN
    requires |ParseJks(data, c.parses).value|
           + |MissingCerts(add, Present(ParseJks(data, c.parses).value, c), c.sha256)| <= MAX_ENTRIES
    ensures WithinLimits(MergedEntries(ParseJks(data, c.parses).value, add, c), c.parses)
    ensures FitsLengthFields(MergedEntries(ParseJks(data, c.parses).value, add, c))
  {
    hide ReadStore;
    var es := ParseJks(data, c.parses).value;
    var all := MergedEntries(es, add, c);
    var missing := MissingCerts(add, Present(es, c), c.sha256);
    PrintReadStore(data, MAX_ENTRIES, MAX_CERT_LEN, c.parses);
    var rs := ReadStore(data, MAX_ENTRIES, MAX_CERT_LEN, c.parses).value.records;
    MissingCertsAreExact(add, Present(es, c), c.sha256);
    forall i | 0 <= i < |all|
      ensures all[i].cert.Some? && |all[i].cert.value| <= MAX_CERT_LEN && c.parses(all[i].cert.value) {
      if i < |es| {
        assert rs[i] in rs && all[i] == EntryOf(rs[i]);
      } else {
        assert all[i] == NewEntry(missing[i - |es|], c) && missing[i - |es|] in add;
      }
    }
  }

  lemma PresentSnoc(es: seq<Entry>, i: nat, c: Crypto)
    requires i < |es|
    ensures Present(es[..i + 1], c) == Present(es[..i], c) + {FingerprintOf(es[i], c)}
  {
    forall fp ensures fp in Present(es[..i + 1], c) <==> fp in Present(es[..i], c) + {FingerprintOf(es[i], c)} {
      assert es[..i + 1][i] == es[i];
      assert forall j :: 0 <= j < i ==> es[..i + 1][j] == es[..i][j];
    }
  }

  /** mergeStore's first loop. */
  method CollectPresent(entries: seq<Entry>, c: Crypto) returns (present: set<bytes>)
    ensures present == Present(entries, c)
  {
    present := {};
    for i := 0 to |entries|
      invariant present == Present(entries[..i], c)
    {
      PresentSnoc(entries, i, c);
      present := present + {FingerprintOf(entries[i], c)};
    }
    assert entries[..|entries|] == entries;
  }

  /** mergeStore's second loop. */
  method AddMissing(entries: seq<Entry>, present: set<bytes>, add: seq<bytes>, c: Crypto)
      returns (merged: seq<Entry>, added: nat)
    ensures merged == entries + NewEntries(MissingCerts(add, present, c.sha256), c)
    ensures added == |MissingCerts(add, present, c.sha256)|
  {
    hide NewEntries;
    ghost var missing := MissingCerts(add, present, c.sha256);
    ghost var taken: seq<bytes> := [];
    NoNewEntries(c);
    var seen := present;
    merged, added := entries, 0;
    for i := 0 to |add|
      invariant |taken| == added
      invariant merged == entries + NewEntries(taken, c)
      invariant taken + MissingCerts(add[i..], seen, c.sha256) == missing
    {
      var fp := c.sha256(add[i]);
      assert add[i..][0] == add[i] && add[i..][1..] == add[i + 1..];
      if fp !in seen {
        NewEntriesSnoc(taken, add[i], c);
        MissingStep(taken, add[i], MissingCerts(add[i + 1..], seen + {fp}, c.sha256));
        taken := taken + [add[i]];
        seen := seen + {fp};
        merged := merged + [NewEntry(add[i], c)];
        added := added + 1;
      }
    }
    assert add[|add|..] == [];
    assert taken == missing;
  }

  lemma NoNewEntries(c: Crypto)
    ensures NewEntries([], c) == []
  {
  }

  lemma MissingStep(taken: seq<bytes>, der: bytes, rest: seq<bytes>)
    ensures taken + ([der] + rest) == taken + [der] + rest
  {
  }

  lemma NewEntriesSnoc(ders: seq<bytes>, der: bytes, c: Crypto)
    ensures NewEntries(ders + [der], c) == NewEntries(ders, c) + [NewEntry(der, c)]
  {
  }

  /** mergeStore on a store's bytes. */
  method MergeBytes(data: bytes, add: seq<bytes>, clock: Clock, c: Crypto) returns (m: Merge)
    ensures m == MergeData(data, add, clock, c)
  {
    hide ParseJks, EncodeJks, DetectFormat, MissingCerts, Present, NewEntries;
    var format := DetectFormat(data);
    var parsed: Result<seq<Entry>>;
    match format {
      case FormatJKS => parsed := Parse(data, c.parses);
      case FormatPKCS12 => parsed := c.parsePkcs12(data);
      case FormatUnknown => parsed := Err(UnknownFormat);
    }
    if parsed.Err? {
      return Failed(parsed.error);
    }
    var present := CollectPresent(parsed.value, c);
    var entries, added := AddMissing(parsed.value, present, add, c);
    if added == 0 {
      return Unchanged;
    }
    var out := Err(UnknownFormat);
    match format {
      case FormatJKS => out := Encode(entries, clock, c.sha1);
      case FormatPKCS12 => out := c.encodePkcs12(entries);
      case FormatUnknown =>
    }
    m := if out.Ok? then Rewritten(out.value) else Failed(out.error);
  }
}
