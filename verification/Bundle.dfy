/** MergePEM of pkg/certs/merge.go: certificates missing from a bundle are appended to it. */
module Bundle {
  import opened Bytes
  import opened CertSets
  import opened Options
  import opened Pem
  import opened Seqs

  /** What the model does not look into: base64, certificate parsing, SHA-256. */
  datatype Env = Env(base64: Base64, parses: bytes -> bool, sha: Sha256)

  datatype MergeResult = Merged(text: bytes, added: nat) | BadCertificate

  predicate IsNewline(b: byte) {
    b == NL
  }

  predicate IsAsciiSpace(b: byte) {
    9 <= b <= 13 || b == 32
  }

  function Parseable(ders: seq<bytes>, env: Env): seq<bytes> {
    if ders == [] then []
    else (if env.parses(ders[0]) then [ders[0]] else []) + Parseable(ders[1..], env)
  }

  /** The fingerprints in a text; a block that is no certificate has none. */
  function Hashes(text: bytes, env: Env): set<bytes> {
    Fingerprints(Parseable(CertBlocks(text, env.base64), env), env.sha)
  }

  /** One more block at the end of a text. */
  function AppendBlock(out: bytes, data: bytes, c: Base64): bytes {
    (if out != [] then out + [NL] else out) + Trim(EncodeToMemory(data, c), IsAsciiSpace) + [NL]
  }

  function AppendBlocks(out: bytes, ders: seq<bytes>, c: Base64): bytes
    decreases |ders|
  {
    if ders == [] then out else AppendBlocks(AppendBlock(out, ders[0], c), ders[1..], c)
  }

  predicate AllParse(ders: seq<bytes>, env: Env) {
    forall i :: 0 <= i < |ders| ==> env.parses(ders[i])
  }

  /** The merge, given the certificates found in the two texts. */
  function MergeOf(existing: bytes, certs: seq<bytes>, org: seq<bytes>, env: Env): MergeResult {
    var missing := MissingCerts(org, Fingerprints(Parseable(certs, env), env.sha), env.sha);
    if !AllParse(org, env) then BadCertificate
    else if missing == [] then Merged(existing, 0)
    else Merged(AppendBlocks(TrimRight(existing, IsNewline), missing, env.base64), |missing|)
  }

  function MergePem(existing: bytes, addition: bytes, env: Env): MergeResult {
    MergeOf(existing, CertBlocks(existing, env.base64), CertBlocks(addition, env.base64), env)
  }

  /** The certificates of a text, and its fingerprints, by the decoder's blocks and the parser alone. */
  lemma HashesExactly(text: bytes, env: Env, fp: bytes)
    ensures fp in Hashes(text, env)
            <==> exists d :: d in CertBlocks(text, env.base64) && env.parses(d) && env.sha(d) == fp
  {
    hide CertBlocks;
    var ders := CertBlocks(text, env.base64);
    forall d ensures d in Parseable(ders, env) <==> d in ders && env.parses(d) {
      ParseableExactly(ders, env, d);
    }
  }

  lemma {:induction false} ParseableExactly(ders: seq<bytes>, env: Env, d: bytes)
    ensures d in Parseable(ders, env) <==> d in ders && env.parses(d)
  {
    if ders != [] {
      ParseableExactly(ders[1..], env, d);
    }
  }

  lemma AllParseExactly(ders: seq<bytes>, env: Env)
    ensures AllParse(ders, env) <==> forall d :: d in ders ==> env.parses(d)
  {
  }

  // ----- the text of a block

  lemma BlockLinesArePlain(data: bytes, c: Base64)
    requires Faithful(c)
    ensures Plain(BlockLines(data, c), NL)
  {
    hide BeginLine, EndLine;
    BeginLineBegins();
    EndLineEnds();
  }

  lemma BlockLinesHaveNoCR(data: bytes, c: Base64)
    requires Faithful(c)
    ensures Ended(BlockLines(data, c)) == BlockLines(data, c)
  {
    var lines := BlockLines(data, c);
    forall i | 0 <= i < |lines| ensures DropCR(lines[i]) == lines[i] {
      assert lines[i] == BeginLine() || lines[i] == EndLine() || lines[i] in c.encode(data);
      assert BeginLine()[|BeginLine()| - 1] == 45 && EndLine()[|EndLine()| - 1] == 45;
    }
  }

  lemma TrimmedBlock(data: bytes, c: Base64)
    ensures Trim(EncodeToMemory(data, c), IsAsciiSpace) == Join(BlockLines(data, c), NL)
  {
    var j := Join(BlockLines(data, c), NL);
    JoinConcat([BeginLine()] + c.encode(data), [EndLine()], NL);
    var head := Join([BeginLine()] + c.encode(data), NL);
    assert j == head + [NL] + EndLine();
    assert head[..|BeginLine()|] == BeginLine() by {
      if c.encode(data) != [] {
        JoinConcat([BeginLine()], c.encode(data), NL);
      } else {
        assert [BeginLine()] + c.encode(data) == [BeginLine()];
      }
    }
    assert j[0] == head[0] == BeginLine()[0] == DASH;
    assert j[|j| - 1] == EndLine()[|EndLine()| - 1] == DASH;
    assert TrimLeft(j + [NL], IsAsciiSpace) == j + [NL];
    assert (j + [NL])[..|j|] == j;
    assert TrimRight(j + [NL], IsAsciiSpace) == TrimRight(j, IsAsciiSpace) == j;
  }

  // ----- a newline after a text

  /** Text after a newline leaves the lines before it as they are, every one now ended. */
  lemma LinesConcat(a: bytes, b: bytes)
    ensures Lines(a + [NL] + b) == Ended(Split(a, NL)) + Lines(b)
  {
    hide Split, Ended;
    SplitConcat(a, b, NL);
    var pa, pb := Split(a, NL), Split(b, NL);
    assert (pa + pb)[..|pa + pb| - 1] == pa + pb[..|pb| - 1];
    EndedConcat(pa, pb[..|pb| - 1]);
  }

  lemma EndedConcat(a: seq<bytes>, b: seq<bytes>)
    ensures Ended(a + b) == Ended(a) + Ended(b)
  {
    hide DropCR;
  }

  lemma EmptyLineIsQuiet(c: Base64)
    ensures Quiet([[]]) && Blocks([[]], c) == []
    ensures Lines([]) == [[]]
  {
  }

  lemma NewlineEndsLines(text: bytes, c: Base64)
    requires Faithful(c)
    ensures TextBlocks(text + [NL], c) == Blocks(Ended(Split(text, NL)), c)
  {
    hide Faithful, Quiet;
    LinesConcat(text, []);
    assert text + [NL] + [] == text + [NL];
    EmptyLineIsQuiet(c);
    BlocksConcat(Ended(Split(text, NL)), [[]], c);
    assert Blocks(Ended(Split(text, NL)), c) + [] == Blocks(Ended(Split(text, NL)), c);
  }

  /** The last line of a text as it stands, and as a newline would end it. */
  lemma LastLine(text: bytes) returns (init: seq<bytes>, last: bytes)
    ensures Lines(text) == init + [last] && Ended(Split(text, NL)) == init + [DropCR(last)]
    ensures text != [] && text[|text| - 1] == CR ==>
              last != [] && last[|last| - 1] == CR && Lines(text[..|text| - 1]) == init + [last[..|last| - 1]]
    ensures text == [] || text[|text| - 1] != CR ==> DropCR(last) == last
  {
    hide Split;
    var parts := Split(text, NL);
    init, last := Ended(parts[..|parts| - 1]), parts[|parts| - 1];
    assert parts == parts[..|parts| - 1] + [last];
    EndedConcat(parts[..|parts| - 1], [last]);
    if text == [] {
      EmptyText();
    } else {
      var head, x := text[..|text| - 1], text[|text| - 1];
      assert text == head + [x];
      if x != NL {
        var ps := Split(head, NL);
        SplitSnoc(head, x, NL);
        assert parts[..|parts| - 1] == ps[..|ps| - 1] && last == ps[|ps| - 1] + [x];
        assert last[..|last| - 1] == ps[|ps| - 1];
      } else {
        SplitConcat(head, [], NL);
        assert head + [NL] + [] == text;
        EmptyText();
      }
    }
  }

  lemma EmptyText()
    ensures Split<byte>([], NL) == [[]]
  {
  }

  /**
   The block that a text's very last byte undoes: a carriage return, with no
   newline after it, directly after the block's END line.
   */
  function Undone(text: bytes, c: Base64): seq<Block> {
    if text != [] && text[|text| - 1] == CR then Closing(Lines(text[..|text| - 1]), c) else []
  }

  /** That block, if it is a certificate. */
  function Unfinished(text: bytes, c: Base64): seq<bytes> {
    Certs(Undone(text, c))
  }

  /** A newline at the end of a text finishes such a block, and adds no other. */
  lemma NewlineFinishes(text: bytes, c: Base64)
    requires Faithful(c)
    ensures TextBlocks(text + [NL], c) == TextBlocks(text, c) + Undone(text, c)
  {
    hide Faithful, Lines, Ended;
    NewlineEndsLines(text, c);
    var init, last := LastLine(text);
    if text != [] && text[|text| - 1] == CR {
      var line := last[..|last| - 1];
      assert last == line + [CR];
      LastCRUndoes(init, line, c);
    }
  }

  /** Trimming newlines from a text and then ending it with one does the same. */
  lemma {:induction false} TrailingNewlines(text: bytes, c: Base64)
    requires Faithful(c)
    ensures TextBlocks(TrimRight(text, IsNewline) + [NL], c) == TextBlocks(text, c) + Undone(text, c)
  {
    hide Faithful, Closing, TextBlocks;
    if text != [] && text[|text| - 1] == NL {
      var t := text[..|text| - 1];
      assert text == t + [NL];
      NewlineFinishes(t, c);
      TrailingNewlines(t, c);
    } else {
      NewlineFinishes(text, c);
    }
  }

  // ----- appending blocks

  lemma AppendedLines(out: bytes, data: bytes, c: Base64)
    requires Faithful(c)
    ensures Lines(AppendBlock(out, data, c)) == (if out == [] then [] else Ended(Split(out, NL)))
        + (BlockLines(data, c) + [[]])
  {
    hide BeginLine, EndLine, Trim, Ended, Lines;
    var lines := BlockLines(data, c);
    var j := Join(lines, NL);
    TrimmedBlock(data, c);
    BlockLinesArePlain(data, c);
    BlockLinesHaveNoCR(data, c);
    SplitJoin(lines, NL);
    LinesConcat(j, []);
    EmptyLineIsQuiet(c);
    assert j + [NL] + [] == j + [NL];
    if out != [] {
      LinesConcat(out, j + [NL]);
      assert out + [NL] + j + [NL] == out + [NL] + (j + [NL]);
    } else {
      assert [] + j + [NL] == j + [NL];
    }
  }

  /** Certificates as blocks. */
  function AsBlocks(ders: seq<bytes>): (blocks: seq<Block>)
    ensures |blocks| == |ders|
  {
    seq(|ders|, i requires 0 <= i < |ders| => Block(CERTIFICATE, ders[i]))
  }

  lemma {:induction false} CertsOfBlocks(ders: seq<bytes>)
    ensures Certs(AsBlocks(ders)) == ders
  {
    if ders != [] {
      assert AsBlocks(ders)[1..] == AsBlocks(ders[1..]);
      CertsOfBlocks(ders[1..]);
    }
  }

  /** Appending a block adds exactly its certificate to a text ended by a newline, unterminated BEGIN lines in it
      included. */
  lemma AppendBlockAdds(out: bytes, data: bytes, c: Base64)
    requires Faithful(c)
    ensures TextBlocks(AppendBlock(out, data, c), c)
         == (if out == [] then [] else TextBlocks(out + [NL], c)) + [Block(CERTIFICATE, data)]
  {
    hide AppendBlock, Quiet, Faithful, TryBlock, BlockLines, Lines, Ended;
    AppendedLines(out, data, c);
    EmptyLineIsQuiet(c);
    BlockLinesAreQuiet(data, [[]], c);
    BlockLinesRead(data, [[]], c);
    var ext := BlockLines(data, c) + [[]];
    assert [Block(CERTIFICATE, data)] + [] == [Block(CERTIFICATE, data)];
    if out == [] {
      assert [] + ext == ext;
    } else {
      var lines := Ended(Split(out, NL));
      NewlineEndsLines(out, c);
      BlocksConcat(lines, ext, c);
    }
  }

  lemma {:induction false} AppendBlocksAdds(out: bytes, ders: seq<bytes>, c: Base64)
    requires Faithful(c) && ders != []
    ensures TextBlocks(AppendBlocks(out, ders, c), c)
         == (if out == [] then [] else TextBlocks(out + [NL], c)) + AsBlocks(ders)
    decreases |ders|
  {
    hide AppendBlock, TextBlocks, Faithful, Closing;
    AppendBlockAdds(out, ders[0], c);
    var next := AppendBlock(out, ders[0], c);
    assert AsBlocks(ders) == [Block(CERTIFICATE, ders[0])] + AsBlocks(ders[1..]);
    if |ders| > 1 {
      AppendBlocksAdds(next, ders[1..], c);
      AppendedEnds(out, ders[0], c);
      NewlineFinishes(next, c);
    } else {
      assert AppendBlocks(next, [], c) == next;
    }
  }

  lemma AppendedEnds(out: bytes, data: bytes, c: Base64)
    ensures AppendBlock(out, data, c) != [] && Undone(AppendBlock(out, data, c), c) == []
  {
    hide Trim, EncodeToMemory, Closing;
    var t := AppendBlock(out, data, c);
    assert t[|t| - 1] == NL;
  }

  // ----- the merge

  lemma {:induction false} ParseablePrefix(a: seq<bytes>, b: seq<bytes>, env: Env)
    ensures Parseable(a + b, env) == Parseable(a, env) + Parseable(b, env)
  {
    if a == [] {
      assert a + b == b;
    } else {
      assert (a + b)[1..] == a[1..] + b;
      ParseablePrefix(a[1..], b, env);
    }
  }

  lemma {:induction false} ParseableConcat(a: seq<bytes>, b: seq<bytes>, env: Env)
    requires forall i :: 0 <= i < |b| ==> env.parses(b[i])
    ensures Parseable(a + b, env) == Parseable(a, env) + b
  {
    if a == [] {
      assert a + b == b;
      AllParseable(b, env);
    } else {
      assert (a + b)[1..] == a[1..] + b;
      ParseableConcat(a[1..], b, env);
    }
  }

  lemma {:induction false} AllParseable(b: seq<bytes>, env: Env)
    requires forall i :: 0 <= i < |b| ==> env.parses(b[i])
    ensures Parseable(b, env) == b
  {
    if b != [] {
      AllParseable(b[1..], env);
    }
  }

  lemma FingerprintsConcat(a: seq<bytes>, b: seq<bytes>, sha: Sha256)
    ensures Fingerprints(a + b, sha) == Fingerprints(a, sha) + Fingerprints(b, sha)
  {
    var s := a + b;
    forall fp ensures fp in Fingerprints(s, sha) <==> fp in Fingerprints(a, sha) + Fingerprints(b, sha) {
      if fp in Fingerprints(a, sha) {
        var i :| 0 <= i < |a| && sha(a[i]) == fp;
        assert s[i] == a[i];
      }
      if fp in Fingerprints(b, sha) {
        var i :| 0 <= i < |b| && sha(b[i]) == fp;
        assert s[|a| + i] == b[i];
      }
    }
  }

  /** Every certificate of the organisation's bundle is in the text, by fingerprint. */
  ghost predicate HoldsAll(text: bytes, addition: bytes, env: Env) {
    Fingerprints(CertBlocks(addition, env.base64), env.sha) <= Hashes(text, env)
  }

  /**
   The merge fails exactly when a block of the addition is no certificate.
   Otherwise the blocks of the merged text are the old blocks, one that a lone
   carriage return at the end of the text had undone, and one for each
   fingerprint that was missing; every certificate is then there; and merging once
   more leaves the text byte for byte as it is.
   */
  lemma MergeAppendsMissing(existing: bytes, addition: bytes, env: Env)
    requires Faithful(env.base64)
    ensures MergePem(existing, addition, env).Merged?
            <==> forall d :: d in CertBlocks(addition, env.base64) ==> env.parses(d)
    ensures var m := MergePem(existing, addition, env);
            var missing := MissingCerts(CertBlocks(addition, env.base64), Hashes(existing, env), env.sha);
            m.Merged? ==>
              && CertBlocks(m.text, env.base64)
                   == CertBlocks(existing, env.base64)
                     + (if missing == [] then [] else Unfinished(existing, env.base64)) + missing
              && m.added == |missing|
              && DistinctFingerprints(missing, env.sha)
              && Fingerprints(missing, env.sha)
                 == Fingerprints(CertBlocks(addition, env.base64), env.sha) - Hashes(existing, env)
              && Hashes(existing, env) <= Hashes(m.text, env) && HoldsAll(m.text, addition, env)
              && MergePem(m.text, addition, env) == Merged(m.text, 0)
  {
    hide CertBlocks, AppendBlocks, Faithful, MissingCerts, Unfinished, Hashes, HoldsAll, AllParse;
    AllParseExactly(CertBlocks(addition, env.base64), env);
    if MergePem(existing, addition, env).Merged? {
      MergedHolds(existing, addition, env);
    }
  }

  lemma MergedHolds(existing: bytes, addition: bytes, env: Env)
    requires Faithful(env.base64) && AllParse(CertBlocks(addition, env.base64), env)
    ensures MergePem(existing, addition, env).Merged?
    ensures var m := MergePem(existing, addition, env);
            var missing := MissingCerts(CertBlocks(addition, env.base64), Hashes(existing, env), env.sha);
            && CertBlocks(m.text, env.base64)
                 == CertBlocks(existing, env.base64)
                   + (if missing == [] then [] else Unfinished(existing, env.base64)) + missing
            && m.added == |missing|
            && DistinctFingerprints(missing, env.sha)
            && Fingerprints(missing, env.sha)
               == Fingerprints(CertBlocks(addition, env.base64), env.sha) - Hashes(existing, env)
            && Hashes(existing, env) <= Hashes(m.text, env) && HoldsAll(m.text, addition, env)
            && MergePem(m.text, addition, env) == Merged(m.text, 0)
  {
    hide CertBlocks, AppendBlocks, Faithful, MissingCerts, Unfinished;
    var c := env.base64;
    var org := CertBlocks(addition, c);
    var missing := MissingCerts(org, Hashes(existing, env), env.sha);
    var m := MergePem(existing, addition, env);
    MissingCertsAreExact(org, Hashes(existing, env), env.sha);
    var more := if missing == [] then [] else Unfinished(existing, c);
    if missing != [] {
      MergedBlocks(existing, missing, c);
    }
    assert missing == [] ==> CertBlocks(existing, c) + more + missing == CertBlocks(existing, c);
    forall i | 0 <= i < |missing| ensures env.parses(missing[i]) {
      assert missing[i] in org;
    }
    ParseableConcat(CertBlocks(existing, c) + more, missing, env);
    ParseablePrefix(CertBlocks(existing, c), more, env);
    var kept := Parseable(CertBlocks(existing, c) + more, env);
    FingerprintsConcat(kept, missing, env.sha);
    FingerprintsConcat(Parseable(CertBlocks(existing, c), env), Parseable(more, env), env.sha);
    NothingMissing(org, Hashes(m.text, env), env.sha);
  }

  lemma MergedBlocks(existing: bytes, missing: seq<bytes>, c: Base64)
    requires Faithful(c) && missing != []
    ensures var text := AppendBlocks(TrimRight(existing, IsNewline), missing, c);
            && TextBlocks(text, c) == TextBlocks(existing, c) + Undone(existing, c) + AsBlocks(missing)
            && CertBlocks(text, c) == CertBlocks(existing, c) + Unfinished(existing, c) + missing
  {
    hide AppendBlocks, Faithful, Undone, TrimRight, Lines;
    var trimmed := TrimRight(existing, IsNewline);
    TrailingNewlines(existing, c);
    AppendBlocksAdds(trimmed, missing, c);
    if trimmed == [] {
      NewlineEndsLines([], c);
      NoBlocksInNothing(c);
    }
    CertsOfBlocks(missing);
    CertsConcat(TextBlocks(existing, c), Undone(existing, c));
    CertsConcat(TextBlocks(existing, c) + Undone(existing, c), AsBlocks(missing));
  }

  lemma NoBlocksInNothing(c: Base64)
    ensures Blocks(Ended(Split([], NL)), c) == []
  {
    assert Ended([[]]) == [[]];
    EmptyLineIsQuiet(c);
  }

  /** Encoded certificates, an empty line between any two. */
  function BlockTexts(ders: seq<bytes>, c: Base64): bytes {
    if ders == [] then []
    else EncodeToMemory(ders[0], c) + (if |ders| == 1 then [] else [NL] + BlockTexts(ders[1..], c))
  }

  lemma {:induction false} AppendedText(out: bytes, ders: seq<bytes>, c: Base64)
    requires ders != []
    ensures AppendBlocks(out, ders, c) == out + (if out == [] then [] else [NL]) + BlockTexts(ders, c)
    decreases |ders|
  {
    hide Trim, EncodeToMemory;
    var next := AppendBlock(out, ders[0], c);
    TrimmedBlock(ders[0], c);
    assert next == out + (if out == [] then [] else [NL]) + EncodeToMemory(ders[0], c) by {
      EncodedIsJoined(ders[0], c);
    }
    assert next != [];
    if |ders| > 1 {
      AppendedText(next, ders[1..], c);
    } else {
      assert ders[1..] == [] && AppendBlocks(next, [], c) == next;
    }
  }

  lemma EncodedIsJoined(data: bytes, c: Base64)
    ensures EncodeToMemory(data, c) == Join(BlockLines(data, c), NL) + [NL]
  {
  }

  /** A text, as it was up to the newlines at its end, then one newline and the encoded certificates. */
  ghost predicate ExtendedBy(before: bytes, after: bytes, ders: seq<bytes>, c: Base64) {
    exists k :: 0 <= k <= |before| && (forall i :: k <= i < |before| ==> before[i] == 10)
      && (k > 0 ==> before[k - 1] != 10)
      && after == before[..k] + (if k == 0 then [] else [10]) + BlockTexts(ders, c)
  }

  /**
   What a merge does to the text: nothing, if it adds nothing; otherwise the old
   text stays as it was, byte for byte, up to the newlines at its end, and after
   one newline come the encoded certificates. So every block in it survives, in
   order and whatever its tag, and every comment.
   */
  lemma MergeKeepsText(existing: bytes, addition: bytes, env: Env)
    requires Faithful(env.base64) && MergePem(existing, addition, env).Merged?
    ensures var m := MergePem(existing, addition, env);
            var missing := MissingCerts(CertBlocks(addition, env.base64), Hashes(existing, env), env.sha);
            if missing == [] then m.text == existing
            else
              && ExtendedBy(existing, m.text, missing, env.base64)
              && TextBlocks(m.text, env.base64)
                 == TextBlocks(existing, env.base64) + Undone(existing, env.base64) + AsBlocks(missing)
  {
    hide AppendBlocks, BlockTexts, Faithful, Undone, TrimRight, TextBlocks;
    TrimRightShrinks(existing, IsNewline);
    var missing := MissingCerts(CertBlocks(addition, env.base64), Hashes(existing, env), env.sha);
    if missing != [] {
      MergedBlocks(existing, missing, env.base64);
      AppendedText(TrimRight(existing, IsNewline), missing, env.base64);
      var k := |TrimRight(existing, IsNewline)|;
      assert existing[..k] == TrimRight(existing, IsNewline);
    }
  }

  /**
   When the merged blocks are the old blocks and the missing ones: exactly when
   nothing is missing, or the text does not end in a carriage return behind the
   END line of a certificate.
   */
  lemma MergeIsOldAndMissingExactly(existing: bytes, addition: bytes, env: Env)
    requires Faithful(env.base64) && AllParse(CertBlocks(addition, env.base64), env)
    ensures MergePem(existing, addition, env).Merged?
    ensures var m := MergePem(existing, addition, env);
            var missing := MissingCerts(CertBlocks(addition, env.base64), Hashes(existing, env), env.sha);
            (CertBlocks(m.text, env.base64) == CertBlocks(existing, env.base64) + missing)
            <==> (m.added == 0 || Unfinished(existing, env.base64) == [])
  {
    hide CertBlocks, Faithful, MissingCerts, Unfinished, MergePem;
    MergeAppendsMissing(existing, addition, env);
    var m := MergePem(existing, addition, env);
    var missing := MissingCerts(CertBlocks(addition, env.base64), Hashes(existing, env), env.sha);
    var before, more := CertBlocks(existing, env.base64), Unfinished(existing, env.base64);
    if more == [] {
      assert before + more == before;
    } else if missing != [] {
      assert |before + more + missing| > |before + missing|;
    } else {
      assert before + [] + missing == before + missing;
    }
  }

  /** Such a text: one encoded certificate and a carriage return. It holds no block until the merge ends its line. */
  lemma LoneCarriageReturn(b: bytes, a: bytes, env: Env)
    requires Faithful(env.base64) && env.parses(a)
    ensures var existing := Join(BlockLines(b, env.base64), NL) + [CR];
            var m := MergePem(existing, EncodeToMemory(a, env.base64), env);
            && CertBlocks(existing, env.base64) == [] && Unfinished(existing, env.base64) == [b]
            && m.Merged? && m.added == 1 && CertBlocks(m.text, env.base64) == [b, a]
  {
    hide Faithful, BlockLines, MergePem, CertBlocks, Unfinished, EncodeToMemory, MissingCerts;
    UndoneBlock(b, env.base64);
    EncodedReads(a, env.base64);
    var existing := Join(BlockLines(b, env.base64), NL) + [CR];
    MergeOfOne(existing, EncodeToMemory(a, env.base64), a, env);
    MergeAppendsMissing(existing, EncodeToMemory(a, env.base64), env);
  }

  lemma BlockText(data: bytes, c: Base64)
    requires Faithful(c)
    ensures var text := Join(BlockLines(data, c), NL);
            && Split(text, NL) == BlockLines(data, c) && Lines(text) == BlockLines(data, c)
            && Ended(Split(text, NL)) == BlockLines(data, c)
  {
    hide BeginLine, EndLine;
    var lines := BlockLines(data, c);
    BlockLinesArePlain(data, c);
    BlockLinesHaveNoCR(data, c);
    SplitJoin(lines, NL);
    assert Ended(lines[..|lines| - 1]) == Ended(lines)[..|lines| - 1];
    assert lines[..|lines| - 1] + [lines[|lines| - 1]] == lines;
  }

  lemma EncodedReads(data: bytes, c: Base64)
    requires Faithful(c)
    ensures CertBlocks(EncodeToMemory(data, c), c) == [data]
  {
    hide Faithful, BlockLines, Lines, Ended;
    BlockText(data, c);
    NewlineEndsLines(Join(BlockLines(data, c), NL), c);
    OneBlock(data, c);
    CertsOfBlocks([data]);
    assert AsBlocks([data]) == [Block(CERTIFICATE, data)];
  }

  lemma OneBlock(data: bytes, c: Base64)
    requires Faithful(c)
    ensures Blocks(BlockLines(data, c), c) == [Block(CERTIFICATE, data)] == Closing(BlockLines(data, c), c)
  {
    hide Faithful, TryBlock, BeginTag, BeginLine, EndLine;
    var lines := BlockLines(data, c);
    BlockLinesRead(data, [], c);
    assert lines + [] == lines && Blocks([], c) == [];
    assert [Block(CERTIFICATE, data)] + [] == [Block(CERTIFICATE, data)];
    BeginLineBegins();
    BodyRead(data, [], c);
    assert lines[0] == BeginLine() && lines[1..] == c.encode(data) + [EndLine()] + [];
  }

  lemma UndoneBlock(b: bytes, c: Base64)
    requires Faithful(c)
    ensures var existing := Join(BlockLines(b, c), NL) + [CR];
            CertBlocks(existing, c) == [] && Unfinished(existing, c) == [b]
  {
    hide Faithful, BlockLines, Lines, Ended, Closing, Certs, Blocks, Split, Join;
    var text := Join(BlockLines(b, c), NL);
    var existing := text + [CR];
    assert existing[..|existing| - 1] == text;
    BlockText(b, c);
    OneBlock(b, c);
    var init, last := LastLine(existing);
    var line := last[..|last| - 1];
    assert last == line + [CR];
    LastCRUndoes(init, line, c);
    NothingBefore(TextBlocks(existing, c), Block(CERTIFICATE, b));
    CertsOfBlocks([b]);
    assert AsBlocks([b]) == [Block(CERTIFICATE, b)];
    NoCerts();
  }

  lemma NothingBefore(blocks: seq<Block>, b: Block)
    requires blocks + [b] == [b]
    ensures blocks == []
  {
    assert |blocks + [b]| == 1;
  }

  lemma MergeOfOne(existing: bytes, addition: bytes, a: bytes, env: Env)
    requires CertBlocks(existing, env.base64) == [] && CertBlocks(addition, env.base64) == [a] && env.parses(a)
    ensures MergePem(existing, addition, env).Merged? && MergePem(existing, addition, env).added == 1
    ensures MissingCerts(CertBlocks(addition, env.base64), Hashes(existing, env), env.sha) == [a]
  {
    hide CertBlocks, AppendBlocks;
    assert Hashes(existing, env) == {};
    assert [a][1..] == [] && |[a]| == 1;
    assert MissingCerts([a], {}, env.sha) == [a];
  }

  // ----- the loops

  /** pem.Decode: the next block and the lines after it. */
  function Decode(lines: seq<bytes>, c: Base64): (r: Option<(Block, seq<bytes>)>)
    ensures r.Some? ==> |r.value.1| < |lines|
    ensures Blocks(lines, c) == if r.None? then [] else [r.value.0] + Blocks(r.value.1, c)
    decreases |lines|
  {
    hide TryBlock, BeginTag;
    if lines == [] then None
    else match BeginTag(lines[0])
      case None => Decode(lines[1..], c)
      case Some(tag) =>
        match TryBlock(tag, lines[1..], c)
        case None => Decode(Resume(lines), c)
        case Some((data, used)) => Some((Block(tag, data), lines[1 + used..]))
  }

  lemma CertsStep(block: Block, rest: seq<Block>)
    ensures Certs([block] + rest) == (if block.tag == CERTIFICATE then [block.data] else []) + Certs(rest)
  {
    assert ([block] + rest)[1..] == rest;
  }

  /** parseCertPEMBlocks */
  method ParseCertPEMBlocks(text: bytes, c: Base64) returns (ders: seq<bytes>)
    ensures ders == CertBlocks(text, c)
  {
    hide Decode, Blocks, Certs;
    var rest := Lines(text);
    ders := [];
    while true
      invariant ders + Certs(Blocks(rest, c)) == CertBlocks(text, c)
      decreases |rest|
    {
      var decoded := Decode(rest, c);
      if decoded.None? {
        NoCerts();
        return;
      }
      var (block, after) := decoded.value;
      CertsStep(block, Blocks(after, c));
      if block.tag == CERTIFICATE {
        assert ders + ([block.data] + Certs(Blocks(after, c))) == ders + [block.data] + Certs(Blocks(after, c));
        ders := ders + [block.data];
      } else {
        assert [] + Certs(Blocks(after, c)) == Certs(Blocks(after, c));
      }
      rest := after;
    }
  }

  lemma NoCerts()
    ensures Certs([]) == []
  {
  }

  lemma ParseableStep(ders: seq<bytes>, i: nat, env: Env)
    requires i < |ders|
    ensures Fingerprints(Parseable(ders[i..], env), env.sha)
         == (if env.parses(ders[i]) then {env.sha(ders[i])} else {})
           + Fingerprints(Parseable(ders[i + 1..], env), env.sha)
  {
    assert ders[i..][0] == ders[i] && ders[i..][1..] == ders[i + 1..];
    if env.parses(ders[i]) {
      FingerprintsCons(ders[i], Parseable(ders[i + 1..], env), env.sha);
    } else {
      assert Parseable(ders[i..], env) == Parseable(ders[i + 1..], env);
    }
  }

  /** MergePEM's first loop. */
  method CollectHashes(text: bytes, env: Env) returns (hashes: set<bytes>)
    ensures hashes == Hashes(text, env)
  {
    hide CertBlocks, Parseable, Fingerprints;
    var blocks := ParseCertPEMBlocks(text, env.base64);
    assert blocks[0..] == blocks;
    hashes := {};
    for i := 0 to |blocks|
      invariant hashes + Fingerprints(Parseable(blocks[i..], env), env.sha) == Hashes(text, env)
    {
      ParseableStep(blocks, i, env);
      if env.parses(blocks[i]) {
        hashes := hashes + {env.sha(blocks[i])};
      }
    }
    NoFingerprints(env);
    assert blocks[|blocks|..] == [];
  }

  lemma NoFingerprints(env: Env)
    ensures Fingerprints(Parseable([], env), env.sha) == {}
  {
  }

  /** MergePEM's second loop: the certificates to add, unless one of the bundle is no certificate. */
  method CollectAdditions(org: seq<bytes>, present: set<bytes>, env: Env) returns (ok: bool, additions: seq<bytes>)
    ensures ok <==> forall j :: 0 <= j < |org| ==> env.parses(org[j])
    ensures ok ==> additions == MissingCerts(org, present, env.sha)
  {
    ghost var missing := MissingCerts(org, present, env.sha);
    var hashes := present;
    additions := [];
    for i := 0 to |org|
      invariant forall j :: 0 <= j < i ==> env.parses(org[j])
      invariant additions + MissingCerts(org[i..], hashes, env.sha) == missing
    {
      if !env.parses(org[i]) {
        return false, additions;
      }
      assert org[i..][0] == org[i] && org[i..][1..] == org[i + 1..];
      var fp := env.sha(org[i]);
      if fp !in hashes {
        hashes := hashes + {fp};
        assert additions + ([org[i]] + MissingCerts(org[i + 1..], hashes, env.sha))
            == additions + [org[i]] + MissingCerts(org[i + 1..], hashes, env.sha);
        additions := additions + [org[i]];
      }
    }
    assert org[|org|..] == [];
    ok := true;
  }

  /** MergePEM */
  method MergePEM(existing: bytes, addition: bytes, env: Env) returns (r: MergeResult)
    ensures r == MergePem(existing, addition, env)
  {
    hide CertBlocks, AppendBlock, MissingCerts, Fingerprints, Parseable, TrimRight;
    var hashes := CollectHashes(existing, env);
    var org := ParseCertPEMBlocks(addition, env.base64);
    var ok, additions := CollectAdditions(org, hashes, env);
    if !ok {
      return BadCertificate;
    }
    if additions == [] {
      return Merged(existing, 0);
    }
    var out := TrimRight(existing, IsNewline);
    ghost var trimmed := out;
    for i := 0 to |additions|
      invariant AppendBlocks(out, additions[i..], env.base64) == AppendBlocks(trimmed, additions, env.base64)
    {
      assert additions[i..][0] == additions[i] && additions[i..][1..] == additions[i + 1..];
      out := AppendBlock(out, additions[i], env.base64);
    }
    assert additions[|additions|..] == [];
    r := Merged(out, |additions|);
  }
}
