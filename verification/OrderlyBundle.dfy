/**
 The merge under any decoder. What releases of a PEM decoder make of text that is
 malformed around its BEGIN and END lines differs; on orderly text they agree. A
 merge keeps text orderly, so what is proved of it holds for each of them.
 */
module OrderlyBundle {
  import opened Bytes
  import opened CertSets
  import opened Options
  import opened Pem
  import opened Seqs
  import opened Bundle

  /** The start of a BEGIN or END line's text. */
  predicate MarkAt(line: bytes, i: nat) {
    i <= |line| && (BEGIN <= line[i..] || END <= line[i..])
  }

  /** Such text stands at the start of a line only, of one without a colon, and a line that starts so is a whole BEGIN
      line. */
  ghost predicate OrderlyLine(line: bytes) {
    forall i :: MarkAt(line, i) ==> i == 0 && COLON !in line && (BEGIN <= line ==> BeginTag(line).Some?)
  }

  ghost predicate AllOrderly(lines: seq<bytes>) {
    forall line :: line in lines ==> OrderlyLine(line)
  }

  ghost predicate Orderly(text: bytes) {
    AllOrderly(Lines(text))
  }

  /** The text once a newline ends it. */
  ghost predicate EndedOrderly(text: bytes) {
    AllOrderly(Ended(Split(text, NL)))
  }

  lemma DropCRKeepsOrder(line: bytes)
    requires OrderlyLine(line)
    ensures OrderlyLine(DropCR(line))
  {
    var short := DropCR(line);
    if short != line {
      assert line == short + [CR];
      forall i: nat | MarkAt(short, i)
        ensures i == 0 && COLON !in short && (BEGIN <= short ==> BeginTag(short).Some?) {
        assert line[i..] == short[i..] + [CR];
        assert MarkAt(line, i);
        if BEGIN <= short {
          assert BEGIN <= line;
          NoTagBeforeCR(short);
        }
      }
    }
  }

  /** A carriage return left at the end of a BEGIN line spoils it. */
  lemma NoTagBeforeCR(short: bytes)
    requires BEGIN <= short
    ensures BeginTag(short + [CR]) == None
  {
    var t := (short + [CR])[|BEGIN|..];
    assert t[|t| - 1] == CR && Chomp(t) == t;
  }

  lemma OrderlyIsEnded(text: bytes)
    requires Orderly(text)
    ensures EndedOrderly(text)
  {
    hide OrderlyLine, DropCR, Ended, Lines;
    var init, last := LastLine(text);
    assert last in Lines(text) && forall line :: line in init ==> line in Lines(text);
    DropCRKeepsOrder(last);
  }

  lemma {:induction false} TrimmedIsEnded(text: bytes)
    requires EndedOrderly(text)
    ensures EndedOrderly(TrimRight(text, IsNewline))
  {
    hide OrderlyLine, DropCR;
    if text != [] && text[|text| - 1] == NL {
      var t := text[..|text| - 1];
      assert text == t + [NL] + [];
      SplitConcat(t, [], NL);
      EndedConcat(Split(t, NL), Split([], NL));
      assert forall line :: line in Ended(Split(t, NL)) ==> line in Ended(Split(text, NL));
      TrimmedIsEnded(t);
    }
  }

  // ----- an appended block

  lemma NoMarks(line: bytes)
    requires DASH !in line
    ensures OrderlyLine(line)
  {
    forall i: nat ensures !MarkAt(line, i) {
      if MarkAt(line, i) {
        MarksHaveDashes(line, i);
      }
    }
  }

  lemma MarksHaveDashes(line: bytes, i: nat)
    requires MarkAt(line, i)
    ensures i + 9 <= |line| && line[i] == DASH && line[i + 4] == DASH && line[i + 5] != DASH
  {
    assert BEGIN[0] == DASH && BEGIN[4] == DASH && BEGIN[5] == 66;
    assert END[0] == DASH && END[4] == DASH && END[5] == 69;
    assert line[i..][0] == line[i] && line[i..][4] == line[i + 4] && line[i..][5] == line[i + 5];
  }

  lemma BeginLineIsOrderly()
    ensures OrderlyLine(BeginLine())
  {
    hide BeginTag, MarkAt;
    BeginLineBegins();
    var line := BeginLine();
    assert |line| == 27 && forall j :: 5 <= j < 22 ==> line[j] != DASH;
    forall i: nat | MarkAt(line, i) ensures i == 0 {
      MarksHaveDashes(line, i);
    }
  }

  lemma EndLineIsOrderly()
    ensures OrderlyLine(EndLine())
  {
    hide BeginTag, MarkAt;
    EndLineEnds();
    NoBegin(EndLine());
    var line := EndLine();
    assert |line| == 25 && forall j :: 5 <= j < 20 ==> line[j] != DASH;
    assert line[5] == 69 && BEGIN[5] == 66;
    forall i: nat | MarkAt(line, i) ensures i == 0 {
      MarksHaveDashes(line, i);
    }
  }

  lemma BlockIsOrderly(data: bytes, c: Base64)
    requires Faithful(c)
    ensures AllOrderly(BlockLines(data, c) + [[]])
  {
    hide OrderlyLine, BeginLine, EndLine;
    BeginLineIsOrderly();
    EndLineIsOrderly();
    NoMarks([]);
    forall line | line in c.encode(data) ensures OrderlyLine(line) {
      NoMarks(line);
    }
  }

  lemma {:induction false} AppendedIsOrderly(out: bytes, ders: seq<bytes>, c: Base64)
    requires Faithful(c) && ders != [] && EndedOrderly(out)
    ensures Orderly(AppendBlocks(out, ders, c))
    decreases |ders|
  {
    hide AllOrderly, AppendBlock, Faithful, BlockLines, Lines, Ended;
    var next := AppendBlock(out, ders[0], c);
    AppendedLines(out, ders[0], c);
    BlockIsOrderly(ders[0], c);
    OrderlyConcat(if out == [] then [] else Ended(Split(out, NL)), BlockLines(ders[0], c) + [[]]);
    if |ders| > 1 {
      OrderlyIsEnded(next);
      AppendedIsOrderly(next, ders[1..], c);
    } else {
      assert ders[1..] == [] && AppendBlocks(next, [], c) == next;
    }
  }

  lemma OrderlyConcat(a: seq<bytes>, b: seq<bytes>)
    ensures AllOrderly([])
    ensures AllOrderly(a) && AllOrderly(b) ==> AllOrderly(a + b)
  {
    hide OrderlyLine;
  }

  /** A merge keeps orderly text orderly. */
  lemma MergedIsOrderly(existing: bytes, addition: bytes, env: Env)
    requires Faithful(env.base64) && Orderly(existing) && MergePem(existing, addition, env).Merged?
    ensures Orderly(MergePem(existing, addition, env).text)
  {
    hide AllOrderly, AppendBlocks, Faithful, Lines, Ended, TrimRight;
    var missing := MissingCerts(CertBlocks(addition, env.base64), Hashes(existing, env), env.sha);
    if missing != [] {
      OrderlyIsEnded(existing);
      TrimmedIsEnded(existing);
      AppendedIsOrderly(TrimRight(existing, IsNewline), missing, env.base64);
    }
  }

  /** A decoder that reads orderly text as the model does. */
  ghost predicate Agrees(decode: bytes -> seq<bytes>, c: Base64) {
    forall text :: Orderly(text) ==> decode(text) == CertBlocks(text, c)
  }

  /**
   Whatever such a decoder makes of other text: on orderly bundles the merge it
   leads to is the model's, it finds in the merged text the blocks the model
   does, and merging with it again changes nothing.
   */
  lemma MergesForAnyDecoder(decode: bytes -> seq<bytes>, existing: bytes, addition: bytes, env: Env)
    requires Faithful(env.base64) && Agrees(decode, env.base64) && Orderly(existing) && Orderly(addition)
    requires AllParse(decode(addition), env)
    ensures var m := MergeOf(existing, decode(existing), decode(addition), env);
            var missing := MissingCerts(decode(addition), Hashes(existing, env), env.sha);
            && m.Merged? && m == MergePem(existing, addition, env)
            && decode(m.text)
                 == decode(existing) + (if missing == [] then [] else Unfinished(existing, env.base64)) + missing
            && MergeOf(m.text, decode(m.text), decode(addition), env) == Merged(m.text, 0)
  {
    hide CertBlocks, Faithful, Orderly, MergeOf, AllParse, Unfinished, MissingCerts;
    assert decode(existing) == CertBlocks(existing, env.base64) && decode(addition) == CertBlocks(addition, env.base64);
    MergeAppendsMissing(existing, addition, env);
    AllParseExactly(CertBlocks(addition, env.base64), env);
    MergedIsOrderly(existing, addition, env);
    assert decode(MergePem(existing, addition, env).text)
      == CertBlocks(MergePem(existing, addition, env).text, env.base64);
  }
}
