/**
 PEM text (sections 3 and 5 of RFC 7468) line by line, read as Go's
 encoding/pem reads it, with the base64 codec left abstract.
 */
module Pem {
  import opened Bytes
  import opened Options
  import opened Seqs

  const NL: byte := 10
  const CR: byte := 13
  const COLON: byte := 58
  const DASH: byte := 45
  const BEGIN: bytes := [45, 45, 45, 45, 45, 66, 69, 71, 73, 78, 32]  // "-----BEGIN "
  const END: bytes := [45, 45, 45, 45, 45, 69, 78, 68, 32]  // "-----END "
  const DASHES: bytes := [45, 45, 45, 45, 45]
  const CERTIFICATE: bytes := [67, 69, 82, 84, 73, 70, 73, 67, 65, 84, 69]  // "CERTIFICATE"

  /** Base64 over the lines of a body. */
  datatype Base64 = Base64(encode: bytes -> seq<bytes>, decode: seq<bytes> -> Option<bytes>)

  /** Decoding undoes encoding; no dash is in the alphabet; encoded lines are plain. */
  ghost predicate Faithful(c: Base64) {
    && (forall data :: c.decode(c.encode(data)) == Some(data))
    && (forall lines, i :: 0 <= i < |lines| && DASH in lines[i] ==> c.decode(lines) == None)
    && (forall data, i :: 0 <= i < |c.encode(data)| ==>
          && NL !in c.encode(data)[i] && CR !in c.encode(data)[i]
          && COLON !in c.encode(data)[i] && DASH !in c.encode(data)[i])
  }

  datatype Block = Block(tag: bytes, data: bytes)

  /** A line without the carriage return of its line ending. */
  function DropCR(line: bytes): bytes {
    if line != [] && line[|line| - 1] == CR then line[..|line| - 1] else line
  }

  /** Lines that a newline ends. */
  function Ended(parts: seq<bytes>): (lines: seq<bytes>)
    ensures |lines| == |parts|
  {
    seq(|parts|, i requires 0 <= i < |parts| => DropCR(parts[i]))
  }

  /** The lines of a text: a carriage return belongs to the newline after it, and no newline ends the last line. */
  function Lines(text: bytes): seq<bytes> {
    var parts := Split(text, NL);
    Ended(parts[..|parts| - 1]) + [parts[|parts| - 1]]
  }

  predicate IsBlank(b: byte) {
    b == 32 || b == 9
  }

  function Chomp(line: bytes): bytes {
    TrimRight(line, IsBlank)
  }

  /** The tag of a well-formed BEGIN line. */
  function BeginTag(line: bytes): Option<bytes> {
    if !(BEGIN <= line) then None
    else
      var t := Chomp(line[|BEGIN|..]);
      if |t| >= |DASHES| && t[|t| - |DASHES|..] == DASHES then Some(t[..|t| - |DASHES|]) else None
  }

  predicate IsEnd(line: bytes) {
    END <= line
  }

  /** An END line for the tag, with only blanks after it. */
  predicate EndsBlock(line: bytes, tag: bytes) {
    IsEnd(line) && tag + DASHES <= line[|END|..] && Chomp(line[|END|..][|tag| + |DASHES|..]) == []
  }

  ghost predicate Blanks(s: bytes) {
    forall i :: 0 <= i < |s| ==> s[i] == 32 || s[i] == 9
  }

  lemma ChompBlanks(s: bytes, blanks: bytes)
    requires Blanks(blanks) && s != [] && s[|s| - 1] == DASH
    ensures Chomp(s + blanks) == s
    decreases |blanks|
  {
    if blanks == [] {
      assert s + blanks == s;
    } else {
      var most := blanks[..|blanks| - 1];
      assert (s + blanks)[..|s + blanks| - 1] == s + most;
      ChompBlanks(s, most);
    }
  }

  lemma BeginTagIs(tag: bytes, blanks: bytes)
    requires Blanks(blanks)
    ensures BeginTag(BEGIN + tag + DASHES + blanks) == Some(tag)
  {
    var line, s := BEGIN + tag + DASHES + blanks, tag + DASHES;
    assert line[..|BEGIN|] == BEGIN && line[|BEGIN|..] == s + blanks;
    assert s[|s| - 1] == DASHES[4];
    ChompBlanks(s, blanks);
    assert s[|s| - 5..] == DASHES && s[..|s| - 5] == tag;
  }

  lemma TagOfBegin(line: bytes) returns (blanks: bytes)
    requires BeginTag(line).Some?
    ensures Blanks(blanks) && line == BEGIN + BeginTag(line).value + DASHES + blanks
  {
    var t := line[|BEGIN|..];
    var kept := Chomp(t);
    TrimRightShrinks(t, IsBlank);
    blanks := t[|kept|..];
    assert kept == BeginTag(line).value + DASHES && t == kept + blanks && line == BEGIN + t;
    forall i | 0 <= i < |blanks| ensures blanks[i] == 32 || blanks[i] == 9 {
      assert IsBlank(t[|kept| + i]);
    }
  }

  /** A BEGIN line, by its text: the type between the dashes, and blanks at the end at most. */
  lemma BeginTagExactly(line: bytes, tag: bytes)
    ensures BeginTag(line) == Some(tag)
            <==> exists blanks :: Blanks(blanks) && line == BEGIN + tag + DASHES + blanks
  {
    hide BeginTag, Blanks;
    if BeginTag(line) == Some(tag) {
      var blanks := TagOfBegin(line);
    }
    if blanks :| Blanks(blanks) && line == BEGIN + tag + DASHES + blanks {
      BeginTagIs(tag, blanks);
    }
  }

  lemma EndsBlockIs(tag: bytes, blanks: bytes)
    requires Blanks(blanks)
    ensures EndsBlock(END + tag + DASHES + blanks, tag)
  {
    var line, t := END + tag + DASHES + blanks, tag + DASHES + blanks;
    assert line[..|END|] == END && line[|END|..] == t;
    assert t[..|tag| + 5] == tag + DASHES && t[|tag| + 5..] == blanks;
    AllBlank(blanks);
  }

  lemma BlanksOfEnd(line: bytes, tag: bytes) returns (blanks: bytes)
    requires EndsBlock(line, tag)
    ensures Blanks(blanks) && line == END + tag + DASHES + blanks
  {
    blanks := line[|END|..][|tag| + |DASHES|..];
    TrimRightShrinks(blanks, IsBlank);
    assert line == END + line[|END|..] && line[|END|..] == tag + DASHES + blanks;
    forall i | 0 <= i < |blanks| ensures blanks[i] == 32 || blanks[i] == 9 {
      assert IsBlank(blanks[i]);
    }
  }

  /** And the END line for a type. */
  lemma EndsBlockExactly(line: bytes, tag: bytes)
    ensures EndsBlock(line, tag) <==> exists blanks :: Blanks(blanks) && line == END + tag + DASHES + blanks
  {
    hide EndsBlock, Blanks;
    if EndsBlock(line, tag) {
      var blanks := BlanksOfEnd(line, tag);
    }
    if blanks :| Blanks(blanks) && line == END + tag + DASHES + blanks {
      EndsBlockIs(tag, blanks);
    }
  }

  lemma {:induction false} AllBlank(blanks: bytes)
    requires Blanks(blanks)
    ensures Chomp(blanks) == []
  {
    if blanks != [] {
      AllBlank(blanks[..|blanks| - 1]);
    }
  }

  /** The header lines, those with a colon, directly after a BEGIN line. */
  function HeaderCount(lines: seq<bytes>): (n: nat)
    ensures n <= |lines|
    ensures forall i :: 0 <= i < n ==> COLON in lines[i]
    ensures n < |lines| ==> COLON !in lines[n]
  {
    if lines == [] || COLON !in lines[0] then 0 else 1 + HeaderCount(lines[1..])
  }

  /** The first line from k on that starts like an END line, or the number of lines. */
  function FirstEnd(lines: seq<bytes>, k: nat): (e: nat)
    requires k <= |lines|
    ensures k <= e <= |lines|
    ensures forall i :: k <= i < e ==> !IsEnd(lines[i])
    ensures e < |lines| ==> IsEnd(lines[e])
    decreases |lines| - k
  {
    if k == |lines| || IsEnd(lines[k]) then k else FirstEnd(lines, k + 1)
  }

  /** The body of a block with this tag on the lines after its BEGIN line, and how many lines it takes. */
  function TryBlock(tag: bytes, lines: seq<bytes>, c: Base64): (r: Option<(bytes, nat)>)
    ensures r.Some? ==> r.value.1 <= |lines|
  {
    var h := HeaderCount(lines);
    var e := FirstEnd(lines, h);
    if e == |lines| || (h > 0 && e == h) || !EndsBlock(lines[e], tag) then None
    else match c.decode(lines[h..e])
      case None => None
      case Some(data) => Some((data, e + 1))
  }

  /** With h header lines, the body ends before the END line, the last of the lines used. */
  ghost predicate BlockSpans(tag: bytes, lines: seq<bytes>, c: Base64, data: bytes, used: nat, h: nat) {
    && h < used <= |lines|
    && (forall i :: 0 <= i < h ==> COLON in lines[i]) && COLON !in lines[h]
    && (forall i :: h <= i < used - 1 ==> !(END <= lines[i])) && EndsBlock(lines[used - 1], tag)
    && (h == 0 || h < used - 1) && c.decode(lines[h..used - 1]) == Some(data)
  }

  /**
   A block, line by line: its headers are the lines with a colon, its END line the
   first line after them that starts like one, which has to be for this type; an
   END line directly after headers ends no block.
   */
  lemma TryBlockExactly(tag: bytes, lines: seq<bytes>, c: Base64, data: bytes, used: nat)
    ensures TryBlock(tag, lines, c) == Some((data, used)) <==> exists h :: BlockSpans(tag, lines, c, data, used, h)
  {
    hide EndsBlock;
    var h := HeaderCount(lines);
    var e := FirstEnd(lines, h);
    if h' :| BlockSpans(tag, lines, c, data, used, h') {
      assert h' == h;
      EndsAreEnds(lines[used - 1], tag);
      assert e == used - 1;
    }
    if TryBlock(tag, lines, c) == Some((data, used)) {
      assert BlockSpans(tag, lines, c, data, used, h);
    }
  }

  lemma EndsAreEnds(line: bytes, tag: bytes)
    requires EndsBlock(line, tag)
    ensures IsEnd(line)
  {
  }

  /** The lines after a BEGIN line that started no block: its header lines are passed over with it. */
  function Resume(lines: seq<bytes>): (rest: seq<bytes>)
    requires lines != []
    ensures |rest| < |lines|
  {
    lines[1 + HeaderCount(lines[1..])..]
  }

  /** Every block, in order: pem.Decode until it finds no more. */
  function Blocks(lines: seq<bytes>, c: Base64): seq<Block>
    decreases |lines|
  {
    if lines == [] then []
    else match BeginTag(lines[0])
      case None => Blocks(lines[1..], c)
      case Some(tag) =>
        match TryBlock(tag, lines[1..], c)
        case None => Blocks(Resume(lines), c)
        case Some((data, used)) => [Block(tag, data)] + Blocks(lines[1 + used..], c)
  }

  /** parseCertPEMBlocks: the bodies of the CERTIFICATE blocks. */
  function Certs(blocks: seq<Block>): seq<bytes> {
    if blocks == [] then []
    else (if blocks[0].tag == CERTIFICATE then [blocks[0].data] else []) + Certs(blocks[1..])
  }

  /** The blocks of a text, whatever their tags. */
  function TextBlocks(text: bytes, c: Base64): seq<Block> {
    Blocks(Lines(text), c)
  }

  function CertBlocks(text: bytes, c: Base64): seq<bytes> {
    Certs(TextBlocks(text, c))
  }

  function BeginLine(): bytes {
    BEGIN + CERTIFICATE + DASHES
  }

  function EndLine(): bytes {
    END + CERTIFICATE + DASHES
  }

  /** The lines of an encoded certificate. */
  function BlockLines(data: bytes, c: Base64): seq<bytes> {
    [BeginLine()] + c.encode(data) + [EndLine()]
  }

  /** pem.EncodeToMemory of a certificate. */
  function EncodeToMemory(data: bytes, c: Base64): bytes {
    Join(BlockLines(data, c), NL) + [NL]
  }

  // ----- text after a text

  /** Lines that neither complete nor disturb a block begun before them. */
  ghost predicate Quiet(ext: seq<bytes>) {
    && ext != [] && COLON !in ext[0] && !IsEnd(ext[0])
    && (FirstEnd(ext, 0) == |ext| || DASH in ext[0])
  }

  lemma {:induction false} HeaderCountExtends(lines: seq<bytes>, ext: seq<bytes>)
    requires ext != [] && COLON !in ext[0]
    ensures HeaderCount(lines + ext) == HeaderCount(lines)
  {
    if lines != [] && COLON in lines[0] {
      assert (lines + ext)[1..] == lines[1..] + ext;
      HeaderCountExtends(lines[1..], ext);
    }
  }

  lemma {:induction false} FirstEndExtends(lines: seq<bytes>, ext: seq<bytes>, k: nat)
    requires k <= |lines|
    ensures FirstEnd(lines + ext, k)
         == if FirstEnd(lines, k) < |lines| then FirstEnd(lines, k) else |lines| + FirstEnd(ext, 0)
    decreases |lines| - k
  {
    if k == |lines| {
      FirstEndShifts(lines, ext, 0);
    } else if !IsEnd(lines[k]) {
      FirstEndExtends(lines, ext, k + 1);
    }
  }

  lemma {:induction false} FirstEndShifts(lines: seq<bytes>, ext: seq<bytes>, k: nat)
    requires k <= |ext|
    ensures FirstEnd(lines + ext, |lines| + k) == |lines| + FirstEnd(ext, k)
    decreases |ext| - k
  {
    if k < |ext| && !IsEnd(ext[k]) {
      FirstEndShifts(lines, ext, k + 1);
    }
  }

  /** A block, or a BEGIN line without one, stays so whatever quiet lines follow. */
  lemma TryBlockExtends(tag: bytes, lines: seq<bytes>, ext: seq<bytes>, c: Base64)
    requires Faithful(c) && Quiet(ext)
    ensures TryBlock(tag, lines + ext, c) == TryBlock(tag, lines, c)
  {
    hide HeaderCount, FirstEnd, IsEnd, EndsBlock;
    var all := lines + ext;
    var h := HeaderCount(lines);
    HeaderCountExtends(lines, ext);
    FirstEndExtends(lines, ext, h);
    var e := FirstEnd(lines, h);
    if e < |lines| {
      assert all[h..e] == lines[h..e];
    } else if FirstEnd(ext, 0) < |ext| {
      // the body would take in the first line of the extension
      var e' := |lines| + FirstEnd(ext, 0);
      assert FirstEnd(ext, 0) > 0;
      assert all[h..e'][|lines| - h] == ext[0];
    }
  }

  lemma ResumeExtends(lines: seq<bytes>, ext: seq<bytes>)
    requires lines != [] && Quiet(ext)
    ensures Resume(lines + ext) == Resume(lines) + ext
  {
    assert (lines + ext)[1..] == lines[1..] + ext;
    HeaderCountExtends(lines[1..], ext);
  }

  /** The blocks of a text followed by quiet lines are the text's blocks and then theirs. */
  lemma {:induction false} BlocksConcat(lines: seq<bytes>, ext: seq<bytes>, c: Base64)
    requires Faithful(c) && Quiet(ext)
    ensures Blocks(lines + ext, c) == Blocks(lines, c) + Blocks(ext, c)
    decreases |lines|
  {
    hide TryBlock, BeginTag, Quiet, Faithful;
    if lines == [] {
      assert lines + ext == ext;
    } else {
      var rest := lines[1..];
      assert (lines + ext)[0] == lines[0] && (lines + ext)[1..] == rest + ext;
      match BeginTag(lines[0])
      case None =>
        BlocksConcat(rest, ext, c);
      case Some(tag) =>
        TryBlockExtends(tag, rest, ext, c);
        ResumeExtends(lines, ext);
        match TryBlock(tag, rest, c)
        case None =>
          BlocksConcat(Resume(lines), ext, c);
        case Some((_, used)) =>
          assert (lines + ext)[1 + used..] == lines[1 + used..] + ext;
          BlocksConcat(lines[1 + used..], ext, c);
    }
  }

  lemma {:induction false} CertsConcat(a: seq<Block>, b: seq<Block>)
    ensures Certs(a + b) == Certs(a) + Certs(b)
  {
    if a == [] {
      assert a + b == b;
    } else {
      assert (a + b)[1..] == a[1..] + b;
      CertsConcat(a[1..], b);
    }
  }

  /** A block of another type is no certificate. */
  lemma OneBlocksCerts(block: Block)
    ensures Certs([block])
         == if block.tag == [67, 69, 82, 84, 73, 70, 73, 67, 65, 84, 69] then [block.data] else []  // "CERTIFICATE"
  {
    assert [block][1..] == [];
  }

  // ----- an encoded block

  lemma BeginLineBegins()
    ensures BeginTag(BeginLine()) == Some(CERTIFICATE) && !IsEnd(BeginLine())
    ensures COLON !in BeginLine() && NL !in BeginLine() && DASH in BeginLine()
  {
    var b := BeginLine();
    assert b[..11] == BEGIN && b[11..] == CERTIFICATE + DASHES;
    var t := CERTIFICATE + DASHES;
    assert t[15] == 45 && Chomp(t) == t;
    assert t[11..] == DASHES && t[..11] == CERTIFICATE;
    assert b[0] == DASH && b[5] == 66 && END[5] == 69;
  }

  lemma EndLineEnds()
    ensures EndsBlock(EndLine(), CERTIFICATE) && IsEnd(EndLine())
    ensures COLON !in EndLine() && NL !in EndLine()
  {
    var e := EndLine();
    assert e[..9] == END && e[9..] == CERTIFICATE + DASHES;
    assert e[9..][16..] == [];
  }

  lemma EndLinesHaveDashes(line: bytes)
    ensures IsEnd(line) ==> DASH in line
  {
    if IsEnd(line) {
      assert line[0] == END[0];
    }
  }

  lemma BlockLinesAreQuiet(data: bytes, tail: seq<bytes>, c: Base64)
    ensures Quiet(BlockLines(data, c) + tail)
  {
    hide BeginTag, IsEnd, BeginLine, EndLine;
    BeginLineBegins();
    assert (BlockLines(data, c) + tail)[0] == BeginLine();
  }

  /** An encoded certificate is read back as one block. */
  lemma BlockLinesRead(data: bytes, tail: seq<bytes>, c: Base64)
    requires Faithful(c)
    ensures Blocks(BlockLines(data, c) + tail, c) == [Block(CERTIFICATE, data)] + Blocks(tail, c)
  {
    hide BeginTag, BeginLine, EndLine, TryBlock, Faithful;
    BeginLineBegins();
    var rest := c.encode(data) + [EndLine()] + tail;
    var all := BlockLines(data, c) + tail;
    assert all == [BeginLine()] + rest;
    BodyRead(data, tail, c);
    assert all[1 + (|c.encode(data)| + 1)..] == tail;
  }

  lemma BodyRead(data: bytes, tail: seq<bytes>, c: Base64)
    requires Faithful(c)
    ensures TryBlock(CERTIFICATE, c.encode(data) + [EndLine()] + tail, c) == Some((data, |c.encode(data)| + 1))
  {
    hide EndsBlock, IsEnd, EndLine;
    EndLineEnds();
    var body := c.encode(data);
    var rest := body + [EndLine()] + tail;
    assert rest[0] == if body == [] then EndLine() else body[0];
    assert HeaderCount(rest) == 0;
    FirstEndOf(rest, 0, body);
    assert rest[0..|body|] == body;
  }

  lemma {:induction false} FirstEndOf(lines: seq<bytes>, k: nat, body: seq<bytes>)
    requires k <= |body| < |lines| && IsEnd(lines[|body|])
    requires forall i :: 0 <= i < |body| ==> lines[i] == body[i] && DASH !in body[i]
    ensures FirstEnd(lines, k) == |body|
    decreases |body| - k
  {
    if k < |body| {
      EndLinesHaveDashes(lines[k]);
      FirstEndOf(lines, k + 1, body);
    }
  }

  // ----- a carriage return at the very end of a text

  /** The block whose END line is the last line of all, or none. */
  function Closing(lines: seq<bytes>, c: Base64): seq<Block>
    decreases |lines|
  {
    if lines == [] then []
    else match BeginTag(lines[0])
      case None => Closing(lines[1..], c)
      case Some(tag) =>
        match TryBlock(tag, lines[1..], c)
        case None => Closing(Resume(lines), c)
        case Some((data, used)) =>
          if 1 + used < |lines| then Closing(lines[1 + used..], c) else [Block(tag, data)]
  }

  /** A carriage return makes no END line of a line, nor takes one away, but what it ends is blank no more. */
  lemma EndWithCR(last: bytes, tag: bytes)
    ensures IsEnd(last + [CR]) <==> IsEnd(last)
    ensures COLON in last + [CR] <==> COLON in last
    ensures IsEnd(last) ==> !EndsBlock(last + [CR], tag)
  {
    var m := last + [CR];
    assert m[|last|] == CR;
    assert END[|END| - 1] == 32;
    if IsEnd(last) {
      var rest := m[|END|..];
      if tag + DASHES <= rest {
        assert (tag + DASHES)[|tag| + 4] == 45 && rest[|tag| + 4] == 45;
        assert rest[|rest| - 1] == CR;
        var tail := rest[|tag| + |DASHES|..];
        assert tail[|tail| - 1] == CR;
      }
    }
  }

  lemma {:induction false} SameHeaders(init: seq<bytes>, a: bytes, b: bytes)
    requires COLON in a <==> COLON in b
    ensures HeaderCount(init + [a]) == HeaderCount(init + [b])
  {
    if init != [] && COLON in init[0] {
      assert (init + [a])[1..] == init[1..] + [a] && (init + [b])[1..] == init[1..] + [b];
      SameHeaders(init[1..], a, b);
    } else if init == [] {
      assert HeaderCount([]) == 0 && [a][1..] == [] && [b][1..] == [];
    }
  }

  lemma {:induction false} SameFirstEnd(init: seq<bytes>, a: bytes, b: bytes, k: nat)
    requires k <= |init| + 1 && (IsEnd(a) <==> IsEnd(b))
    ensures FirstEnd(init + [a], k) == FirstEnd(init + [b], k)
    decreases |init| + 1 - k
  {
    hide IsEnd;
    if k <= |init| {
      assert k < |init| ==> (init + [a])[k] == (init + [b])[k];
      SameFirstEnd(init, a, b, k + 1);
    }
  }

  lemma {:induction false} NoBeginNoBlock(lines: seq<bytes>, c: Base64)
    requires forall i :: 0 <= i < |lines| ==> BeginTag(lines[i]) == None
    ensures Blocks(lines, c) == []
  {
    hide BeginTag, TryBlock;
    if lines != [] {
      NoBeginNoBlock(lines[1..], c);
    }
  }

  lemma NoBegin(line: bytes)
    requires DASH !in line || IsEnd(line)
    ensures BeginTag(line) == None
  {
    assert BEGIN[0] == DASH && BEGIN[5] == 66 && END[5] == 69;
    if IsEnd(line) {
      assert line[5] == END[5];
    }
  }

  /** Trying a block when only the very last line differs, and only by a carriage return. */
  lemma TryWithCR(tag: bytes, init: seq<bytes>, last: bytes, c: Base64)
    requires Faithful(c)
    ensures var (lines, cr) := (init + [last], init + [last + [CR]]);
            && HeaderCount(cr) == HeaderCount(lines)
            && match TryBlock(tag, lines, c)
               case None => TryBlock(tag, cr, c) == None
               case Some((data, used)) =>
                 if used < |lines| then TryBlock(tag, cr, c) == Some((data, used))
                 else && TryBlock(tag, cr, c) == None && IsEnd(last) && HeaderCount(lines) <= |init|
                      && forall i :: HeaderCount(lines) <= i < |init| ==> DASH !in init[i]
  {
    hide HeaderCount, FirstEnd, IsEnd, EndsBlock;
    var lines, cr := init + [last], init + [last + [CR]];
    EndWithCR(last, tag);
    SameHeaders(init, last, last + [CR]);
    var h := HeaderCount(lines);
    SameFirstEnd(init, last, last + [CR], h);
    var e := FirstEnd(lines, h);
    if e < |lines| {
      assert lines[h..e] == cr[h..e];
      if TryBlock(tag, lines, c).Some? && e == |init| {
        forall i | h <= i < |init| ensures DASH !in init[i] {
          assert lines[h..e][i - h] == init[i];
        }
      }
    }
  }

  lemma LoneLine(line: bytes, c: Base64)
    ensures Blocks([line], c) == [] && Closing([line], c) == []
  {
    assert [line][1..] == [] && Resume([line]) == [];
    assert forall tag :: TryBlock(tag, [], c) == None;
    assert Closing([], c) == [] && Closing([line], c) == [];
  }

  /** After a block's BEGIN line failed for the carriage return, nothing more is found up to the end. */
  lemma BodyWithCR(rest: seq<bytes>, last: bytes, h: nat, c: Base64)
    requires h <= |rest| && IsEnd(last) && forall i :: h <= i < |rest| ==> DASH !in rest[i]
    ensures Blocks(rest[h..] + [last + [CR]], c) == []
  {
    hide IsEnd, BeginTag;
    var tail := rest[h..] + [last + [CR]];
    EndWithCR(last, []);
    forall i | 0 <= i < |tail| ensures BeginTag(tail[i]) == None {
      NoBegin(tail[i]);
    }
    NoBeginNoBlock(tail, c);
  }

  /** One step of the decoder, and of the search for a closing block. */
  lemma DecodeStep(lines: seq<bytes>, c: Base64)
    requires lines != []
    ensures match BeginTag(lines[0])
            case None => Blocks(lines, c) == Blocks(lines[1..], c) && Closing(lines, c) == Closing(lines[1..], c)
            case Some(tag) =>
              match TryBlock(tag, lines[1..], c)
              case None => Blocks(lines, c) == Blocks(Resume(lines), c)
                && Closing(lines, c) == Closing(Resume(lines), c)
              case Some((data, used)) =>
                && Blocks(lines, c) == [Block(tag, data)] + Blocks(lines[1 + used..], c)
                && Closing(lines, c) == if 1 + used < |lines| then Closing(lines[1 + used..], c) else [Block(tag, data)]
  {
    hide BeginTag, TryBlock, Resume;
  }

  lemma NoLines(c: Base64)
    ensures Blocks([], c) == [] && Closing([], c) == []
  {
  }

  /** A carriage return at the end of a text, with no newline, undoes the block that the last line closes. */
  lemma {:induction false} LastCRUndoes(init: seq<bytes>, last: bytes, c: Base64)
    requires Faithful(c)
    ensures Blocks(init + [last], c) == Blocks(init + [last + [CR]], c) + Closing(init + [last], c)
    decreases |init|
  {
    hide TryBlock, BeginTag, Faithful, HeaderCount, Blocks, Closing;
    var lines, cr := init + [last], init + [last + [CR]];
    NoLines(c);
    if init == [] {
      assert lines == [last] && cr == [last + [CR]];
      LoneLine(last, c);
      LoneLine(last + [CR], c);
    } else {
      var rest := init[1..];
      assert lines[1..] == rest + [last] && cr[1..] == rest + [last + [CR]];
      DecodeStep(lines, c);
      DecodeStep(cr, c);
      match BeginTag(lines[0])
      case None =>
        LastCRUndoes(rest, last, c);
      case Some(tag) =>
        TryWithCR(tag, rest, last, c);
        var h := HeaderCount(lines[1..]);
        match TryBlock(tag, lines[1..], c)
        case None =>
          if h <= |rest| {
            assert Resume(lines) == rest[h..] + [last] && Resume(cr) == rest[h..] + [last + [CR]];
            LastCRUndoes(rest[h..], last, c);
          } else {
            assert Resume(lines) == Resume(cr) == [];
          }
        case Some((data, used)) =>
          if used <= |rest| {
            assert lines[1 + used..] == rest[used..] + [last] && cr[1 + used..] == rest[used..] + [last + [CR]];
            LastCRUndoes(rest[used..], last, c);
          } else {
            BodyWithCR(rest, last, h, c);
            assert Resume(cr) == rest[h..] + [last + [CR]];
            assert lines[1 + used..] == [];
          }
    }
  }
}
