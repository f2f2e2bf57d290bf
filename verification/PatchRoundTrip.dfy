/**
  Writing patches and parsing the lines back gives the same patches exactly when
  no removed line starts like a source header and no added line like a
  destination header.
 */
module PatchRoundTrip {
  import opened Wrappers
  import opened PatchText

  // ----- what a written line means when it is read

  lemma {:induction false} DigitRunExact(s: string, rest: string)
    requires AllDigits(s) && (rest == "" || !IsDigit(rest[0]))
    ensures DigitRun(s + rest) == |s|
  {
    if s == "" {
      assert s + rest == rest;
    } else {
      assert (s + rest)[1..] == s[1..] + rest;
      DigitRunExact(s[1..], rest);
    }
  }

  lemma NumberThen(n: nat, rest: string)
    requires rest != "" && !IsDigit(rest[0])
    ensures Number(Decimal(n) + rest) == Some((n, rest))
  {
    DigitRunExact(Decimal(n), rest);
    DecimalValue(n);
    assert (Decimal(n) + rest)[..|Decimal(n)|] == Decimal(n);
    assert (Decimal(n) + rest)[|Decimal(n)|..] == rest;
  }

  lemma SkipThen(prefix: string, rest: string)
    ensures Skip(prefix, prefix + rest) == Some(rest)
  {
  }

  lemma RangeThen(a: nat, b: nat, rest: string)
    requires rest != "" && !IsDigit(rest[0])
    ensures Range(Decimal(a) + ("," + (Decimal(b) + rest))) == Some((a, rest))
  {
    NumberThen(a, "," + (Decimal(b) + rest));
    SkipThen(",", Decimal(b) + rest);
    NumberThen(b, rest);
  }

  lemma HeadOfChunk(c: Chunk)
    ensures ChunkHead(WriteHead(c)) == Some((c.srcPos, c.dstPos))
  {
    var dst := Decimal(c.dstPos) + ("," + (Decimal(DstLen(c.lines)) + " @@\n"));
    var src := Decimal(c.srcPos) + ("," + (Decimal(SrcLen(c.lines)) + (" +" + dst)));
    SkipThen("@@ -", src);
    RangeThen(c.srcPos, SrcLen(c.lines), " +" + dst);
    SkipThen(" +", dst);
    RangeThen(c.dstPos, DstLen(c.lines), " @@\n");
  }

  lemma BehindThen(prefix: string, text: string)
    requires '\n' !in text
    ensures Behind(prefix, prefix + text + "\n") == Some(text)
  {
    assert (prefix + text + "\n")[|prefix|..] == text + "\n";
    assert (text + "\n")[..|text|] == text;
  }

  lemma SourceHeader(name: string)
    requires '\n' !in name
    ensures MeaningOf("--- " + name + "\n") == SrcFile(name)
  {
    BehindThen("--- ", name);
  }

  lemma DestinationHeader(name: string)
    requires '\n' !in name
    ensures MeaningOf("+++ " + name + "\n") == DstFile(name)
  {
    BehindThen("+++ ", name);
    assert ("+++ " + name + "\n")[0] == '+';
  }

  lemma ChunkHeader(c: Chunk)
    ensures MeaningOf(WriteHead(c)) == ChunkStart(c.srcPos, c.dstPos)
  {
    HeadOfChunk(c);
    assert WriteHead(c)[0] == '@';
  }

  /** A removed line that reads like a source header, or an added one that reads like a destination header. */
  predicate Ambiguous(l: Line) {
    (l.kind == SRC && "-- " <= l.text) || (l.kind == DST && "++ " <= l.text)
  }

  lemma PrefixMoves(c: char, prefix: string, s: string)
    ensures [c] + prefix <= [c] + s <==> prefix <= s
  {
    if prefix <= s {
      assert ([c] + s)[..|prefix| + 1] == [c] + s[..|prefix|];
    }
    if [c] + prefix <= [c] + s {
      assert ([c] + prefix)[1..] == prefix && ([c] + s)[1..] == s;
    }
  }

  lemma PrefixWithoutNewline(header: string, text: string)
    requires '\n' !in header
    ensures header <= text + "\n" <==> header <= text
  {
    if |header| <= |text| {
      assert (text + "\n")[..|header|] == text[..|header|];
    } else {
      assert header[|text|] in header;
    }
  }

  /** A header pattern fits a written line exactly when the line's text starts like the header. */
  lemma HeaderFits(sign: char, header: string, text: string)
    requires '\n' !in text && '\n' !in header
    ensures Behind([sign] + header, [sign] + text + "\n").Some? <==> header <= text
  {
    PrefixMoves(sign, header, text + "\n");
    assert [sign] + text + "\n" == [sign] + (text + "\n");
    if header <= text {
      BehindThen([sign] + header, text[|header|..]);
      assert [sign] + header + text[|header|..] == [sign] + text;
    }
    PrefixWithoutNewline(header, text);
  }

  /** A written line reads as itself exactly when it is not ambiguous; otherwise it reads as a header. */
  lemma WrittenLine(l: Line)
    requires '\n' !in l.text
    ensures !Ambiguous(l) ==> MeaningOf(WriteLine(l)) == Content(l)
    ensures Ambiguous(l) ==> MeaningOf(WriteLine(l)).SrcFile? || MeaningOf(WriteLine(l)).DstFile?
  {
    BehindThen(Sign(l.kind), l.text);
    HeaderFits('-', "-- ", l.text);
    HeaderFits('+', "++ ", l.text);
    assert "-" + "-- " == "--- " && "+" + "++ " == "+++ ";
    assert WriteLine(l)[0] == Sign(l.kind)[0];
  }

  // ----- patches that can be written

  predicate LinesOk(lines: seq<Line>) {
    forall i :: 0 <= i < |lines| ==> '\n' !in lines[i].text
  }

  /** No name and no line contains a newline. */
  predicate PatchOk(p: Patch) {
    && '\n' !in p.src && '\n' !in p.dst
    && forall i :: 0 <= i < |p.chunks| ==> LinesOk(p.chunks[i].lines)
  }

  predicate PatchesOk(ps: seq<Patch>) {
    forall i :: 0 <= i < |ps| ==> PatchOk(ps[i])
  }

  // ----- counting the lines of a patch set

  function AmbiguousLines(lines: seq<Line>): nat {
    if lines == [] then 0
    else AmbiguousLines(lines[..|lines| - 1]) + if Ambiguous(lines[|lines| - 1]) then 1 else 0
  }

  /** All lines of the chunks, and how many of them are ambiguous. */
  function ChunksCount(chunks: seq<Chunk>): (nat, nat) {
    if chunks == [] then (0, 0)
    else
      var (n, a) := ChunksCount(chunks[..|chunks| - 1]);
      var lines := chunks[|chunks| - 1].lines;
      (n + |lines|, a + AmbiguousLines(lines))
  }

  function PatchesCount(ps: seq<Patch>): (nat, nat) {
    if ps == [] then (0, 0)
    else
      var (n, a) := PatchesCount(ps[..|ps| - 1]);
      var (n', a') := ChunksCount(ps[|ps| - 1].chunks);
      (n + n', a + a')
  }

  /** How many of the written lines read as the content of a chunk. */
  function ContentLines(lines: seq<string>): nat {
    if lines == [] then 0
    else ContentLines(lines[..|lines| - 1]) + if MeaningOf(lines[|lines| - 1]).Content? then 1 else 0
  }

  // ----- the parser takes every content line into some chunk

  lemma {:induction false} AddLineCounts(ps: seq<Patch>, l: Line)
    requires AddLine(ps, l).Some?
    ensures PatchesCount(AddLine(ps, l).value).0 == PatchesCount(ps).0 + 1
  {
    var n := |ps| - 1;
    var p := ps[n];
    var after := AddLine(ps, l).value;
    if p.chunks == [] {
      AddLineCounts(ps[..n], l);
      assert after[..|after| - 1] == AddLine(ps[..n], l).value;
    } else {
      var k := |p.chunks| - 1;
      var c := p.chunks[k];
      assert after[..|after| - 1] == ps[..n];
      var chunks := after[n].chunks;
      assert chunks[..|chunks| - 1] == p.chunks[..k];
    }
  }

  lemma Parse1Counts(ps: seq<Patch>, s: string)
    requires Parse1(ps, s).Some?
    ensures PatchesCount(Parse1(ps, s).value).0 == PatchesCount(ps).0 + if MeaningOf(s).Content? then 1 else 0
  {
    var after := Parse1(ps, s).value;
    match MeaningOf(s)
    case SrcFile(_) => assert after[..|after| - 1] == ps;
    case DstFile(_) => assert after[..|after| - 1] == ps[..|ps| - 1];
    case ChunkStart(_, _) =>
      assert after[..|after| - 1] == ps[..|ps| - 1];
      var chunks := after[|after| - 1].chunks;
      assert chunks[..|chunks| - 1] == ps[|ps| - 1].chunks;
    case Content(l) => AddLineCounts(ps, l);
  }

  lemma {:induction false} ParseCounts(ps: seq<Patch>, lines: seq<string>)
    requires ParseLines(ps, lines).Some?
    ensures PatchesCount(ParseLines(ps, lines).value).0 == PatchesCount(ps).0 + ContentLines(lines)
  {
    if lines != [] {
      var n := |lines| - 1;
      ParseCounts(ps, lines[..n]);
      Parse1Counts(ParseLines(ps, lines[..n]).value, lines[n]);
    }
  }

  // ----- the writer writes one content line per unambiguous line

  lemma SplitLast<T>(s: seq<T>)
    requires s != []
    ensures s == s[..|s| - 1] + [s[|s| - 1]]
  {
  }

  lemma ConcatLast<T>(a: seq<T>, b: seq<T>)
    requires b != []
    ensures a + b == (a + b[..|b| - 1]) + [b[|b| - 1]]
  {
  }

  lemma ContentSnoc(a: seq<string>, s: string)
    ensures ContentLines(a + [s]) == ContentLines(a) + if MeaningOf(s).Content? then 1 else 0
  {
    assert (a + [s])[..|a|] == a;
  }

  lemma {:induction false} ContentConcat(a: seq<string>, b: seq<string>)
    ensures ContentLines(a + b) == ContentLines(a) + ContentLines(b)
  {
    if b == [] {
      assert a + b == a;
    } else {
      var n := |b| - 1;
      ConcatLast(a, b);
      ContentSnoc(a + b[..n], b[n]);
      ContentConcat(a, b[..n]);
    }
  }

  lemma {:induction false} LinesContent(lines: seq<Line>)
    requires LinesOk(lines)
    ensures ContentLines(WriteLines(lines)) + AmbiguousLines(lines) == |lines|
  {
    if lines != [] {
      var n := |lines| - 1;
      LinesContent(lines[..n]);
      WrittenLine(lines[n]);
      ContentConcat(WriteLines(lines[..n]), [WriteLine(lines[n])]);
      OneContent(WriteLine(lines[n]));
    }
  }

  lemma OneContent(s: string)
    ensures ContentLines([s]) == if MeaningOf(s).Content? then 1 else 0
  {
    assert [s][..0] == [];
  }

  lemma {:induction false} ChunksContent(chunks: seq<Chunk>)
    requires forall i :: 0 <= i < |chunks| ==> LinesOk(chunks[i].lines)
    ensures ContentLines(WriteChunks(chunks)) + ChunksCount(chunks).1 == ChunksCount(chunks).0
  {
    if chunks != [] {
      var n := |chunks| - 1;
      var c := chunks[n];
      ChunksContent(chunks[..n]);
      LinesContent(c.lines);
      ChunkHeader(c);
      OneContent(WriteHead(c));
      ContentConcat([WriteHead(c)], WriteLines(c.lines));
      ContentConcat(WriteChunks(chunks[..n]), WriteChunk(c));
    }
  }

  lemma PatchContent(p: Patch)
    requires PatchOk(p)
    ensures ContentLines(WritePatch(p)) + ChunksCount(p.chunks).1 == ChunksCount(p.chunks).0
  {
    var h1, h2 := "--- " + p.src + "\n", "+++ " + p.dst + "\n";
    SourceHeader(p.src);
    DestinationHeader(p.dst);
    OneContent(h1);
    OneContent(h2);
    ContentConcat([h1], [h2]);
    assert [h1] + [h2] == [h1, h2];
    ContentConcat([h1, h2], WriteChunks(p.chunks));
    ChunksContent(p.chunks);
  }

  lemma {:induction false} PatchesContent(ps: seq<Patch>)
    requires PatchesOk(ps)
    ensures ContentLines(WritePatches(ps)) + PatchesCount(ps).1 == PatchesCount(ps).0
  {
    if ps != [] {
      var n := |ps| - 1;
      PatchesContent(ps[..n]);
      PatchContent(ps[n]);
      ContentConcat(WritePatches(ps[..n]), WritePatch(ps[n]));
    }
  }

  /** If the parsed patches are the written ones, no written line was ambiguous. */
  lemma RoundTripNeedsUnambiguous(ps: seq<Patch>)
    requires PatchesOk(ps) && ParseLines([], WritePatches(ps)) == Some(ps)
    ensures PatchesCount(ps).1 == 0
  {
    ParseCounts([], WritePatches(ps));
    PatchesContent(ps);
  }

  // ----- without ambiguous lines the parser undoes the writer

  lemma ParseSnoc(ps: seq<Patch>, a: seq<string>, s: string)
    requires ParseLines(ps, a).Some?
    ensures ParseLines(ps, a + [s]) == Parse1(ParseLines(ps, a).value, s)
  {
    assert (a + [s])[..|a|] == a;
  }

  lemma {:induction false} ParseConcat(ps: seq<Patch>, a: seq<string>, b: seq<string>)
    requires ParseLines(ps, a).Some?
    ensures ParseLines(ps, a + b) == ParseLines(ParseLines(ps, a).value, b)
  {
    if b == [] {
      assert a + b == a;
    } else {
      var n := |b| - 1;
      ConcatLast(a, b);
      ParseConcat(ps, a, b[..n]);
      if ParseLines(ps, a + b[..n]).Some? {
        ParseSnoc(ps, a + b[..n], b[n]);
      } else {
        FailureLast(ps, a + b[..n], b[n]);
      }
    }
  }

  lemma FailureLast(ps: seq<Patch>, a: seq<string>, s: string)
    requires ParseLines(ps, a).None?
    ensures ParseLines(ps, a + [s]).None?
  {
    assert (a + [s])[..|a|] == a;
  }

  lemma ParseOne(ps: seq<Patch>, s: string)
    ensures ParseLines(ps, [s]) == Parse1(ps, s)
  {
    assert [s][..0] == [];
  }

  lemma AddToLast(front: seq<Patch>, p: Patch, chunks: seq<Chunk>, c: Chunk, l: Line)
    ensures AddLine(front + [p.(chunks := chunks + [c])], l)
         == Some(front + [p.(chunks := chunks + [c.(lines := c.lines + [l])])])
  {
    var ps := front + [p.(chunks := chunks + [c])];
    assert ps[..|front|] == front;
    assert (chunks + [c])[..|chunks|] == chunks;
  }

  lemma {:induction false} ParseContent(front: seq<Patch>, p: Patch, chunks: seq<Chunk>, c: Chunk, lines: seq<Line>)
    requires c.lines == [] && LinesOk(lines) && AmbiguousLines(lines) == 0
    ensures ParseLines(front + [p.(chunks := chunks + [c])], WriteLines(lines))
         == Some(front + [p.(chunks := chunks + [c.(lines := lines)])])
  {
    if lines == [] {
      assert c.(lines := []) == c;
    } else {
      var n := |lines| - 1;
      ParseContent(front, p, chunks, c, lines[..n]);
      ParseLastLine(front + [p.(chunks := chunks + [c])], lines);
      AddToLast(front, p, chunks, c.(lines := lines[..n]), lines[n]);
      SplitLast(lines);
    }
  }

  lemma ParseLastLine(ps: seq<Patch>, lines: seq<Line>)
    requires lines != [] && LinesOk(lines) && AmbiguousLines(lines) == 0
    requires ParseLines(ps, WriteLines(lines[..|lines| - 1])).Some?
    ensures ParseLines(ps, WriteLines(lines))
         == AddLine(ParseLines(ps, WriteLines(lines[..|lines| - 1])).value, lines[|lines| - 1])
  {
    var n := |lines| - 1;
    WrittenLine(lines[n]);
    ParseSnoc(ps, WriteLines(lines[..n]), WriteLine(lines[n]));
  }

  lemma ParseChunk(front: seq<Patch>, p: Patch, c: Chunk)
    requires LinesOk(c.lines) && AmbiguousLines(c.lines) == 0
    ensures ParseLines(front + [p], WriteChunk(c)) == Some(front + [p.(chunks := p.chunks + [c])])
  {
    ChunkHeader(c);
    var ps := front + [p];
    assert ps[..|front|] == front;
    ParseOne(ps, WriteHead(c));
    ParseConcat(ps, [WriteHead(c)], WriteLines(c.lines));
    ParseContent(front, p, p.chunks, Chunk(c.srcPos, c.dstPos, []), c.lines);
  }

  lemma {:induction false} ParseChunks(front: seq<Patch>, p: Patch, chunks: seq<Chunk>)
    requires forall i :: 0 <= i < |chunks| ==> LinesOk(chunks[i].lines)
    requires ChunksCount(chunks).1 == 0 && p.chunks == []
    ensures ParseLines(front + [p], WriteChunks(chunks)) == Some(front + [p.(chunks := chunks)])
  {
    if chunks == [] {
      assert p.(chunks := []) == p;
    } else {
      var n := |chunks| - 1;
      ParseChunks(front, p, chunks[..n]);
      ParseConcat(front + [p], WriteChunks(chunks[..n]), WriteChunk(chunks[n]));
      ParseLastChunk(front, p, chunks);
    }
  }

  lemma ParseLastChunk(front: seq<Patch>, p: Patch, chunks: seq<Chunk>)
    requires chunks != []
    requires var c := chunks[|chunks| - 1]; LinesOk(c.lines) && AmbiguousLines(c.lines) == 0
    ensures ParseLines(front + [p.(chunks := chunks[..|chunks| - 1])], WriteChunk(chunks[|chunks| - 1]))
         == Some(front + [p.(chunks := chunks)])
  {
    var n := |chunks| - 1;
    ParseChunk(front, p.(chunks := chunks[..n]), chunks[n]);
    SplitLast(chunks);
  }

  lemma ParsePatch(front: seq<Patch>, p: Patch)
    requires PatchOk(p) && ChunksCount(p.chunks).1 == 0
    ensures ParseLines(front, WritePatch(p)) == Some(front + [p])
  {
    var h1, h2 := "--- " + p.src + "\n", "+++ " + p.dst + "\n";
    SourceHeader(p.src);
    DestinationHeader(p.dst);
    var begun := front + [Patch(p.src, "", [])];
    assert begun[..|front|] == front;
    ParseOne(front, h1);
    ParseOne(begun, h2);
    ParseConcat(front, [h1], [h2]);
    assert [h1] + [h2] == [h1, h2];
    ParseConcat(front, [h1, h2], WriteChunks(p.chunks));
    ParseChunks(front, Patch(p.src, p.dst, []), p.chunks);
  }

  lemma ParseOneMore(front: seq<Patch>, p: Patch)
    requires ParseLines([], WritePatches(front)) == Some(front)
    requires PatchOk(p) && ChunksCount(p.chunks).1 == 0
    ensures ParseLines([], WritePatches(front + [p])) == Some(front + [p])
  {
    assert (front + [p])[..|front|] == front;
    ParseConcat([], WritePatches(front), WritePatch(p));
    ParsePatch(front, p);
  }

  lemma {:induction false} ParsePatches(ps: seq<Patch>)
    requires PatchesOk(ps) && PatchesCount(ps).1 == 0
    ensures ParseLines([], WritePatches(ps)) == Some(ps)
  {
    if ps != [] {
      var n := |ps| - 1;
      FewerPatches(ps);
      ParsePatches(ps[..n]);
      ParseOneMore(ps[..n], ps[n]);
      SplitLast(ps);
    }
  }

  lemma FewerPatches(ps: seq<Patch>)
    requires ps != [] && PatchesOk(ps) && PatchesCount(ps).1 == 0
    ensures PatchesOk(ps[..|ps| - 1]) && PatchesCount(ps[..|ps| - 1]).1 == 0
    ensures PatchOk(ps[|ps| - 1]) && ChunksCount(ps[|ps| - 1].chunks).1 == 0
  {
  }

  // ----- the theorem

  predicate Unambiguous(ps: seq<Patch>) {
    forall i, j, k ::
      0 <= i < |ps| && 0 <= j < |ps[i].chunks| && 0 <= k < |ps[i].chunks[j].lines| ==>
        !Ambiguous(ps[i].chunks[j].lines[k])
  }

  lemma {:induction false} NoAmbiguousLines(lines: seq<Line>)
    ensures AmbiguousLines(lines) == 0 <==> forall k :: 0 <= k < |lines| ==> !Ambiguous(lines[k])
  {
    if lines != [] {
      NoAmbiguousLines(lines[..|lines| - 1]);
    }
  }

  lemma {:induction false} NoAmbiguousChunks(chunks: seq<Chunk>)
    ensures ChunksCount(chunks).1 == 0 <==>
      forall j :: 0 <= j < |chunks| ==> AmbiguousLines(chunks[j].lines) == 0
  {
    if chunks != [] {
      NoAmbiguousChunks(chunks[..|chunks| - 1]);
    }
  }

  lemma {:induction false} NoAmbiguousPatches(ps: seq<Patch>)
    ensures PatchesCount(ps).1 == 0 <==> forall i :: 0 <= i < |ps| ==> ChunksCount(ps[i].chunks).1 == 0
  {
    if ps != [] {
      NoAmbiguousPatches(ps[..|ps| - 1]);
    }
  }

  lemma UnambiguousCount(ps: seq<Patch>)
    ensures PatchesCount(ps).1 == 0 <==> Unambiguous(ps)
  {
    NoAmbiguousPatches(ps);
    forall i | 0 <= i < |ps|
      ensures ChunksCount(ps[i].chunks).1 == 0 <==>
        forall j, k :: 0 <= j < |ps[i].chunks| && 0 <= k < |ps[i].chunks[j].lines| ==>
          !Ambiguous(ps[i].chunks[j].lines[k])
    {
      NoAmbiguousChunks(ps[i].chunks);
      forall j | 0 <= j < |ps[i].chunks|
        ensures AmbiguousLines(ps[i].chunks[j].lines) == 0 <==>
          forall k :: 0 <= k < |ps[i].chunks[j].lines| ==> !Ambiguous(ps[i].chunks[j].lines[k])
      {
        NoAmbiguousLines(ps[i].chunks[j].lines);
      }
    }
  }

  /**
    Writing and parsing again gives back every name, position and typed line
    exactly when no removed line starts with two dashes and a space and no added
    line with two pluses and a space.
   */
  lemma RoundTripExactly(ps: seq<Patch>)
    requires PatchesOk(ps)
    ensures ParseLines([], WritePatches(ps)) == Some(ps) <==> Unambiguous(ps)
  {
    UnambiguousCount(ps);
    if Unambiguous(ps) {
      ParsePatches(ps);
    }
    if ParseLines([], WritePatches(ps)) == Some(ps) {
      RoundTripNeedsUnambiguous(ps);
    }
  }
}
