/**
  The heads in a diff, both ways: which lines are read as heads, on any text, and
  what the counts in a written chunk head say about the lines behind it.
 */
module PatchHeads {
  import opened Wrappers
  import opened PatchText
  import PatchRoundTrip

  // ----- file headers

  lemma BehindWithout(prefix: string, r: string)
    requires '\n' !in r
    ensures Behind(prefix, prefix + r) == Some(r)
  {
    assert (prefix + r)[|prefix|..] == r;
    assert r != "" ==> r[|r| - 1] in r;
  }

  lemma BehindSplits(prefix: string, s: string)
    requires Behind(prefix, s).Some?
    ensures var r := Behind(prefix, s).value; '\n' !in r && (s == prefix + r || s == prefix + r + "\n")
  {
    var rest := s[|prefix|..];
    assert s == prefix + rest;
    if rest != "" && rest[|rest| - 1] == '\n' {
      assert rest == rest[..|rest| - 1] + "\n";
      assert prefix + rest == prefix + rest[..|rest| - 1] + "\n";
    }
  }

  /** What stands behind a prefix up to the end of the line, with or without the newline. */
  lemma BehindExactly(prefix: string, s: string, r: string)
    ensures Behind(prefix, s) == Some(r) <==> '\n' !in r && (s == prefix + r || s == prefix + r + "\n")
  {
    if '\n' !in r {
      BehindWithout(prefix, r);
      PatchRoundTrip.BehindThen(prefix, r);
    }
    if Behind(prefix, s).Some? {
      BehindSplits(prefix, s);
    }
  }

  /** A line is a source header exactly when it is three dashes, a space and the name. */
  lemma SourceHeaderExactly(s: string, name: string)
    ensures MeaningOf(s) == SrcFile(name)
       <==> '\n' !in name && (s == "--- " + name || s == "--- " + name + "\n")
  {
    BehindExactly("--- ", s, name);
  }

  /** A line is a destination header exactly when it is three pluses, a space and the name. */
  lemma DestinationHeaderExactly(s: string, name: string)
    ensures MeaningOf(s) == DstFile(name)
       <==> '\n' !in name && (s == "+++ " + name || s == "+++ " + name + "\n")
  {
    BehindExactly("+++ ", s, name);
    if s == "+++ " + name || s == "+++ " + name + "\n" {
      assert s[0] == '+';
    }
  }

  // ----- chunk heads

  predicate Digits(s: string) {
    s != "" && AllDigits(s)
  }

  /** Each digit more multiplies by ten. */
  lemma ValueLaw(s: string, c: char)
    requires AllDigits(s) && IsDigit(c)
    ensures AllDigits(s + [c]) && Value(s + [c]) == 10 * Value(s) + (c as int - '0' as int) && Value("") == 0
  {
    assert (s + [c])[..|s|] == s;
  }

  lemma NumberOf(d: string, rest: string)
    requires Digits(d) && (rest == "" || !IsDigit(rest[0]))
    ensures Number(d + rest) == Some((Value(d), rest))
  {
    PatchRoundTrip.DigitRunExact(d, rest);
    assert (d + rest)[..|d|] == d && (d + rest)[|d|..] == rest;
  }

  /** The text of a chunk head with these numbers, whatever follows it. */
  ghost predicate HeadText(s: string, a: string, b: string, c: string, d: string, rest: string) {
    && Digits(a) && Digits(b) && Digits(c) && Digits(d)
    && s == "@@ -" + (a + ("," + (b + (" +" + (c + ("," + (d + (" @@" + rest))))))))
  }

  lemma RangeOf(a: string, b: string, rest: string)
    requires Digits(a) && Digits(b) && rest != "" && !IsDigit(rest[0])
    ensures Range(a + ("," + (b + rest))) == Some((Value(a), rest))
  {
    NumberOf(a, "," + (b + rest));
    PatchRoundTrip.SkipThen(",", b + rest);
    NumberOf(b, rest);
  }

  /** Such a text is read with its first and third number. */
  lemma HeadTextIsRead(s: string, a: string, b: string, c: string, d: string, rest: string)
    requires HeadText(s, a, b, c, d, rest)
    ensures ChunkHead(s) == Some((Value(a), Value(c)))
  {
    var dst := c + ("," + (d + (" @@" + rest)));
    PatchRoundTrip.SkipThen("@@ -", a + ("," + (b + (" +" + dst))));
    RangeOf(a, b, " +" + dst);
    PatchRoundTrip.SkipThen(" +", dst);
    RangeOf(c, d, " @@" + rest);
  }

  lemma NumberSplits(s: string) returns (d: string)
    requires Number(s).Some?
    ensures Digits(d) && Number(s) == Some((Value(d), Number(s).value.1)) && s == d + Number(s).value.1
  {
    d := s[..DigitRun(s)];
  }

  lemma RangeSplits(s: string) returns (a: string, b: string)
    requires Range(s).Some?
    ensures Digits(a) && Digits(b) && Range(s) == Some((Value(a), Range(s).value.1))
    ensures s == a + ("," + (b + Range(s).value.1))
  {
    a := NumberSplits(s);
    var s1 := Number(s).value.1;
    assert s1 == "," + s1[1..];
    b := NumberSplits(s1[1..]);
  }

  /** Only such texts are read as chunk heads. */
  lemma HeadIsHeadText(s: string) returns (a: string, b: string, c: string, d: string, rest: string)
    requires ChunkHead(s).Some?
    ensures HeadText(s, a, b, c, d, rest) && ChunkHead(s) == Some((Value(a), Value(c)))
  {
    SkipSplits("@@ -", s);
    var s1 := Skip("@@ -", s).value;
    a, b := RangeSplits(s1);
    var s2 := Range(s1).value.1;
    SkipSplits(" +", s2);
    var s3 := Skip(" +", s2).value;
    c, d := RangeSplits(s3);
    var s4 := Range(s3).value.1;
    SkipSplits(" @@", s4);
    rest := s4[3..];
  }

  lemma SkipSplits(prefix: string, s: string)
    ensures prefix <= s ==> s == prefix + s[|prefix|..] && Skip(prefix, s) == Some(s[|prefix|..])
    ensures Skip(prefix, s).Some? ==> prefix <= s
  {
  }

  lemma ToolsText()
    ensures "@@ -" + ("1" + ("," + ("2" + (" +" + ("34" + ("," + ("4" + (" @@" + " f()"))))))))
         == "@@ -1,2 +34,4 @@ f()"
  {
    assert " @@" + " f()" == " @@ f()";
    assert "4" + " @@ f()" == "4 @@ f()";
    assert "," + "4 @@ f()" == ",4 @@ f()";
    assert "34" + ",4 @@ f()" == "34,4 @@ f()";
    assert " +" + "34,4 @@ f()" == " +34,4 @@ f()";
    assert "2" + " +34,4 @@ f()" == "2 +34,4 @@ f()";
    assert "," + "2 +34,4 @@ f()" == ",2 +34,4 @@ f()";
  }

  lemma ToolsNumbers()
    ensures Digits("1") && Digits("2") && Digits("34") && Digits("4")
    ensures Value("1") == 1 && Value("34") == 34
  {
    ValueLaw("", '1');
    ValueLaw("", '3');
    ValueLaw("3", '4');
    assert "" + ['1'] == "1" && "" + ['3'] == "3" && "3" + ['4'] == "34";
  }

  /** A head as diff tools write it, with a function name behind it. */
  lemma ToolsHead()
    ensures ChunkHead("@@ -1,2 +34,4 @@ f()") == Some((1, 34))
  {
    ToolsText();
    ToolsNumbers();
    HeadTextIsRead("@@ -1,2 +34,4 @@ f()", "1", "2", "34", "4", " f()");
  }

  // ----- the counts in a written head

  /** The places of the lines on the side of a kind: all but those of the other kind. */
  ghost function NotOf(lines: seq<Line>, other: Kind): set<int> {
    set i | 0 <= i < |lines| && lines[i].kind != other
  }

  lemma NotOfNext(front: seq<Line>, last: Line, other: Kind)
    ensures |NotOf(front + [last], other)| == |NotOf(front, other)| + if last.kind != other then 1 else 0
  {
    var more, n := front + [last], |front|;
    assert n !in NotOf(front, other);
    assert NotOf(more, other) == NotOf(front, other) + if last.kind != other then {n} else {};
  }

  lemma {:induction false} SideLengths(lines: seq<Line>)
    ensures SrcLen(lines) == |NotOf(lines, DST)| && DstLen(lines) == |NotOf(lines, SRC)|
  {
    if lines != [] {
      var n := |lines| - 1;
      SideLengths(lines[..n]);
      NotOfNext(lines[..n], lines[n], DST);
      NotOfNext(lines[..n], lines[n], SRC);
      assert lines == lines[..n] + [lines[n]];
    }
  }

  lemma {:induction false} WrittenLines(lines: seq<Line>)
    ensures |WriteLines(lines)| == |lines|
    ensures forall i :: 0 <= i < |lines| ==> WriteLines(lines)[i] == WriteLine(lines[i])
  {
    if lines != [] {
      WrittenLines(lines[..|lines| - 1]);
    }
  }

  /** The places of the lines that start with one of two signs. */
  ghost function StartingWith(text: seq<string>, one: char, other: char): set<int> {
    set i | 0 <= i < |text| && text[i] != "" && (text[i][0] == one || text[i][0] == other)
  }

  /**
    A written chunk starts with its positions; the first count is the number of
    the following lines that start with a minus or a space, the second the number
    of those that start with a plus or a space.
   */
  lemma WrittenCounts(c: Chunk)
    ensures var text := WriteChunk(c);
      && |text| == 1 + |c.lines|
      && HeadText(text[0], Decimal(c.srcPos), Decimal(|StartingWith(text[1..], '-', ' ')|),
                  Decimal(c.dstPos), Decimal(|StartingWith(text[1..], '+', ' ')|), "\n")
  {
    var text := WriteChunk(c);
    assert text[1..] == WriteLines(c.lines);
    WrittenLines(c.lines);
    SideLengths(c.lines);
    SignsOfSides(c.lines);
    WrittenHead(c);
  }

  lemma SignsOfSides(lines: seq<Line>)
    ensures StartingWith(WriteLines(lines), '-', ' ') == NotOf(lines, DST)
    ensures StartingWith(WriteLines(lines), '+', ' ') == NotOf(lines, SRC)
  {
    var text := WriteLines(lines);
    WrittenLines(lines);
    forall i | 0 <= i < |lines|
      ensures text[i] != "" && text[i][0] == (match lines[i].kind case SRC => '-' case DST => '+' case BOTH => ' ')
    {
      assert text[i] == WriteLine(lines[i]);
      assert WriteLine(lines[i])[0] == Sign(lines[i].kind)[0];
    }
  }

  lemma WrittenHead(c: Chunk)
    ensures HeadText(WriteHead(c), Decimal(c.srcPos), Decimal(SrcLen(c.lines)),
                     Decimal(c.dstPos), Decimal(DstLen(c.lines)), "\n")
  {
    assert " @@" + "\n" == " @@\n";
  }
}
