/**
  The patch objects in place: a parser that keeps references to the patch and the
  chunk it is working on and changes them through these references, and writers
  that append to a file.  A new patch does not end the work on the chunk before
  it: content lines go to the chunk started last, in whichever patch it is.
 */
module PatchSet {
  import opened Wrappers
  import Text = PatchText
  import PatchHeads
  import PatchRoundTrip

  class TextFile {
    var lines: seq<string>

    constructor ()
      ensures lines == []
    {
      lines := [];
    }

    method Write(line: string)
      modifies this
      ensures lines == old(lines) + [line]
    {
      lines := lines + [line];
    }
  }

  class PatchChunk {
    const srcPos: nat
    const dstPos: nat
    var lines: seq<Text.Line>

    constructor (s: nat, d: nat)
      ensures View() == Text.Chunk(s, d, [])
    {
      srcPos, dstPos, lines := s, d, [];
    }

    ghost function View(): Text.Chunk
      reads this
    {
      Text.Chunk(srcPos, dstPos, lines)
    }

    method AddLine(line: Text.Line)
      modifies this
      ensures View() == old(View()).(lines := old(lines) + [line])
    {
      lines := lines + [line];
    }

    method SrcLen() returns (n: nat)
      ensures n == Text.SrcLen(lines) == |set i | 0 <= i < |lines| && lines[i].kind != Text.DST|
    {
      PatchHeads.SideLengths(lines);
      n := 0;
      for i := 0 to |lines|
        invariant n == Text.SrcLen(lines[..i])
      {
        if lines[i].IsSrc() {
          n := n + 1;
        }
        assert lines[..i + 1][..i] == lines[..i];
      }
      assert lines[..|lines|] == lines;
    }

    method DstLen() returns (n: nat)
      ensures n == Text.DstLen(lines) == |set i | 0 <= i < |lines| && lines[i].kind != Text.SRC|
    {
      PatchHeads.SideLengths(lines);
      n := 0;
      for i := 0 to |lines|
        invariant n == Text.DstLen(lines[..i])
      {
        if lines[i].IsDst() {
          n := n + 1;
        }
        assert lines[..i + 1][..i] == lines[..i];
      }
      assert lines[..|lines|] == lines;
    }

    method Write(f: TextFile)
      modifies f
      ensures f.lines == old(f.lines) + Text.WriteChunk(View())
    {
      var srcLen := SrcLen();
      var dstLen := DstLen();
      f.Write("@@ -" + (Text.Decimal(srcPos) + ("," + (Text.Decimal(srcLen) +
              (" +" + (Text.Decimal(dstPos) + ("," + (Text.Decimal(dstLen) + " @@\n"))))))));
      ghost var before := f.lines;
      for i := 0 to |lines|
        invariant f.lines == before + Text.WriteLines(lines[..i])
      {
        f.Write(Text.WriteLine(lines[i]));
        assert lines[..i + 1][..i] == lines[..i];
      }
      assert lines[..|lines|] == lines;
    }
  }

  class Patch {
    var src: string
    var dst: string
    var chunks: seq<PatchChunk>

    constructor ()
      ensures src == "" && dst == "" && chunks == []
    {
      src, dst, chunks := "", "", [];
    }

    method Write(f: TextFile, ghost p: Text.Patch)
      requires Shows(this, p)
      modifies f
      ensures f.lines == old(f.lines) + Text.WritePatch(p)
    {
      f.Write("--- " + src + "\n");
      f.Write("+++ " + dst + "\n");
      WriteChunks(f, p.chunks);
    }

    method WriteChunks(f: TextFile, ghost cs: seq<Text.Chunk>)
      requires |chunks| == |cs| && forall j :: 0 <= j < |chunks| ==> chunks[j].View() == cs[j]
      modifies f
      ensures f.lines == old(f.lines) + Text.WriteChunks(cs)
    {
      assert cs[..|chunks|] == cs;
      for i := 0 to |chunks|
        invariant f.lines == old(f.lines) + Text.WriteChunks(cs[..i])
      {
        WriteOneMore(old(f.lines), cs, i);
        assert chunks[i].View() == cs[i];
        chunks[i].Write(f);
      }
    }
  }

  lemma WriteOneMore(before: seq<string>, cs: seq<Text.Chunk>, i: nat)
    requires i < |cs|
    ensures before + Text.WriteChunks(cs[..i + 1])
         == before + Text.WriteChunks(cs[..i]) + Text.WriteChunk(cs[i])
  {
    assert cs[..i + 1][..i] == cs[..i];
  }

  // ----- the patch set that the objects show

  ghost predicate Shows(o: Patch, p: Text.Patch)
    reads o, o.chunks
  {
    && o.src == p.src && o.dst == p.dst && |o.chunks| == |p.chunks|
    && forall j :: 0 <= j < |o.chunks| ==> o.chunks[j].View() == p.chunks[j]
  }

  ghost function ChunksOf(os: seq<Patch>): set<PatchChunk>
    reads os
  {
    set o, c | o in os && c in o.chunks :: c
  }

  lemma InChunks(os: seq<Patch>, i: int)
    requires 0 <= i < |os|
    ensures forall c :: c in os[i].chunks ==> c in ChunksOf(os)
  {
  }

  /** The objects show the patches; no patch and no chunk is there twice. */
  ghost predicate ShowAll(os: seq<Patch>, ps: seq<Text.Patch>)
    reads os, ChunksOf(os)
  {
    && |os| == |ps|
    && (forall i :: 0 <= i < |os| ==> (InChunks(os, i); Shows(os[i], ps[i])))
    && (forall i, i' :: 0 <= i < i' < |os| ==> os[i] != os[i'])
    && (forall i, j, i', j' | 0 <= i < |os| && 0 <= j < |os[i].chunks| && 0 <= i' < |os| && 0 <= j' < |os[i'].chunks| ::
          os[i].chunks[j] == os[i'].chunks[j'] ==> i == i' && j == j')
  }

  /** Patch i has the chunk that was started last: no later patch has one. */
  ghost predicate LastStarted(ps: seq<Text.Patch>, i: int) {
    && 0 <= i < |ps| && ps[i].chunks != []
    && forall k :: i < k < |ps| ==> ps[k].chunks == []
  }

  lemma {:induction false} NoChunkNoLine(ps: seq<Text.Patch>, l: Text.Line)
    requires forall k :: 0 <= k < |ps| ==> ps[k].chunks == []
    ensures Text.AddLine(ps, l) == None
  {
    if ps != [] {
      NoChunkNoLine(ps[..|ps| - 1], l);
    }
  }

  ghost function WithLine(p: Text.Patch, l: Text.Line): Text.Patch
    requires p.chunks != []
  {
    var k := |p.chunks| - 1;
    p.(chunks := p.chunks[k := p.chunks[k].(lines := p.chunks[k].lines + [l])])
  }

  lemma {:induction false} LineGoesToLastStarted(ps: seq<Text.Patch>, i: int, l: Text.Line)
    requires LastStarted(ps, i)
    ensures Text.AddLine(ps, l) == Some(ps[i := WithLine(ps[i], l)])
  {
    var n := |ps| - 1;
    if i == n {
      var k := |ps[n].chunks| - 1;
      var c := ps[n].chunks[k];
      assert ps[n].chunks[..k] + [c.(lines := c.lines + [l])] == ps[n].chunks[k := c.(lines := c.lines + [l])];
      assert ps[..n] + [WithLine(ps[n], l)] == ps[n := WithLine(ps[n], l)];
    } else {
      LineGoesToLastStarted(ps[..n], i, l);
      assert ps[..n][i := WithLine(ps[i], l)] + [ps[n]] == ps[i := WithLine(ps[i], l)];
    }
  }

  /** The current chunk is the last chunk of the patch with the chunk started last; none if there is none. */
  ghost predicate IsCurrent(os: seq<Patch>, ps: seq<Text.Patch>, current: PatchChunk?, i: int)
    reads os
  {
    && |os| == |ps| && (forall k :: 0 <= k < |os| ==> |os[k].chunks| == |ps[k].chunks|)
    && if current == null then forall k :: 0 <= k < |ps| ==> ps[k].chunks == []
       else LastStarted(ps, i) && current == os[i].chunks[|os[i].chunks| - 1]
  }

  /** What the parser keeps: the objects made so far, the patch and the chunk it works on. */
  ghost predicate Working(os: seq<Patch>, ps: seq<Text.Patch>, currentPatch: Patch?, currentChunk: PatchChunk?, i: int)
    reads os, ChunksOf(os)
  {
    && ShowAll(os, ps)
    && (if os == [] then currentPatch == null else currentPatch == os[|os| - 1])
    && IsCurrent(os, ps, currentChunk, i)
  }

  method NewPatch(name: string, os: seq<Patch>, ghost ps: seq<Text.Patch>) returns (o: Patch)
    requires ShowAll(os, ps)
    ensures fresh(o) && o.chunks == [] && ShowAll(os + [o], ps + [Text.Patch(name, "", [])])
  {
    o := new Patch();
    o.src := name;
  }

  method StartPatch(name: string, os: seq<Patch>, ghost currentPatch: Patch?, ghost currentChunk: PatchChunk?,
                    ghost ps: seq<Text.Patch>, ghost i: int) returns (os': seq<Patch>, o: Patch)
    requires Working(os, ps, currentPatch, currentChunk, i)
    ensures fresh(o) && Working(os', ps + [Text.Patch(name, "", [])], o, currentChunk, i)
  {
    o := NewPatch(name, os, ps);
    os' := os + [o];
  }

  method SetDestination(currentPatch: Patch, name: string, ghost os: seq<Patch>, ghost currentChunk: PatchChunk?,
                        ghost ps: seq<Text.Patch>, ghost i: int)
    requires Working(os, ps, currentPatch, currentChunk, i)
    modifies currentPatch`dst
    ensures ps != [] && Working(os, ps[..|ps| - 1] + [ps[|ps| - 1].(dst := name)], currentPatch, currentChunk, i)
  {
    currentPatch.dst := name;
  }

  method StartChunk(currentPatch: Patch, srcPos: nat, dstPos: nat, ghost os: seq<Patch>,
                    ghost currentChunk: PatchChunk?, ghost ps: seq<Text.Patch>, ghost i: int)
      returns (c: PatchChunk)
    requires Working(os, ps, currentPatch, currentChunk, i)
    modifies currentPatch`chunks
    ensures fresh(c) && ps != []
    ensures var p := ps[|ps| - 1];
      Working(os, ps[..|ps| - 1] + [p.(chunks := p.chunks + [Text.Chunk(srcPos, dstPos, [])])],
              currentPatch, c, |ps| - 1)
  {
    c := new PatchChunk(srcPos, dstPos);
    assert forall i, j :: 0 <= i < |os| && 0 <= j < |os[i].chunks| ==> os[i].chunks[j] != c;
    currentPatch.chunks := currentPatch.chunks + [c];
  }

  ghost predicate OnlyAt(os: seq<Patch>, c: PatchChunk, i: int)
    reads os
  {
    forall k, j :: 0 <= k < |os| && 0 <= j < |os[k].chunks| ==>
      (os[k].chunks[j] == c <==> k == i && j == |os[k].chunks| - 1)
  }

  /** Only the current chunk's place holds the current chunk, and a line more leaves it the current one. */
  lemma CurrentPlace(os: seq<Patch>, ps: seq<Text.Patch>, current: PatchChunk, i: int, l: Text.Line)
    requires ShowAll(os, ps) && IsCurrent(os, ps, current, i)
    ensures OnlyAt(os, current, i)
    ensures IsCurrent(os, ps[i := WithLine(ps[i], l)], current, i)
  {
    InChunks(os, i);
  }

  method AddContent(currentChunk: PatchChunk, line: Text.Line, ghost os: seq<Patch>, ghost currentPatch: Patch?,
                    ghost ps: seq<Text.Patch>, ghost i: int)
    requires Working(os, ps, currentPatch, currentChunk, i)
    modifies currentChunk
    ensures Text.AddLine(ps, line).Some? && Working(os, Text.AddLine(ps, line).value, currentPatch, currentChunk, i)
  {
    LineGoesToLastStarted(ps, i, line);
    ghost var after := ps[i := WithLine(ps[i], line)];
    CurrentPlace(os, ps, currentChunk, i, line);
    currentChunk.AddLine(line);
    forall k | 0 <= k < |os|
      ensures Shows(os[k], after[k])
    {
      forall j | 0 <= j < |os[k].chunks|
        ensures os[k].chunks[j].View() == after[k].chunks[j]
      {
        InChunks(os, k);
      }
    }
  }

  lemma Prefixes<T>(s: seq<T>, m: nat, n: nat)
    requires n <= m <= |s|
    ensures s[..m][..n] == s[..n]
  {
  }

  /** An exception at some line is an exception of the whole parse. */
  lemma {:induction false} FailureStays(a: seq<string>, b: seq<string>)
    requires Text.ParseLines([], a) == None
    ensures Text.ParseLines([], a + b) == None
  {
    if b == [] {
      assert a + b == a;
    } else {
      var n := |b| - 1;
      FailureStays(a, b[..n]);
      PatchRoundTrip.ConcatLast(a, b);
      PatchRoundTrip.FailureLast([], a + b[..n], b[n]);
    }
  }

  lemma ParsedTo(lines: seq<string>, n: nat, ps: seq<Text.Patch>)
    requires n < |lines| && Text.ParseLines([], lines[..n]) == Some(ps)
    ensures Text.ParseLines([], lines[..n + 1]) == Text.Parse1(ps, lines[n])
  {
    Prefixes(lines, n + 1, n);
  }

  /** Changes the objects as a line of this meaning changes the patches they show. */
  method TakeMeaning(m: Text.Meaning, os: seq<Patch>, currentPatch: Patch?, currentChunk: PatchChunk?,
                     ghost ps: seq<Text.Patch>, ghost i: int)
      returns (ok: bool, os': seq<Patch>, currentPatch': Patch?, currentChunk': PatchChunk?, ghost i': int)
    requires Working(os, ps, currentPatch, currentChunk, i)
    modifies currentPatch, currentChunk
    ensures ok <==> Text.Take(ps, m).Some?
    ensures ok ==> Working(os', Text.Take(ps, m).value, currentPatch', currentChunk', i')
    ensures currentPatch' == currentPatch || fresh(currentPatch')
    ensures currentChunk' == currentChunk || fresh(currentChunk')
  {
    ok, os', currentPatch', currentChunk', i' := true, os, currentPatch, currentChunk, i;
    match m {
      case SrcFile(name) =>
        os', currentPatch' := StartPatch(name, os, currentPatch, currentChunk, ps, i);
      case DstFile(name) =>
        if currentPatch == null {
          ok := false;
        } else {
          SetDestination(currentPatch, name, os, currentChunk, ps, i);
        }
      case ChunkStart(srcPos, dstPos) =>
        if currentPatch == null {
          ok := false;
        } else {
          currentChunk' := StartChunk(currentPatch, srcPos, dstPos, os, currentChunk, ps, i);
          i' := |ps| - 1;
        }
      case Content(l) =>
        if currentChunk == null {
          NoChunkNoLine(ps, l);
          ok := false;
        } else {
          AddContent(currentChunk, l, os, currentPatch, ps, i);
        }
      case Unknown =>
        ok := false;
    }
  }

  /** One line of the diff. */
  method ParseLine(line: string, os: seq<Patch>, currentPatch: Patch?, currentChunk: PatchChunk?,
                   ghost ps: seq<Text.Patch>, ghost i: int)
      returns (ok: bool, os': seq<Patch>, currentPatch': Patch?, currentChunk': PatchChunk?, ghost i': int)
    requires Working(os, ps, currentPatch, currentChunk, i)
    modifies currentPatch, currentChunk
    ensures ok <==> Text.Parse1(ps, line).Some?
    ensures ok ==> Working(os', Text.Parse1(ps, line).value, currentPatch', currentChunk', i')
    ensures currentPatch' == currentPatch || fresh(currentPatch')
    ensures currentChunk' == currentChunk || fresh(currentChunk')
  {
    ok, os', currentPatch', currentChunk', i' :=
      TakeMeaning(Text.MeaningOf(line), os, currentPatch, currentChunk, ps, i);
  }

  /**
    Parses the lines of a diff into fresh objects that show exactly the patches
    of the text; None is an exception, raised on the same lines.
   */
  method ParsePatchset(lines: seq<string>) returns (patchset: Option<seq<Patch>>)
    ensures patchset.Some? <==> Text.ParseLines([], lines).Some?
    ensures patchset.Some? ==> ShowAll(patchset.value, Text.ParseLines([], lines).value)
  {
    var os: seq<Patch> := [];
    var currentPatch: Patch? := null;
    var currentChunk: PatchChunk? := null;
    ghost var ps: seq<Text.Patch>, i := [], 0;
    for n := 0 to |lines|
      invariant Text.ParseLines([], lines[..n]) == Some(ps)
      invariant Working(os, ps, currentPatch, currentChunk, i)
      invariant currentPatch != null ==> fresh(currentPatch)
      invariant currentChunk != null ==> fresh(currentChunk)
    {
      ParsedTo(lines, n, ps);
      var ok;
      ok, os, currentPatch, currentChunk, i := ParseLine(lines[n], os, currentPatch, currentChunk, ps, i);
      if !ok {
        FailureStays(lines[..n + 1], lines[n + 1..]);
        assert lines[..n + 1] + lines[n + 1..] == lines;
        return None;
      }
      ps := Text.Parse1(ps, lines[n]).value;
    }
    assert lines[..|lines|] == lines;
    return Some(os);
  }
}
