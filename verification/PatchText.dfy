/**
  Patches as text: what each kind of line of a unified diff says, how a patch is
  written, and how a parser puts the lines together again.
 */
module PatchText {
  import opened Wrappers

  datatype Kind = SRC | DST | BOTH

  datatype Line = Line(kind: Kind, text: string) {
    predicate IsSrc() { kind == SRC || kind == BOTH }
    predicate IsDst() { kind == DST || kind == BOTH }
  }

  datatype Chunk = Chunk(srcPos: nat, dstPos: nat, lines: seq<Line>)

  datatype Patch = Patch(src: string, dst: string, chunks: seq<Chunk>)

  // ----- numbers in decimal

  predicate IsDigit(c: char) {
    '0' <= c <= '9'
  }

  predicate AllDigits(s: string) {
    forall i :: 0 <= i < |s| ==> IsDigit(s[i])
  }

  function Decimal(n: nat): (s: string)
    ensures s != "" && AllDigits(s)
  {
    var last := [('0' as int + n % 10) as char];
    if n < 10 then last else Decimal(n / 10) + last
  }

  function Value(s: string): nat
    requires AllDigits(s)
  {
    if s == "" then 0 else 10 * Value(s[..|s| - 1]) + (s[|s| - 1] as int - '0' as int)
  }

  lemma {:induction false} DecimalValue(n: nat)
    ensures Value(Decimal(n)) == n
  {
    var last := [('0' as int + n % 10) as char];
    if n >= 10 {
      DecimalValue(n / 10);
      assert Decimal(n)[..|Decimal(n)| - 1] == Decimal(n / 10);
    }
  }

  /** The length of the run of digits at the front. */
  function DigitRun(s: string): (n: nat)
    ensures n <= |s| && AllDigits(s[..n]) && (n < |s| ==> !IsDigit(s[n]))
  {
    if s == "" || !IsDigit(s[0]) then 0
    else
      var n := DigitRun(s[1..]);
      assert s[..n + 1] == [s[0]] + s[1..][..n];
      n + 1
  }

  // ----- the lines of a diff

  datatype Meaning =
    | SrcFile(name: string)
    | DstFile(name: string)
    | ChunkStart(srcPos: nat, dstPos: nat)
    | Content(line: Line)
    | Unknown

  /** The rest of the line behind a prefix: one newline may end it, and no other may be in it. */
  function Behind(prefix: string, s: string): Option<string> {
    if !(prefix <= s) then None
    else
      var rest := s[|prefix|..];
      var r := if rest != "" && rest[|rest| - 1] == '\n' then rest[..|rest| - 1] else rest;
      if '\n' in r then None else Some(r)
  }

  /** A number at the front and what follows it. */
  function Number(s: string): Option<(nat, string)> {
    var n := DigitRun(s);
    if n == 0 then None else Some((Value(s[..n]), s[n..]))
  }

  function Skip(prefix: string, s: string): Option<string> {
    if prefix <= s then Some(s[|prefix|..]) else None
  }

  /** "number,number": the first number and what follows the second. */
  function Range(s: string): Option<(nat, string)> {
    match Number(s)
    case None => None
    case Some((pos, s1)) =>
      match Skip(",", s1)
      case None => None
      case Some(s2) =>
        match Number(s2)
        case None => None
        case Some((_, s3)) => Some((pos, s3))
  }

  /** The head of a chunk: the positions in the source and in the destination. */
  function ChunkHead(s: string): Option<(nat, nat)> {
    match Skip("@@ -", s)
    case None => None
    case Some(s1) =>
      match Range(s1)
      case None => None
      case Some((srcPos, s2)) =>
        match Skip(" +", s2)
        case None => None
        case Some(s3) =>
          match Range(s3)
          case None => None
          case Some((dstPos, s4)) => if " @@" <= s4 then Some((srcPos, dstPos)) else None
  }

  /** The patterns are tried in this order; the first that fits decides. */
  function MeaningOf(s: string): Meaning {
    match Behind("--- ", s)
    case Some(name) => SrcFile(name)
    case None =>
      match Behind("+++ ", s)
      case Some(name) => DstFile(name)
      case None =>
        match ChunkHead(s)
        case Some((srcPos, dstPos)) => ChunkStart(srcPos, dstPos)
        case None =>
          match Behind("-", s)
          case Some(text) => Content(Line(SRC, text))
          case None =>
            match Behind("+", s)
            case Some(text) => Content(Line(DST, text))
            case None =>
              match Behind(" ", s)
              case Some(text) => Content(Line(BOTH, text))
              case None => Unknown
  }

  // ----- writing

  function Sign(k: Kind): string {
    match k case SRC => "-" case DST => "+" case BOTH => " "
  }

  function WriteLine(l: Line): string {
    Sign(l.kind) + l.text + "\n"
  }

  function WriteLines(lines: seq<Line>): seq<string> {
    if lines == [] then [] else WriteLines(lines[..|lines| - 1]) + [WriteLine(lines[|lines| - 1])]
  }

  function SrcLen(lines: seq<Line>): nat {
    if lines == [] then 0 else SrcLen(lines[..|lines| - 1]) + if lines[|lines| - 1].IsSrc() then 1 else 0
  }

  function DstLen(lines: seq<Line>): nat {
    if lines == [] then 0 else DstLen(lines[..|lines| - 1]) + if lines[|lines| - 1].IsDst() then 1 else 0
  }

  function WriteHead(c: Chunk): string {
    "@@ -" + (Decimal(c.srcPos) + ("," + (Decimal(SrcLen(c.lines)) +
    (" +" + (Decimal(c.dstPos) + ("," + (Decimal(DstLen(c.lines)) + " @@\n")))))))
  }

  function WriteChunk(c: Chunk): seq<string> {
    [WriteHead(c)] + WriteLines(c.lines)
  }

  function WriteChunks(chunks: seq<Chunk>): seq<string> {
    if chunks == [] then [] else WriteChunks(chunks[..|chunks| - 1]) + WriteChunk(chunks[|chunks| - 1])
  }

  function WritePatch(p: Patch): seq<string> {
    ["--- " + p.src + "\n", "+++ " + p.dst + "\n"] + WriteChunks(p.chunks)
  }

  function WritePatches(ps: seq<Patch>): seq<string> {
    if ps == [] then [] else WritePatches(ps[..|ps| - 1]) + WritePatch(ps[|ps| - 1])
  }

  // ----- parsing

  /** Adds a line to the chunk that was started last, in whichever patch that is. */
  function AddLine(ps: seq<Patch>, l: Line): Option<seq<Patch>> {
    if ps == [] then None
    else
      var n := |ps| - 1;
      var p := ps[n];
      if p.chunks == [] then
        match AddLine(ps[..n], l)
        case None => None
        case Some(front) => Some(front + [p])
      else
        var k := |p.chunks| - 1;
        var c := p.chunks[k];
        Some(ps[..n] + [p.(chunks := p.chunks[..k] + [c.(lines := c.lines + [l])])])
  }

  /** What a line does to the patches parsed so far; None is an exception. */
  function Parse1(ps: seq<Patch>, s: string): Option<seq<Patch>> {
    Take(ps, MeaningOf(s))
  }

  function Take(ps: seq<Patch>, m: Meaning): Option<seq<Patch>> {
    match m
    case SrcFile(name) => Some(ps + [Patch(name, "", [])])
    case DstFile(name) =>
      if ps == [] then None else Some(ps[..|ps| - 1] + [ps[|ps| - 1].(dst := name)])
    case ChunkStart(srcPos, dstPos) =>
      if ps == [] then None
      else
        var p := ps[|ps| - 1];
        Some(ps[..|ps| - 1] + [p.(chunks := p.chunks + [Chunk(srcPos, dstPos, [])])])
    case Content(l) => AddLine(ps, l)
    case Unknown => None
  }

  function ParseLines(ps: seq<Patch>, lines: seq<string>): Option<seq<Patch>> {
    if lines == [] then Some(ps)
    else
      match ParseLines(ps, lines[..|lines| - 1])
      case None => None
      case Some(ps') => Parse1(ps', lines[|lines| - 1])
  }
}
