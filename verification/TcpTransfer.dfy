/**
  The sender of a large TCP transfer.  Whatever space the socket offers and
  however much of a write it takes, the bytes it accepts are the alphabet over
  and over, from the first byte to the last.
 */
module TcpTransfer {
  import Numbers

  const TOTAL_TX_BYTES: nat := 2000000
  const WRITE_SIZE: nat := 1040
  const UINT32_LIMIT: nat := 0x1_0000_0000

  /** Byte i of the stream. */
  function StreamByte(i: nat): nat {
    'a' as int + i % 26
  }

  function Stream(n: nat): (s: seq<nat>)
    ensures |s| == n
  {
    seq(n, (i: nat) => StreamByte(i))
  }

  /** Reading a buffer of w stream bytes round and round gives the stream exactly when 26 divides w. */
  lemma BufferRepeatsStream(w: nat)
    requires w > 0
    ensures (forall i: nat :: StreamByte(i % w) == StreamByte(i)) <==> w % 26 == 0
  {
    if w % 26 == 0 {
      forall i: nat
        ensures StreamByte(i % w) == StreamByte(i)
      {
        RemainderKeepsByte(i, w);
      }
    } else {
      SelfRemainder(w);
      assert StreamByte(w % w) != StreamByte(w);
    }
  }

  lemma RemainderKeepsByte(i: nat, w: nat)
    requires w > 0 && w % 26 == 0
    ensures i % w % 26 == i % 26
  {
    var q: int, k: int := i / w, w / 26;
    assert i == w * q + i % w;
    FactorOut(w, k, q);
    AddMultiple(i % w, k * q);
  }

  lemma FactorOut(w: int, k: int, q: int)
    requires w == 26 * k
    ensures w * q == 26 * (k * q)
  {
  }

  lemma SelfRemainder(w: nat)
    requires w > 0
    ensures w % w == 0
  {
  }

  lemma AddMultiple(r: int, m: int)
    ensures (26 * m + r) % 26 == r % 26
  {
  }

  /**
    One turn of the sending loop as the socket sees it: the space it reports in
    the loop's test, the space it reports again before the write, and its answer,
    negative for an error and otherwise at most what was offered.
   */
  datatype Reply = Reply(available: nat, availableAgain: nat, answer: int)

  /** How much a turn gets rid of with n bytes sent: limited by the end of the buffer, the total and the socket. */
  function Moved(n: nat, reply: Reply): (m: nat)
    requires n < TOTAL_TX_BYTES && reply.answer >= 0
    ensures m <= WRITE_SIZE - n % WRITE_SIZE && n + m <= TOTAL_TX_BYTES
  {
    var room := Numbers.Min(WRITE_SIZE - n % WRITE_SIZE, TOTAL_TX_BYTES - n);
    Numbers.Min(reply.answer, Numbers.Min(reply.availableAgain, room))
  }

  /** The count that the given replies lead to from n bytes sent. */
  function SentAfter(n: nat, replies: seq<Reply>): (m: nat)
    requires n <= TOTAL_TX_BYTES
    ensures n <= m <= TOTAL_TX_BYTES
    decreases |replies|
  {
    if replies == [] || n == TOTAL_TX_BYTES || replies[0].available == 0 || replies[0].answer < 0 then n
    else SentAfter(n + Moved(n, replies[0]), replies[1..])
  }

  /** A socket that always has space and always takes something gets at least a byte each turn, until the end. */
  lemma {:induction false} WillingSocketProgress(n: nat, replies: seq<Reply>)
    requires n <= TOTAL_TX_BYTES
    requires forall i :: 0 <= i < |replies| ==>
      replies[i].available > 0 && replies[i].availableAgain > 0 && replies[i].answer > 0
    ensures SentAfter(n, replies) == TOTAL_TX_BYTES || SentAfter(n, replies) >= n + |replies|
    decreases |replies|
  {
    if replies != [] && n < TOTAL_TX_BYTES {
      WillingSocketProgress(n + Moved(n, replies[0]), replies[1..]);
    }
  }

  /** What a turn moves is the least of four limits: the rest of the buffer, the rest of the total, space and answer. */
  lemma MovedIsLeast(n: nat, reply: Reply)
    requires n < TOTAL_TX_BYTES && reply.answer >= 0
    ensures var buffer, total := WRITE_SIZE - n % WRITE_SIZE, TOTAL_TX_BYTES - n;
      var m := Moved(n, reply);
      && m <= buffer && m <= total && m <= reply.availableAgain && m <= reply.answer
      && (m == buffer || m == total || m == reply.availableAgain || m == reply.answer)
  {
  }

  /** The socket always has room for a whole buffer and takes all it is offered. */
  ghost predicate Generous(replies: seq<Reply>) {
    forall i :: 0 <= i < |replies| ==>
      replies[i].available > 0 && replies[i].availableAgain >= WRITE_SIZE && replies[i].answer >= WRITE_SIZE
  }

  /** How many buffers are not sent to their end, the one under way included. */
  function BuffersLeft(n: nat): int
    requires n <= TOTAL_TX_BYTES
  {
    (TOTAL_TX_BYTES + WRITE_SIZE - 1) / WRITE_SIZE - n / WRITE_SIZE
  }

  lemma GenerousTurn(n: nat, reply: Reply)
    requires n < TOTAL_TX_BYTES && reply.availableAgain >= WRITE_SIZE && reply.answer >= WRITE_SIZE
    ensures var next := n + Moved(n, reply);
      next == TOTAL_TX_BYTES || (next % WRITE_SIZE == 0 && next / WRITE_SIZE == n / WRITE_SIZE + 1)
    ensures BuffersLeft(n) > 0
    ensures n + Moved(n, reply) < TOTAL_TX_BYTES ==> BuffersLeft(n + Moved(n, reply)) == BuffersLeft(n) - 1
    ensures n + Moved(n, reply) == TOTAL_TX_BYTES ==> BuffersLeft(n) == 1
  {
  }

  /** A generous socket gets everything exactly when there is a turn for each buffer left. */
  lemma {:induction false} GenerousSocketFinishes(n: nat, replies: seq<Reply>)
    requires n < TOTAL_TX_BYTES && Generous(replies)
    ensures SentAfter(n, replies) == TOTAL_TX_BYTES <==> |replies| >= BuffersLeft(n)
    decreases |replies|
  {
    if replies != [] {
      GenerousTurn(n, replies[0]);
      var next := n + Moved(n, replies[0]);
      if next < TOTAL_TX_BYTES {
        GenerousSocketFinishes(next, replies[1..]);
      }
    } else {
      GenerousTurn(n, Reply(1, WRITE_SIZE, WRITE_SIZE));
    }
  }

  /** From the start that makes 1924 turns. */
  lemma TurnsFromStart(replies: seq<Reply>)
    requires Generous(replies)
    ensures SentAfter(0, replies) == TOTAL_TX_BYTES <==> |replies| >= 1924
  {
    GenerousSocketFinishes(0, replies);
  }

  class Sender {
    var currentTxBytes: nat
    const data: array<nat>
    var accepted: seq<nat>
    var closes: nat

    ghost predicate Valid()
      reads this, data
    {
      && data.Length == WRITE_SIZE
      && (forall i :: 0 <= i < WRITE_SIZE ==> data[i] == StreamByte(i))
      && currentTxBytes <= TOTAL_TX_BYTES < UINT32_LIMIT
      && accepted == Stream(currentTxBytes)
      && (closes > 0 ==> currentTxBytes == TOTAL_TX_BYTES)
    }

    constructor ()
      ensures Valid() && currentTxBytes == 0 && closes == 0
      ensures fresh(data)
    {
      data := new nat[WRITE_SIZE](i => 0);
      currentTxBytes, accepted, closes := 0, [], 0;
      new;
      for i := 0 to WRITE_SIZE
        invariant currentTxBytes == 0 && accepted == [] && closes == 0
        invariant forall j :: 0 <= j < i ==> data[j] == StreamByte(j)
      {
        data[i] := 97 + i % 26;
      }
    }

    /** The socket takes some of data[offset..offset + size], or answers with an error. */
    method Send(offset: nat, size: nat, answer: int) returns (amountSent: int)
      requires offset + size <= data.Length
      modifies this`accepted
      ensures amountSent == if answer < 0 then answer else if answer <= size then answer else size
      ensures accepted == old(accepted) + if amountSent < 0 then [] else data[offset..offset + amountSent]
    {
      amountSent := if answer < 0 then answer else if answer <= size then answer else size;
      if amountSent >= 0 {
        accepted := accepted + data[offset..offset + amountSent];
      }
    }

    /** One turn of the loop; false when the socket answers with an error. */
    method SendChunk(reply: Reply) returns (ok: bool)
      requires Valid() && currentTxBytes < TOTAL_TX_BYTES && closes == 0
      modifies this`currentTxBytes, this`accepted
      ensures Valid() && ok == (reply.answer >= 0)
      ensures currentTxBytes == old(currentTxBytes) + if ok then Moved(old(currentTxBytes), reply) else 0
    {
      var left := TOTAL_TX_BYTES - currentTxBytes;
      var dataOffset := currentTxBytes % WRITE_SIZE;
      var toWrite := WRITE_SIZE - dataOffset;
      toWrite := Numbers.Min(toWrite, left);
      toWrite := Numbers.Min(toWrite, reply.availableAgain);
      var amountSent := Send(dataOffset, toWrite, reply.answer);
      if amountSent < 0 {
        return false;
      }
      ChunkIsStream(data[dataOffset..dataOffset + amountSent], currentTxBytes, amountSent);
      currentTxBytes := currentTxBytes + amountSent;
      return true;
    }

    /**
      Writes until the socket has no space, refuses a write, or all is sent.  The
      accepted bytes stay the stream's first bytes, reads stay inside the buffer
      and the count does not pass the total.  Each call that ends with everything
      sent closes the socket, and none closes it earlier.
     */
    method WriteUntilBufferFull(replies: seq<Reply>)
      requires Valid()
      modifies this`currentTxBytes, this`accepted, this`closes
      ensures Valid() && old(accepted) <= accepted
      ensures closes == old(closes) + if currentTxBytes == TOTAL_TX_BYTES then 1 else 0
      ensures currentTxBytes == SentAfter(old(currentTxBytes), replies)
    {
      var i := 0;
      while i < |replies| && currentTxBytes < TOTAL_TX_BYTES && replies[i].available > 0
        invariant i <= |replies|
        invariant Valid() && closes == old(closes) && currentTxBytes >= old(currentTxBytes)
        invariant SentAfter(old(currentTxBytes), replies) == SentAfter(currentTxBytes, replies[i..])
      {
        ghost var n := currentTxBytes;
        var ok := SendChunk(replies[i]);
        if !ok {
          LoopEnds(n, replies, i);
          StreamPrefix(old(currentTxBytes), currentTxBytes);
          return;
        }
        TurnTaken(n, replies, i);
        i := i + 1;
      }
      LoopEnds(currentTxBytes, replies, i);
      StreamPrefix(old(currentTxBytes), currentTxBytes);
      if currentTxBytes >= TOTAL_TX_BYTES {
        closes := closes + 1;
      }
    }
  }

  lemma StreamPrefix(n: nat, m: nat)
    requires n <= m
    ensures Stream(n) <= Stream(m)
  {
  }

  lemma LoopEnds(n: nat, replies: seq<Reply>, i: nat)
    requires i <= |replies| && n <= TOTAL_TX_BYTES
    requires i == |replies| || n == TOTAL_TX_BYTES || replies[i].available == 0 || replies[i].answer < 0
    ensures SentAfter(n, replies[i..]) == n
  {
  }

  lemma TurnTaken(n: nat, replies: seq<Reply>, i: nat)
    requires i < |replies| && n < TOTAL_TX_BYTES && replies[i].available > 0 && replies[i].answer >= 0
    ensures SentAfter(n, replies[i..]) == SentAfter(n + Moved(n, replies[i]), replies[i + 1..])
  {
    assert replies[i..][1..] == replies[i + 1..];
  }

  /** The next bytes of the buffer continue the stream. */
  lemma ChunkIsStream(chunk: seq<nat>, n: nat, size: nat)
    requires |chunk| == size && n % WRITE_SIZE + size <= WRITE_SIZE
    requires forall k {:trigger chunk[k]} :: 0 <= k < size ==> chunk[k] == StreamByte(n % WRITE_SIZE + k)
    ensures Stream(n) + chunk == Stream(n + size)
  {
    forall k | 0 <= k < size
      ensures chunk[k] == StreamByte(n + k)
    {
      assert n == WRITE_SIZE * (n / WRITE_SIZE) + n % WRITE_SIZE;
      AddMultiple(n % WRITE_SIZE + k, 40 * (n / WRITE_SIZE));
    }
  }
}
