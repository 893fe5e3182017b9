/**
 * Pure model of the transmit ring of hal_dma_printf: where `_write` puts the
 * caller's bytes, where it leaves the write cursor, which contiguous run
 * StartDmaTransmit hands to the DMA engine, and which bytes are still queued.
 *
 * The array has capacity c (HAL_DMA_PRINTF_BUFFER_SIZE); both cursors lie
 * in [0, c).  Ring positions are reduced with Wrap, which is the `% c` of the
 * source for the offsets below 2c that the code ever forms.
 */
module TxRing {

  /** The default HAL_DMA_PRINTF_BUFFER_SIZE. */
  const DEFAULT_BUFFER_SIZE: nat := 1024

  /** One call of HAL_UART_Transmit_DMA: an offset into the array and a byte count. */
  datatype Transfer = Transfer(start: nat, length: nat)

  /** What one kick produces: the run handed to the engine and the new read cursor. */
  datatype Kicked = Kicked(run: Transfer, read: nat)

  /** Reduces an offset below 2c into [0, c). */
  function Wrap(c: nat, x: nat): (i: nat)
    requires x < 2 * c
    ensures i < c
  {
    if x < c then x else x - c
  }

  // ---------------------------------------------------------------------------
  // Enqueue (`_write`)
  // ---------------------------------------------------------------------------

  /** memcpy(&buf[at], src, |src|): src laid over offsets [at, at + |src|). */
  function Copy(buf: seq<char>, at: nat, src: seq<char>): (r: seq<char>)
    requires at + |src| <= |buf|
    ensures |r| == |buf|
    ensures forall i :: at <= i < at + |src| ==> r[i] == src[i - at]
    ensures forall i :: 0 <= i < |buf| && !(at <= i < at + |src|) ==> r[i] == buf[i]
  {
    buf[..at] + src + buf[at + |src|..]
  }

  /**
   * The number of bytes the wrap case copies to the head of the array: the
   * part of the data past the end of the array, capped at the capacity.
   */
  function OverflowLen(c: nat, write: nat, len: nat): (k: nat)
    requires write < c && c - write < len
    ensures 0 < k <= c
    ensures k <= len - (c - write)
  {
    if len - (c - write) > c then c else len - (c - write)
  }

  /**
   * The array after the copies of `_write` with the write cursor at `write`.
   * Fit case: the data lands at offsets [write, write + |data|) and nothing
   * else changes.  Wrap case, with room = c - write and k the capped
   * overflow: the head [0, k) receives data[room .. room + k), offsets at or
   * past both write and k keep what the first copy put there, and the gap
   * [k, write) is untouched.  When k > write the second copy overwrites part
   * of the first.
   */
  function StoreBytes(buf: seq<char>, write: nat, data: seq<char>): (r: seq<char>)
    requires write < |buf|
    ensures |r| == |buf|
    ensures |data| <= |buf| - write ==>
      (forall i :: write <= i < write + |data| ==> r[i] == data[i - write]) &&
      (forall i :: 0 <= i < |buf| && !(write <= i < write + |data|) ==> r[i] == buf[i])
    ensures |buf| - write < |data| ==>
      (forall i :: 0 <= i < OverflowLen(|buf|, write, |data|) ==>
         r[i] == data[|buf| - write + i]) &&
      (forall i :: OverflowLen(|buf|, write, |data|) <= i < write ==> r[i] == buf[i]) &&
      (forall i :: write <= i < |buf| && OverflowLen(|buf|, write, |data|) <= i ==>
         r[i] == data[i - write])
  {
    var c := |buf|;
    if |data| <= c - write then
      Copy(buf, write, data)
    else
      var room := c - write;
      var k := OverflowLen(c, write, |data|);
      Copy(Copy(buf, write, data[..room]), 0, data[room..room + k])
  }

  /** The write cursor after `_write`: always back inside [0, c). */
  function NextWrite(c: nat, write: nat, len: nat): (w: nat)
    requires write < c
    ensures w < c
  {
    if len <= c - write then (write + len) % c else OverflowLen(c, write, len) % c
  }

  /** Without the cap, the write cursor advances by the length around the ring. */
  lemma NextWriteAdvances(c: nat, write: nat, len: nat)
    requires write < c && len <= c
    ensures NextWrite(c, write, len) == Wrap(c, write + len)
  {
    if len <= c - write {
      if write + len < c {
        SmallRemainder(write + len, c);
      } else {
        SmallRemainder(0, c);
        assert write + len == 0 + c;
      }
    } else {
      var k := OverflowLen(c, write, len);
      assert k == write + len - c && k < c;
      SmallRemainder(k, c);
    }
  }

  /**
   * In ring terms, for data no longer than the array: byte m lands m places
   * after the write cursor, and every offset at least |data| places after it
   * around the ring keeps its old byte.
   */
  lemma StoreBytesRing(buf: seq<char>, write: nat, data: seq<char>)
    requires write < |buf| && |data| <= |buf|
    ensures forall m :: 0 <= m < |data| ==>
      StoreBytes(buf, write, data)[Wrap(|buf|, write + m)] == data[m]
    ensures forall i :: 0 <= i < |buf| && |data| <= LiveCount(|buf|, write, i) ==>
      StoreBytes(buf, write, data)[i] == buf[i]
  {
    var c := |buf|;
    var r := StoreBytes(buf, write, data);
    if |data| <= c - write {
      forall m | 0 <= m < |data| ensures r[Wrap(c, write + m)] == data[m] {
        assert Wrap(c, write + m) == write + m;
      }
    } else {
      var room := c - write;
      var k := OverflowLen(c, write, |data|);
      assert k == |data| - room && k <= write;
      forall m | 0 <= m < |data| ensures r[Wrap(c, write + m)] == data[m] {
        if m < room {
          assert Wrap(c, write + m) == write + m;
        } else {
          assert Wrap(c, write + m) == m - room;
        }
      }
    }
  }

  /**
   * An oversized write: when the part past the end reaches the capacity, the
   * whole array ends up holding data[room .. room + c) and the write cursor
   * is 0.  These are not the last c bytes of the data unless the overflow is
   * exactly c.
   */
  lemma OversizedWriteKeepsWindow(buf: seq<char>, write: nat, data: seq<char>)
    requires write < |buf| && |data| >= 2 * |buf| - write
    ensures StoreBytes(buf, write, data) == data[|buf| - write..2 * |buf| - write]
    ensures NextWrite(|buf|, write, |data|) == 0
  {
    var c := |buf|;
    var r := StoreBytes(buf, write, data);
    assert OverflowLen(c, write, |data|) == c;
    var window := data[c - write..2 * c - write];
    forall i | 0 <= i < c ensures r[i] == window[i] {
    }
    SmallRemainder(0, c);
    assert c == 0 + c;
  }

  /**
   * The lossy-overwrite case in numbers (c = 8, write = 6, twenty letters):
   * the array keeps "CDEFGHIJ", not the last eight letters "MNOPQRST".
   */
  lemma OversizedWriteDropsNewest(buf: seq<char>)
    requires |buf| == 8
    ensures StoreBytes(buf, 6, "ABCDEFGHIJKLMNOPQRST") == "CDEFGHIJ"
    ensures StoreBytes(buf, 6, "ABCDEFGHIJKLMNOPQRST") != "ABCDEFGHIJKLMNOPQRST"[12..]
  {
    OversizedWriteKeepsWindow(buf, 6, "ABCDEFGHIJKLMNOPQRST");
    assert "ABCDEFGHIJKLMNOPQRST"[2..10] == "CDEFGHIJ";
    assert "CDEFGHIJ"[0] != "ABCDEFGHIJKLMNOPQRST"[12..][0];
  }

  // ---------------------------------------------------------------------------
  // Live bytes
  // ---------------------------------------------------------------------------

  /** The number of queued bytes between the read and the write cursor. */
  function LiveCount(c: nat, read: nat, write: nat): nat
    requires read < c && write < c
  {
    if read <= write then write - read else c - read + write
  }

  /** Euclidean division of x and of x + c by c, for x in [0, c): remainder x. */
  lemma SmallRemainder(x: int, c: int)
    requires 0 <= x < c
    ensures x % c == x && (x + c) % c == x
  {
    assert x == c * 0 + x;
    assert x + c == c * 1 + x;
  }

  /** Euclidean division of x - c by c, for x in [0, c): quotient -1, remainder x. */
  lemma ShiftedRemainder(x: int, c: int)
    requires 0 <= x < c
    ensures (x - c) / c == -1 && (x - c) % c == x
  {
    assert x - c == c * (-1) + x;
  }

  /** The queued count is the ring distance (write - read) mod c. */
  lemma LiveCountIsRingDistance(c: nat, read: nat, write: nat)
    requires read < c && write < c
    ensures LiveCount(c, read, write) == (write - read) % c
  {
    if read <= write {
      assert 0 <= write - read < c;
    } else {
      ShiftedRemainder(c - read + write, c);
      assert (c - read + write) - c == write - read;
    }
  }

  /**
   * The queued bytes in ring order, starting at the read cursor.  Equal
   * cursors mean an empty ring, even when a write has just filled it.
   */
  function Live(buf: seq<char>, read: nat, write: nat): (r: seq<char>)
    requires read < |buf| && write < |buf|
    ensures |r| == LiveCount(|buf|, read, write)
    ensures forall j :: 0 <= j < |r| ==> r[j] == buf[Wrap(|buf|, read + j)]
  {
    if read <= write then buf[read..write] else buf[read..] + buf[..write]
  }

  /**
   * For data that fits beside the queued bytes, `_write` stores the data
   * right after them in ring order and moves the write cursor to the end of
   * it; the queued bytes themselves are kept.
   */
  lemma EnqueueLaysDataAfterLive(buf: seq<char>, read: nat, write: nat, data: seq<char>)
    requires read < |buf| && write < |buf|
    requires LiveCount(|buf|, read, write) + |data| <= |buf|
    ensures NextWrite(|buf|, write, |data|)
         == Wrap(|buf|, read + LiveCount(|buf|, read, write) + |data|)
    ensures forall j :: 0 <= j < LiveCount(|buf|, read, write) + |data| ==>
      StoreBytes(buf, write, data)[Wrap(|buf|, read + j)] == (Live(buf, read, write) + data)[j]
  {
    var c := |buf|;
    var n := LiveCount(c, read, write);
    var r := StoreBytes(buf, write, data);
    var queue := Live(buf, read, write) + data;
    NextWriteAdvances(c, write, |data|);
    StoreBytesRing(buf, write, data);
    assert Wrap(c, read + n) == write;
    forall j | 0 <= j < n + |data| ensures r[Wrap(c, read + j)] == queue[j] {
      if j < n {
        assert LiveCount(c, write, Wrap(c, read + j)) == c - n + j;
      } else {
        assert Wrap(c, read + j) == Wrap(c, write + (j - n));
      }
    }
  }

  /**
   * No loss, no reordering: while the queued bytes and the new data together
   * stay below the capacity, the queue after `_write` is the old queue
   * followed by the data.
   */
  lemma EnqueueAppendsToLive(buf: seq<char>, read: nat, write: nat, data: seq<char>)
    requires read < |buf| && write < |buf|
    requires LiveCount(|buf|, read, write) + |data| < |buf|
    ensures Live(StoreBytes(buf, write, data), read, NextWrite(|buf|, write, |data|))
         == Live(buf, read, write) + data
  {
    var c := |buf|;
    var r := StoreBytes(buf, write, data);
    var queue := Live(buf, read, write) + data;
    EnqueueLaysDataAfterLive(buf, read, write, data);
    var after := Live(r, read, NextWrite(c, write, |data|));
    assert |after| == |queue|;
    forall j | 0 <= j < |queue| ensures after[j] == queue[j] {
    }
  }

  /**
   * A write that brings the queue to exactly the capacity stores every byte
   * but lands the write cursor on the read cursor, so the ring then reads as
   * empty and none of it is ever kicked.
   */
  lemma ExactFillLooksEmpty(buf: seq<char>, read: nat, write: nat, data: seq<char>)
    requires read < |buf| && write < |buf|
    requires LiveCount(|buf|, read, write) + |data| == |buf|
    ensures NextWrite(|buf|, write, |data|) == read
    ensures Live(StoreBytes(buf, write, data), read, NextWrite(|buf|, write, |data|)) == []
    ensures forall j :: 0 <= j < |buf| ==>
      StoreBytes(buf, write, data)[Wrap(|buf|, read + j)] == (Live(buf, read, write) + data)[j]
  {
    EnqueueLaysDataAfterLive(buf, read, write, data);
  }

  /**
   * The offset just past a transfer, reduced into [0, c): the read cursor
   * that the kick of t leaves behind.
   */
  function EndOf(c: nat, t: Transfer): nat
    requires t.start + t.length <= c
  {
    if t.start + t.length == c then 0 else t.start + t.length
  }

  /**
   * A transfer still in flight occupies the ring positions just before the
   * read cursor.  As long as the in-flight bytes, the queued bytes and the
   * new data together fit in the array, `_write` does not touch the bytes
   * the engine is still reading.
   */
  lemma StoreBytesSparesInFlight(buf: seq<char>, read: nat, write: nat, t: Transfer, data: seq<char>)
    requires read < |buf| && write < |buf| && t.start + t.length <= |buf|
    requires read == EndOf(|buf|, t)
    requires LiveCount(|buf|, read, write) + t.length + |data| <= |buf|
    ensures Span(StoreBytes(buf, write, data), t) == Span(buf, t)
  {
    var c := |buf|;
    var r := StoreBytes(buf, write, data);
    StoreBytesRing(buf, write, data);
    forall i | t.start <= i < t.start + t.length ensures r[i] == buf[i] {
      assert LiveCount(c, write, i) >= |data|;
    }
    assert Span(r, t) == Span(buf, t);
  }

  // ---------------------------------------------------------------------------
  // Kick (StartDmaTransmit) and drain (OnDmaTransmitComplete)
  // ---------------------------------------------------------------------------

  /** The bytes of the array that a transfer covers. */
  function Span(buf: seq<char>, t: Transfer): seq<char>
    requires t.start + t.length <= |buf|
  {
    buf[t.start..t.start + t.length]
  }

  /**
   * StartDmaTransmit: the run from the read cursor to the write cursor, or to
   * the end of the array when the queue wraps.  The run lies inside the
   * array, never exceeds the queued count, and the read cursor moves past it
   * around the ring.
   */
  function Kick(c: nat, read: nat, write: nat): (k: Kicked)
    requires read < c && write < c
    ensures k.run.start == read && read + k.run.length <= c
    ensures k.run.length <= LiveCount(c, read, write)
    ensures k.read == (read + k.run.length) % c
    ensures k.read == EndOf(c, k.run)
  {
    if write < read then
      SmallRemainder(0, c);
      assert read + (c - read) == 0 + c;
      Kicked(Transfer(read, c - read), 0)
    else
      SmallRemainder(write, c);
      assert read + (write - read) == write;
      Kicked(Transfer(read, write - read), write)
  }

  /** What a kick hands over is the front of the queue, and the rest stays queued. */
  lemma KickSendsLivePrefix(buf: seq<char>, read: nat, write: nat)
    requires read < |buf| && write < |buf|
    ensures Span(buf, Kick(|buf|, read, write).run) + Live(buf, Kick(|buf|, read, write).read, write)
         == Live(buf, read, write)
  {
    if write < read {
      assert Span(buf, Kick(|buf|, read, write).run) == buf[read..];
    }
  }

  /** Every transfer of ts lies inside an array of capacity c. */
  predicate WithinArray(c: nat, ts: seq<Transfer>) {
    forall i :: 0 <= i < |ts| ==> ts[i].start + ts[i].length <= c
  }

  /** The total byte count of some transfers. */
  function TotalLength(ts: seq<Transfer>): nat {
    if ts == [] then 0 else ts[0].length + TotalLength(ts[1..])
  }

  /** The bytes some transfers cover, concatenated in order. */
  function Spans(buf: seq<char>, ts: seq<Transfer>): seq<char>
    requires WithinArray(|buf|, ts)
  {
    if ts == [] then [] else Span(buf, ts[0]) + Spans(buf, ts[1..])
  }

  /**
   * The transfers that the completion handler starts one after another,
   * from the kick it makes when the cursors differ until they are equal;
   * every one of them lies inside the array.
   */
  function DrainRuns(c: nat, read: nat, write: nat): (ts: seq<Transfer>)
    requires read < c && write < c
    ensures WithinArray(c, ts)
    decreases if write < read then 2 else if read < write then 1 else 0
  {
    if read == write then []
    else
      var k := Kick(c, read, write);
      [k.run] + DrainRuns(c, k.read, write)
  }

  /**
   * Full drain: two kicks at most bring the read cursor to the write cursor
   * (two exactly when the queue wraps and bytes sit at the head), the kicked
   * lengths sum to the queued count, and the kicked spans, concatenated, are
   * the queued bytes in ring order from the read cursor.
   */
  lemma {:induction false} DrainSendsLive(buf: seq<char>, read: nat, write: nat)
    requires read < |buf| && write < |buf|
    ensures |DrainRuns(|buf|, read, write)|
         == if read == write then 0 else if 0 < write < read then 2 else 1
    ensures TotalLength(DrainRuns(|buf|, read, write)) == LiveCount(|buf|, read, write)
    ensures Spans(buf, DrainRuns(|buf|, read, write)) == Live(buf, read, write)
    decreases if write < read then 2 else if read < write then 1 else 0
  {
    var c := |buf|;
    if read != write {
      var k := Kick(c, read, write);
      var ts := DrainRuns(c, read, write);
      assert ts == [k.run] + DrainRuns(c, k.read, write);
      assert ts[1..] == DrainRuns(c, k.read, write);
      KickSendsLivePrefix(buf, read, write);
      DrainSendsLive(buf, k.read, write);
    }
  }
}
