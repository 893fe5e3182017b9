/**
 * The transmit side of hal_dma_printf as an object.  The globals of
 * src/hal_dma_printf.cc become fields: the array tx_buffer_, the cursors
 * read_itr_ and write_itr_, and the binding huart_.  Its functions become
 * methods.  Each call of HAL_UART_Transmit_DMA is recorded as a ghost
 * Transfer, together with the bytes the transfer covers at the moment it is
 * started, and the transfer the engine may still be reading.  Every method is one atomic step; the completion interrupt is
 * the method OnDmaTransmitComplete, which a caller may invoke between any
 * two other calls.
 */
module HalDmaPrintf {
  import opened TxRing

  datatype Option<T> = None | Some(value: T)

  /** What the code reads of a UART_HandleTypeDef: its identity and whether hdmatx is set. */
  datatype UartHandle = UartHandle(id: nat, hasTxDma: bool)

  /** memcpy(&dst[at], src, |src|). */
  method MemCopy(dst: array<char>, at: nat, src: seq<char>)
    requires at + |src| <= dst.Length
    modifies dst
    ensures dst[..] == Copy(old(dst[..]), at, src)
  {
    forall i | at <= i < at + |src| {
      dst[i] := src[i - at];
    }
  }

  class DmaPrintf {
    /** tx_buffer_, of length HAL_DMA_PRINTF_BUFFER_SIZE. */
    const txBuffer: array<char>
    /** read_itr_: the next byte to hand to the DMA engine. */
    var readItr: nat
    /** write_itr_: where the next `_write` puts its bytes. */
    var writeItr: nat
    /** huart_: the UART bound for output, None until a binding succeeds. */
    var huart: Option<UartHandle>

    /** Every HAL_UART_Transmit_DMA call so far, in order. */
    ghost var transfers: seq<Transfer>
    /** The bytes those transfers covered when each was started, concatenated. */
    ghost var sent: seq<char>
    /** The last transfer started and not yet reported complete. */
    ghost var inFlight: Option<Transfer>

    /**
     * Both cursors stay inside the array, every transfer lies inside the
     * array, and nothing is queued or transmitted before a binding, which
     * only a handle with a TX DMA channel gets.
     */
    ghost predicate Valid()
      reads this
    {
      1 <= txBuffer.Length &&
      readItr < txBuffer.Length && writeItr < txBuffer.Length &&
      WithinArray(txBuffer.Length, transfers) &&
      (inFlight.Some? ==> inFlight.value.start + inFlight.value.length <= txBuffer.Length) &&
      (huart.None? ==>
         readItr == 0 && writeItr == 0 && transfers == [] && sent == [] && inFlight == None) &&
      (huart.Some? ==> huart.value.hasTxDma)
    }

    /** The bytes written but not yet handed to the DMA engine. */
    ghost function Pending(): seq<char>
      reads this, txBuffer
      requires Valid()
    {
      Live(txBuffer[..], readItr, writeItr)
    }

    /** The byte count of the transfer in flight, 0 when there is none. */
    ghost function InFlightLength(): nat
      reads this
    {
      if inFlight.Some? then inFlight.value.length else 0
    }

    /**
     * The transfer in flight, if any, ends at the read cursor, and the array
     * still holds over its span the bytes recorded when it was started, so
     * the engine reads what was sent.
     */
    ghost predicate InFlightIntact()
      reads this, txBuffer
      requires Valid()
    {
      inFlight.None? ||
      (readItr == EndOf(txBuffer.Length, inFlight.value) &&
       inFlight.value.length <= |sent| &&
       Span(txBuffer[..], inFlight.value) == sent[|sent| - inFlight.value.length..])
    }

    /** The zero-initialised globals, for a buffer of `size` bytes. */
    constructor (size: nat)
      requires 1 <= size
      ensures Valid() && fresh(txBuffer) && txBuffer.Length == size
      ensures forall i :: 0 <= i < size ==> txBuffer[i] == '\0'
      ensures readItr == 0 && writeItr == 0 && huart == None
      ensures transfers == [] && sent == [] && inFlight == None
    {
      txBuffer := new char[size](_ => '\0');
      readItr, writeItr := 0, 0;
      huart := None;
      transfers, sent, inFlight := [], [], None;
    }

    /**
     * StartDmaTransmit: hands the run chosen by Kick to the engine and moves
     * the read cursor past it; that run is now in flight.  The write cursor
     * and the array do not change, and the bytes sent plus the bytes still
     * queued are what they were.
     */
    method StartDmaTransmit()
      requires Valid() && huart.Some?
      modifies this
      ensures Valid()
      ensures var k := Kick(txBuffer.Length, old(readItr), old(writeItr));
        readItr == k.read && transfers == old(transfers) + [k.run] &&
        sent == old(sent) + Span(txBuffer[..], k.run) && inFlight == Some(k.run)
      ensures writeItr == old(writeItr) && huart == old(huart) && unchanged(txBuffer)
      ensures sent + Pending() == old(sent + Pending())
      ensures InFlightIntact()
    {
      var c := txBuffer.Length;
      KickSendsLivePrefix(txBuffer[..], readItr, writeItr);
      if writeItr < readItr {
        var firstPartSize := c - readItr;
        transfers := transfers + [Transfer(readItr, firstPartSize)];
        sent := sent + txBuffer[readItr..c];
        inFlight := Some(Transfer(readItr, firstPartSize));
        readItr := 0;
      } else {
        transfers := transfers + [Transfer(readItr, writeItr - readItr)];
        sent := sent + txBuffer[readItr..writeItr];
        inFlight := Some(Transfer(readItr, writeItr - readItr));
        readItr := writeItr;
      }
    }

    /**
     * OnDmaTransmitComplete: the finished transfer is no longer in flight.
     * With bytes still queued, exactly one kick; with equal cursors, no
     * transfer and no change to the cursors, the binding or the array.
     */
    method OnDmaTransmitComplete()
      requires Valid()
      modifies this
      ensures Valid()
      ensures old(readItr) == old(writeItr) ==>
        readItr == old(readItr) && transfers == old(transfers) && sent == old(sent) &&
        inFlight == None
      ensures old(readItr) != old(writeItr) ==>
        var k := Kick(txBuffer.Length, old(readItr), old(writeItr));
        readItr == k.read && transfers == old(transfers) + [k.run] &&
        sent == old(sent) + Span(txBuffer[..], k.run) && inFlight == Some(k.run)
      ensures writeItr == old(writeItr) && huart == old(huart) && unchanged(txBuffer)
      ensures sent + Pending() == old(sent + Pending())
      ensures InFlightIntact()
    {
      inFlight := None;
      if readItr != writeItr {
        StartDmaTransmit();
      }
    }

    /**
     * SetUartHandler, without the compile-time callback check: a missing
     * handle or one without a TX DMA channel changes nothing; any other
     * handle is bound and both cursors go back to 0, which also discards
     * whatever was still queued.
     */
    method SetUartHandler(h: Option<UartHandle>)
      requires Valid()
      modifies this
      ensures Valid()
      ensures (h.None? || !h.value.hasTxDma) ==> unchanged(this)
      ensures h.Some? && h.value.hasTxDma ==>
        huart == h && readItr == 0 && writeItr == 0 &&
        transfers == old(transfers) && sent == old(sent) && Pending() == [] &&
        inFlight == old(inFlight)
      ensures unchanged(txBuffer)
    {
      match h {
        case None =>
          return;
        case Some(u) =>
          if !u.hasTxDma {
            return;
          }
      }
      huart := h;
      readItr := 0;
      writeItr := 0;
    }

    /**
     * The copy phase of `_write` (bound case): stores the data as StoreBytes
     * says and moves the write cursor as NextWrite says; the read cursor, the
     * binding and the records stay as they were.
     */
    method StoreAndAdvance(data: seq<char>)
      requires Valid() && huart.Some?
      modifies this, txBuffer
      ensures Valid()
      ensures txBuffer[..] == StoreBytes(old(txBuffer[..]), old(writeItr), data)
      ensures writeItr == NextWrite(txBuffer.Length, old(writeItr), |data|)
      ensures readItr == old(readItr) && huart == old(huart)
      ensures transfers == old(transfers) && sent == old(sent) && inFlight == old(inFlight)
    {
      var c := txBuffer.Length;
      ghost var buf0, write0 := txBuffer[..], writeItr;
      if c - writeItr >= |data| {
        MemCopy(txBuffer, writeItr, data);
        writeItr := writeItr + |data|;
        assert txBuffer[..] == StoreBytes(buf0, write0, data);
      } else {
        var remainingSpace := c - writeItr;
        MemCopy(txBuffer, writeItr, data[..remainingSpace]);
        var overflowLen := |data| - remainingSpace;
        if overflowLen > c {
          overflowLen := c;
        }
        assert overflowLen == OverflowLen(c, write0, |data|);
        MemCopy(txBuffer, 0, data[remainingSpace..remainingSpace + overflowLen]);
        writeItr := overflowLen;
        assert txBuffer[..] == StoreBytes(buf0, write0, data);
      }
      writeItr := writeItr % c;
    }

    /**
     * `_write`: always reports the full length.  Unbound, it changes nothing.
     * Bound, it stores the data as StoreBytes says, moves the write cursor as
     * NextWrite says, and then, if the engine is ready, makes exactly one
     * kick from the updated cursors (none otherwise).  While the queue and
     * the data together stay below the capacity, nothing is lost or
     * reordered: the bytes sent plus the bytes queued grow by exactly the
     * data.  Without a kick, the transfer in flight keeps its bytes only
     * while it, the queue and the data together fit in the array; a longer
     * write overwrites bytes the engine may not have read yet.
     */
    method Write(data: seq<char>, engineReady: bool) returns (n: nat)
      requires Valid()
      modifies this, txBuffer
      ensures Valid() && n == |data|
      ensures huart == old(huart)
      ensures old(huart).None? ==> unchanged(this) && unchanged(txBuffer)
      ensures old(huart).Some? ==>
        txBuffer[..] == StoreBytes(old(txBuffer[..]), old(writeItr), data) &&
        writeItr == NextWrite(txBuffer.Length, old(writeItr), |data|)
      ensures old(huart).Some? && engineReady ==>
        var k := Kick(txBuffer.Length, old(readItr), writeItr);
        readItr == k.read && transfers == old(transfers) + [k.run] &&
        sent == old(sent) + Span(txBuffer[..], k.run) &&
        inFlight == Some(k.run) && InFlightIntact()
      ensures old(huart).Some? && !engineReady ==>
        readItr == old(readItr) && transfers == old(transfers) && sent == old(sent) &&
        inFlight == old(inFlight)
      ensures old(huart).Some? && |old(Pending())| + |data| < txBuffer.Length ==>
        sent + Pending() == old(sent + Pending()) + data
      ensures old(huart).Some? && !engineReady && old(InFlightIntact()) &&
              |old(Pending())| + old(InFlightLength()) + |data| <= txBuffer.Length ==>
                InFlightIntact()
    {
      n := |data|;
      if huart.None? {
        return;
      }
      ghost var before := txBuffer[..];
      StoreAndAdvance(data);
      if LiveCount(|before|, readItr, old(writeItr)) + |data| < |before| {
        EnqueueAppendsToLive(before, readItr, old(writeItr), data);
      }
      if engineReady {
        StartDmaTransmit();
      } else if inFlight.Some? && old(InFlightIntact()) &&
                LiveCount(|before|, readItr, old(writeItr)) + InFlightLength() + |data| <= |before| {
        StoreBytesSparesInFlight(before, readItr, old(writeItr), inFlight.value, data);
      }
    }
  }
}
