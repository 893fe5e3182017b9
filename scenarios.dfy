/**
 * Client runs of the transmit path on an 8-byte buffer, proved from the
 * contracts of DmaPrintf alone (as a caller of the library sees it).
 */
module Scenarios {
  import opened TxRing
  import opened HalDmaPrintf

  /**
   * "ABCDE" with the engine idle is kicked at once; "FG" written while that
   * transfer is outstanding waits until the completion handler kicks it.
   */
  method WriteWhileBusy()
  {
    var p := new DmaPrintf(8);
    p.SetUartHandler(Some(UartHandle(1, true)));
    var n := p.Write("ABCDE", true);
    assert n == 5;
    assert p.transfers == [Transfer(0, 5)] && p.readItr == 5 && p.writeItr == 5;
    assert p.sent == "ABCDE";
    n := p.Write("FG", false);
    assert p.readItr == 5 && p.writeItr == 7 && p.transfers == [Transfer(0, 5)];
    p.OnDmaTransmitComplete();
    assert p.transfers == [Transfer(0, 5), Transfer(5, 2)];
    assert p.readItr == 7 && p.writeItr == 7;
    p.OnDmaTransmitComplete();
    assert p.transfers == [Transfer(0, 5), Transfer(5, 2)];
  }

  /**
   * With both cursors at 6, ten bytes "0123456789": "01" goes to offsets 6-7,
   * then the eight bytes "23456789" fill the whole array from offset 0 and
   * the write cursor comes back to 0.  The ring then holds only the two
   * bytes at offsets 6-7 as queued, so the kick sends "89".
   */
  method OverflowFromMiddle()
  {
    var p := new DmaPrintf(8);
    p.SetUartHandler(Some(UartHandle(1, true)));
    var n := p.Write("ABCDEF", true);
    assert p.readItr == 6 && p.writeItr == 6;
    ghost var before := p.txBuffer[..];
    n := p.Write("0123456789", true);
    assert n == 10;
    OversizedWriteKeepsWindow(before, 6, "0123456789");
    assert "0123456789"[2..10] == "23456789";
    assert p.txBuffer[..] == "23456789";
    assert p.writeItr == 0;
    assert p.transfers == [Transfer(0, 6), Transfer(6, 2)] && p.readItr == 0;
    assert p.sent == "ABCDEF89";
  }

  /** "FG", written while "ABCDE" is in flight, fits beside it and leaves its bytes alone. */
  method WriteBesideInFlightSpan()
  {
    var p := new DmaPrintf(8);
    p.SetUartHandler(Some(UartHandle(1, true)));
    var n := p.Write("ABCDE", true);
    assert p.inFlight == Some(Transfer(0, 5)) && p.InFlightIntact();
    n := p.Write("FG", false);
    assert p.InFlightIntact();
  }

  /**
   * Six bytes written while "ABCDE" is in flight wrap onto offsets 0-2, so
   * the span the engine may still be reading then holds "IJKDE".
   */
  method WriteOverInFlightSpan()
  {
    var p := new DmaPrintf(8);
    p.SetUartHandler(Some(UartHandle(1, true)));
    var n := p.Write("ABCDE", true);
    assert p.sent == "ABCDE" && p.inFlight == Some(Transfer(0, 5));
    assert p.txBuffer[..5] == "ABCDE";
    ghost var before := p.txBuffer[..];
    n := p.Write("FGHIJK", false);
    assert p.txBuffer[..] == StoreBytes(before, 5, "FGHIJK");
    assert p.txBuffer[0] == 'I';
    assert Span(p.txBuffer[..], Transfer(0, 5))[0] != p.sent[0];
    assert !p.InFlightIntact();
  }

  /**
   * Before a binding, output is swallowed; a handle without TX DMA is
   * refused.  The buffer has the default size.
   */
  method UnboundWriteIsDiscarded()
  {
    var p := new DmaPrintf(DEFAULT_BUFFER_SIZE);
    assert p.txBuffer.Length == 1024;
    var n := p.Write("hello", true);
    assert n == 5 && p.transfers == [] && p.writeItr == 0;
    p.SetUartHandler(Some(UartHandle(2, false)));
    assert p.huart == None;
    p.SetUartHandler(None);
    assert p.huart == None;
  }
}
