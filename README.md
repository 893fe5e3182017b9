# hal-dma-printf transmit ring, in Dafny

hal-dma-printf sends a microcontroller's `printf` output over a UART through DMA.
`_write` copies each chunk of output into a fixed ring buffer `tx_buffer_`. It
advances the write cursor `write_itr_` modulo the capacity C
(`HAL_DMA_PRINTF_BUFFER_SIZE`, 1024 by default). When the UART is idle it starts
a DMA transfer. `StartDmaTransmit` picks one contiguous run of the ring, hands
it to `HAL_UART_Transmit_DMA` and advances the read cursor `read_itr_`. The
completion callback `OnDmaTransmitComplete` starts the next run while the
cursors differ. `SetUartHandler` binds the UART and resets both cursors.

The project has three files:

- `tx_ring.dfy` (module `TxRing`) is the pure model. `StoreBytes` and
  `NextWrite` give the array and the write cursor after `_write`'s copies.
  `Kick` gives the run and the new read cursor of one `StartDmaTransmit`.
  `Live` gives the queued bytes in ring order. `DrainRuns` gives the chain of
  transfers the completion handler starts. Lemmas relate them: the fit and
  wrap cases, no loss or reordering below capacity, the full drain, and the
  exact-fill and oversized-write cases.
- `hal_dma_printf.dfy` (module `HalDmaPrintf`) has the class `DmaPrintf`. It
  holds the array `txBuffer`, the cursors `readItr` and `writeItr`, and the
  binding `huart`. Three ghost records track the transmit side: `transfers`
  holds every `HAL_UART_Transmit_DMA` call as (start, length), `sent` holds
  the bytes those transfers covered, and `inFlight` is the transfer not yet
  reported complete. Each method is proved against the
  functions of `TxRing`. `Valid()` says the cursors and every transfer stay
  inside the array, and that nothing is queued or sent before a binding.
- `scenarios.dfy` (module `Scenarios`) has client runs on an 8-byte buffer.
  They are proved from the class contracts alone: a write made while a
  transfer is outstanding, a ten-byte write that wraps from offset 6, a write
  beside and a write over the span still in flight, and output before a
  binding on a buffer of the default size.

Each call is one atomic step. The completion interrupt is a method a caller
may invoke between any two others. The UART's `gState == HAL_UART_STATE_READY`
test is the boolean parameter `engineReady` of `Write`.

### Two edge cases of `_write`

- An oversized write keeps `ptr[room .. room + C)`, where room = C - write.
  The code caps the part past the end of the array at C (lines 74-75), so these
  are the last C bytes of the data only when that part is exactly C
  (`OversizedWriteKeepsWindow`). `OversizedWriteDropsNewest` works one case
  through: C = 8, write = 6, twenty bytes keep "CDEFGHIJ".
- A write that brings the queue to exactly C leaves read == write, so the
  queue reads as empty and none of it is kicked (`ExactFillLooksEmpty`). The
  no-loss lemma `EnqueueAppendsToLive` therefore covers queues below C.

A transfer the engine is still reading is tracked as the ghost `inFlight`. A
kick sets it and `OnDmaTransmitComplete` clears it. `InFlightIntact()` says
that its span still holds the bytes recorded when it started. `Write` keeps
this only while the in-flight bytes, the queue and the data together fit in
C (`StoreBytesSparesInFlight`). A longer write overwrites bytes the engine
may not have read yet, even when the queue itself loses nothing
(`Scenarios.WriteOverInFlightSpan`).

## Model

| member | source | states |
|---|---|---|
| `TxRing.Copy` | src/hal_dma_printf.cc:68-77 | one memcpy: offsets [at, at+len) receive the source bytes in order, every other offset keeps its byte |
| `TxRing.OverflowLen` | src/hal_dma_printf.cc:73-76 | the wrapped part is positive, at most C, and at most the bytes left after the space before the end |
| `TxRing.StoreBytes` | src/hal_dma_printf.cc:67-79 | fit case: offsets write..write+len-1 receive ptr[0..len) and all others are unchanged; wrap case with k the capped overflow: offsets 0..k-1 receive ptr[C-write .. C-write+k), offsets at or past both write and k receive ptr[i-write], offsets in [k, write) are unchanged |
| `TxRing.NextWrite` | src/hal_dma_printf.cc:67-80 | after any `_write` the write cursor lies in [0, C), including when the data ends exactly at the array end and when the capped overflow equals C |
| `TxRing.NextWriteAdvances` | src/hal_dma_printf.cc:67-80 | for len <= C the write cursor moves len places around the ring in both the fit and the wrap case |
| `TxRing.StoreBytesRing` | src/hal_dma_printf.cc:67-79 | for len <= C, byte m of the data lands m places after the write cursor around the ring, and every offset at least len places after it keeps its byte |
| `TxRing.OversizedWriteKeepsWindow` | src/hal_dma_printf.cc:70-80 | when the part past the end is at least C, the whole array becomes ptr[C-write .. 2C-write) and the write cursor becomes 0 |
| `TxRing.OversizedWriteDropsNewest` | src/hal_dma_printf.cc:73-77 | with C = 8, write = 6 and twenty letters the array keeps "CDEFGHIJ", not the last eight letters |
| `TxRing.LiveCountIsRingDistance` | src/hal_dma_printf.cc:14-25 | the number of queued bytes between the cursors is (write - read) mod C |
| `TxRing.Live` | src/hal_dma_printf.cc:14-25 | the queued bytes number (write - read) mod C and are the array read around the ring from the read cursor |
| `TxRing.EnqueueLaysDataAfterLive` | src/hal_dma_printf.cc:67-80 | when queue plus data fit in C, the queued bytes are kept, the data follows them in ring order, and the write cursor ends just past the data |
| `TxRing.EnqueueAppendsToLive` | src/hal_dma_printf.cc:67-80 | no loss, no reordering: below capacity the queue after `_write` is the old queue followed by the data |
| `TxRing.ExactFillLooksEmpty` | src/hal_dma_printf.cc:67-80 | a write that brings the queue to exactly C stores every byte in ring order but lands the write cursor on the read cursor, so the queue reads as empty |
| `TxRing.StoreBytesSparesInFlight` | src/hal_dma_printf.cc:67-80 | when the transfer in flight ends at the read cursor and in-flight bytes, queue and data together fit in C, `_write` leaves the in-flight span's bytes unchanged |
| `TxRing.Kick` | src/hal_dma_printf.cc:14-25 | the kicked run starts at the read cursor, lies inside the array, is no longer than the queue, and the read cursor moves past it modulo C |
| `TxRing.KickSendsLivePrefix` | src/hal_dma_printf.cc:14-25 | the bytes a kick hands over, followed by the bytes still queued after it, are the bytes queued before it |
| `TxRing.DrainRuns` | src/hal_dma_printf.cc:14-29 | every transfer the completion chain starts lies inside the array |
| `TxRing.DrainSendsLive` | src/hal_dma_printf.cc:14-29 | from any cursors the completion chain makes at most two kicks, exactly two when the queue wraps with bytes at the head; their lengths sum to (write - read) mod C and their spans, concatenated, are the queued bytes in ring order |
| `HalDmaPrintf.MemCopy` | src/hal_dma_printf.cc:68 | copies the bytes into the array in place, as `Copy` describes |
| `HalDmaPrintf.DmaPrintf.constructor` | src/hal_dma_printf.cc:9-12 | zero-initialised globals: an all-NUL array of the build-time size, both cursors 0, no binding, nothing transmitted |
| `HalDmaPrintf.DmaPrintf.StartDmaTransmit` | src/hal_dma_printf.cc:14-25 | records the transfer (read, C-read) and sets read to 0 when write < read, otherwise records (read, write-read) and sets read to write; the recorded run is now in flight and ends at the new read cursor; the write cursor and the array do not change; sent plus queued bytes are preserved |
| `HalDmaPrintf.DmaPrintf.OnDmaTransmitComplete` | src/hal_dma_printf.cc:27-29 | the finished transfer is no longer in flight; with read == write the cursors, binding and array do not change and no transfer is recorded; otherwise exactly one kick |
| `HalDmaPrintf.DmaPrintf.SetUartHandler` | src/hal_dma_printf.cc:39-50 | a null handle or one without TX DMA leaves binding and cursors untouched; any other handle is bound and both cursors become 0 |
| `HalDmaPrintf.DmaPrintf.StoreAndAdvance` | src/hal_dma_printf.cc:67-80 | the copy phase of `_write`: the array becomes `StoreBytes` of the old array and the write cursor `NextWrite`; read cursor and records unchanged |
| `HalDmaPrintf.DmaPrintf.Write` | src/hal_dma_printf.cc:63-84 | returns len; unbound it changes nothing; bound it stores the data and updates the write cursor, then kicks exactly once from the updated cursors when the engine is ready and never otherwise; below capacity sent plus queued bytes grow by exactly the data; without a kick the in-flight span keeps its bytes while in-flight bytes, queue and data together fit in C |

## Left out

- Receive path, echo, line input and `GetBufferSize`: src/hal_dma_printf.cc contains no code for them, so there is nothing to model.
- `HAL_UART_Transmit_DMA` (src/hal_dma_printf.cc:17, 21) is hardware I/O. It appears only as the ghost `transfers` record and the bytes its span covers at the moment of the kick. Its return status is ignored, as the code ignores it.
- The engine reading the span after the kick is modelled only through the ghost `inFlight` and `InFlightIntact()`. `sent` records each span's bytes at the moment of the kick. Any `_write` whose data reaches into the span still in flight changes those bytes before the engine may have read them. That includes a write below capacity, which the no-loss clause of `Write` covers. For such a write the model only withholds the promise of `InFlightIntact()`.
- The blocking `HAL_UART_Transmit` of the diagnostic strings (src/hal_dma_printf.cc:35, 44) is left out together with the message text.
- The `USE_HAL_UART_REGISTER_CALLBACKS == 0` branch (src/hal_dma_printf.cc:32-37) is a preprocessor configuration check.
- The registration of `TxCpltCallback` and `AbortTransmitCpltCallback` (src/hal_dma_printf.cc:52-53) is function-pointer wiring. The binding in `huart` stands for "completion may now be delivered".
- Interrupt timing is not modelled: every call is an atomic step. A completion interrupt firing partway through `_write` is out of scope. So is the unsynchronised read of `huart_->gState` (src/hal_dma_printf.cc:82), which comes in as the parameter `engineReady`.
- The `file` argument of `_write` is unused. A negative `len` is out of scope: the data is a sequence, so its length is a `nat`.
- `size_t` and `int` widths are not modelled. `len` (line 63) and `overflow_len` before the cap (line 73) can be as large as `INT_MAX`. `len` is a non-negative `int`, and on the wrap path it exceeds `remaining_space`, so the `size_t` subtraction at line 73 cannot wrap. After the cap (lines 74-75) `overflow_len` is at most C. In the fit branch `write_itr_ + len` is at most C. So unbounded integers give the same results.
- `HalDmaPrintfSetUartHandler` (src/hal_dma_printf.cc:59-61) and the header include/hal_dma_printf/hal_dma_printf.h only forward to `SetUartHandler`.
- The `huart` parameter of `OnDmaTransmitComplete` is unused by the code and is omitted.
