# Verification of the no-OS connectivity cores

A Dafny model of the parts of the no-OS driver framework where state, resumption or arithmetic is
subtle, with proofs of what they promise. All statements are for every input, every run or every
schedule.

Each module follows one source file. Code that updates fields or buffers in place is a class or a
method over arrays, with the loops of the source; it is proved against a function on values, and the
properties are lemmas about that function.

- `CircularBuffers` (`util/no_os_circular_buffer.c`): a ring with an index and a wrapping spin count for
  each side. The reference is an unbounded byte stream. Every disciplined interleaving of prepare, store
  and end steps delivers the stream in order; the reported size is characterised exactly, including the
  overruns that it misses; an overrun is recovered by delivering the last bytes.
- `Scheduler` (`iio/iio.c`, `iio/iiod.c`): that ring as the round-robin queue of connections. The queue
  holds every used slot exactly once and a connection is stepped within a bounded number of pops.
- `IiodSpec`, `IiodTransport`, `IiodConn` (`iio/iiod.c`): the connection state machine of the iiod server.
  `Finish` says what the current command will have done when it is over, on an ideal transport; every
  state of the implementation is proved to keep that, for any split of sends and receives, any refusal
  with `-EAGAIN` and any device that is not ready. `Serve` is a whole run with any parser: the bytes on
  the wire, but for the newlines that the transport refused, the calls and the bytes that the application
  gets, and whether the payload buffer is overrun, are a function of the input and the answers of the application alone.
- `IiodCommands` (`iio/iiod.c`): what each command of the protocol makes of the input and the answers of the
  application, spelled out: the calls and their data, the reply, what is left.
- `LinkedLists`, `ListAdapters` (`util/no_os_list.c`): the doubly linked list on the heap, its iterators,
  and the queue, stack and priority adapters.
- `DmaEngine` (`drivers/api/no_os_dma.c`): scatter-gather transfers on that list, interrupt by interrupt.
- `CrcTheory`, `Crc8`, `Crc16`, `Crc24` (`util/no_os_crc*.c`): table-driven CRCs as polynomial division,
  with an error-detection theorem, proved once for all widths.
- `Jesd204Spec`, `Jesd204` (`jesd204/jesd204-fsm.c`): the callbacks when a topology starts and stops: how
  often each is made, and in which order.
- `LongDivision` (`util/no_os_util.c`): the bit-by-bit division of a product.
- `ScanLayout` (`iio/iio.c`): the size of a scan as an optimisation problem.
- `IioValue`, `IioDecimals` (`iio/iio.c`): printing and parsing of fixed-point values, with any number of
  decimals.
- `IioXml`, `IioXmlReading` (`iio/iio.c`): the two passes that size and write the context description, and
  what a client reads back from it.
- `Basics`, `Errno`, `Decimal`, `Arithmetic`, `Sequences`: shared definitions.

Where the code and its comments differ, the model follows the code:

- `no_os_iterator_get` on the last element leaves the iterator without an element, although its comment
  promises the previous one (`util/no_os_list.c:788-819`).
- `no_os_iterator_move_to_idx` with a negative index counts from the last element as 0, so -1 is the
  last but one (`util/no_os_list.c:723-743`).
- A READBUF that was refused by the device, or whose line failed to parse after the command word, still
  enters the data phase after its error reply (`iio/iiod.c:806-822`).
- While more clients wait than slots are free, `iio_step` accepts as many as there are slots and returns
  `-EBUSY` before stepping any connection (`iio/iio.c:1502-1507`); `Scheduler.StepsNobodyIff` is the exact
  condition for stepping none.
- A blocking read of more than is stored copies its last window over and over until that reaches the
  requested size, and beyond it when the missing bytes are not whole windows
  (`util/no_os_circular_buffer.c:258-282`).
- The error number of a device that cannot be described is added to the size of the description
  (`iio/iio.c:1757-1768`), which is then smaller than the text.
- `no_os_cb_size` sees one revolution where there are more, so some overruns go unreported
  (`util/no_os_circular_buffer.c:136-139`); the exact condition is `CircularBuffers.Faithful`.
- A newline behind a reply is sent once: when the transport refuses it, `rw_iiod_buff` returns an error but
  the buffer counts as sent, and the client never gets that newline (`iio/iiod.c:492-499`).
- `iio/iiod.h:83` asks for a payload buffer that fits the largest attribute, but nothing bounds the length
  that a client announces. At the size of the buffer the source writes past its end
  (`iio/iiod.c:670-671`, `iio/iiod.c:770-773`, `iio/iiod.c:859-867`); the model ends there with the outcome
  `Overflow`.
- A configure call of the DMA core that fails takes transfers off the front of the list, where others may be
  waiting (`drivers/api/no_os_dma.c:303-308`).
- Rounding a fraction with too many decimals never carries into the integer part: it goes on to a tenth, so
  that "0.9999999" in millionths is read as 0.1 (`iio/iio.c:597-598`).
- `iio_format_value` prints the fraction as unsigned, so a negative one is never read back
  (`iio/iio.c:683-692`).
- The branch of `_iio_fract_interpret` that drops a digit is never taken for the powers of ten that it is
  called with (`iio/iio.c:607-608`).

## Model

| member | source | states |
|---|---|---|
| `CircularBuffers.PositionIsDivMod` | `util/no_os_circular_buffer.c:230-234` | index and spins of a stream position are its remainder and quotient by the size |
| `CircularBuffers.SizeFaithfulIff` | `util/no_os_circular_buffer.c:122-147` | the reported size and overrun are the true ones if and only if `Faithful` holds of the two positions, also when the spin counts have wrapped |
| `CircularBuffers.NotLappedIsFaithful` | `util/no_os_circular_buffer.c:122-147` | a writer at most the buffer size ahead is always measured exactly |
| `CircularBuffers.ReportIsSafe` | `util/no_os_circular_buffer.c:122-147` | a reported overrun is one, with a full size; the reported size is never more than there is |
| `CircularBuffers.TwoSpinsAheadIsMissed` | `util/no_os_circular_buffer.c:136-139` | two whole revolutions ahead reads as a full buffer without overrun |
| `CircularBuffers.StepDeliversNext` | `util/no_os_circular_buffer.c:153-239` | one step of a disciplined run delivers exactly the next bytes of the stream and keeps the writer from lapping the reader |
| `CircularBuffers.RunDeliversPrefix` | `util/no_os_circular_buffer.c:153-239` | over every disciplined interleaving of prepare, store and end steps of a writer and a reader, the delivered bytes are a prefix of the committed ones and no overrun is reported |
| `CircularBuffers.Execute` | `util/no_os_circular_buffer.c:304-358` | the real ring, driven by any disciplined list of steps, returns the codes and bytes of the unbounded stream |
| `CircularBuffers.CircularBuffer.constructor` | `util/no_os_circular_buffer.c:71-92` | an empty stream |
| `CircularBuffers.CircularBuffer.Size` | `util/no_os_circular_buffer.c:122-147` | the size as a function of the two stream positions |
| `CircularBuffers.CircularBuffer.PrepareAsyncWrite` | `util/no_os_circular_buffer.c:153-204` | refines opening a write window on the stream; refuses a second one; the window is as long as was asked for, or reaches the end of the ring |
| `CircularBuffers.CircularBuffer.PrepareAsyncRead` | `util/no_os_circular_buffer.c:153-204` | refines opening a read window, after catching up with an overrun; its code in each case; the window is as long as was asked for and is stored, or reaches the end of the ring |
| `CircularBuffers.CircularBuffer.SizeAndCatchUp` | `util/no_os_circular_buffer.c:172-193` | after an overrun the reader stands one revolution behind the writer |
| `CircularBuffers.CircularBuffer.StoreByte` | `util/no_os_circular_buffer.c:304-311` | a byte put into the open write window changes that window only |
| `CircularBuffers.CircularBuffer.EndAsyncWrite` | `util/no_os_circular_buffer.c:211-239` | commits the window: it becomes the end of the stream |
| `CircularBuffers.CircularBuffer.EndAsyncRead` | `util/no_os_circular_buffer.c:211-239` | consumes the read window |
| `CircularBuffers.CircularBuffer.WindowIsStream` | `util/no_os_circular_buffer.c:195-201` | as long as the reader is not lapped, its window shows the stream |
| `CircularBuffers.CircularBuffer.WindowsDisjoint` | `util/no_os_circular_buffer.c:195-201` | the two prepared windows never share a byte |
| `CircularBuffers.CircularBuffer.CursorsAreTotals` | `util/no_os_circular_buffer.c:230-234` | index and spin count equal total modulo size and total over size modulo 2^32 |
| `CircularBuffers.CircularBuffer.Write` | `util/no_os_circular_buffer.c:245-288` | appends all the data to the stream, over any number of wraps |
| `CircularBuffers.CircularBuffer.Read` | `util/no_os_circular_buffer.c:245-288` | where the size is measured right, delivers the next stored bytes in order, with the code that says whether it overran or ran dry; behind them the last window is repeated, up to the requested size rounded up to whole windows |
| `CircularBuffers.ReadsTooMuchIff` | `util/no_os_circular_buffer.c:258-282` | more bytes are copied than were asked for if and only if more are asked for than are stored, and the missing ones are not whole windows |
| `CircularBuffers.CircularBuffer.ReadAfterOverrun` | `util/no_os_circular_buffer.c:175-193` | from any state with the writer one spin ahead and more than the buffer size: the next read returns the overrun code and exactly the first of the last `size` bytes, and leaves a consistent buffer without overrun |
| `CircularBuffers.OverrunRecovery` | `util/no_os_circular_buffer.c:175-193` | the same on a new ring, in terms of the bytes written |
| `Scheduler.DecodeEncode` | `iio/iio.c:216-230` | a connection id survives the way through the byte buffer |
| `Scheduler.RunKeepsQueue` | `iio/iio.c:1446-1529` | over every run the queue holds distinct slot ids below the maximum |
| `Scheduler.QueueIsShort` | `iio/iio.c:1930-1931` | the queue never exceeds the maximum of connections, so the ring of one word more never overruns |
| `Scheduler.PoppedInTurn` | `iio/iio.c:1494-1529` | the connection at place p is stepped by the pop after p further ones, whatever clients come and go |
| `Scheduler.StepsNobodyIff` | `iio/iio.c:1494-1529` | nobody is stepped if and only if more clients wait than slots are free, or accepting failed, or there is no connection |
| `Scheduler.TooManyClients` | `iio/iio.c:1502-1507` | in the first case the free slots are filled behind the queue all the same, and the code is `-EBUSY` |
| `Scheduler.FullPoolStepsNobody` | `iio/iio.c:1502-1507` | with all slots in use and a client waiting the queue stays as it is |
| `Scheduler.StepRequeues` | `iio/iio.c:1509-1528` | the stepped connection goes to the end of the queue if and only if its step did not return `-ENOTCONN`; all others queued keep their order, in front of those accepted |
| `Scheduler.AcceptGrants` | `iio/iio.c:1446-1485` | the waiting clients get the lowest free slots |
| `Scheduler.AcceptAscends` | `iio/iio.c:1446-1485` | and places in the queue in that order |
| `Scheduler.InUseUntilClosed` | `iio/iio.c:1494-1529` | over every run a slot stays in use until the first step of it that returns `-ENOTCONN`, which frees it |
| `Scheduler.IioDesc.ConnAdd` | `iio/iiod.c:393-421` | takes the first free slot, or fails when there is none |
| `Scheduler.IioDesc.ConnRemove` | `iio/iiod.c:423-437` | frees a used slot; refuses an unused one and an id above the slots |
| `Scheduler.IioDesc.PushConn` | `iio/iio.c:227-230` | appends an id to the queue |
| `Scheduler.IioDesc.PopConn` | `iio/iio.c:216-225` | takes the first id of the queue, or `-EAGAIN` |
| `Scheduler.IioDesc.AcceptNetworkClients` | `iio/iio.c:1446-1485` | every waiting client gets a slot and a place in the queue until one cannot |
| `Scheduler.IioDesc.IioStep` | `iio/iio.c:1494-1529` | refines one step of the queue; on the `used` flags: the clients get the lowest free slots, and the slot stepped is freed if and only if its step returned `-ENOTCONN` |
| `Scheduler.RunScheduler` | `iio/iio.c:1494-1529` | who is stepped at each step of a whole run of the real queue, and the slots in use before and after it, at the end exactly those queued |
| `IiodSpec.SplitLineIsOneShot` | `iio/iiod.c:702-736` | lines depend only on the bytes: skip leading line ends, split at the first newline, reject 127 bytes without one |
| `IiodSpec.ReadBufMovesExactly` | `iio/iiod.c:534-573` | READBUF sends exactly what read_buffer produced, in order, never more than was asked for; when it is done, exactly that much if and only if no successful read came back empty before |
| `IiodSpec.DryReadEndsEarly` | `iio/iiod.c:557-572` | an empty successful read, wherever it comes, ends the data phase short |
| `IiodSpec.GenerousNeverDry` | `iio/iiod.c:557-572` | devices that always return something never cause that |
| `IiodSpec.WriteBufMovesExactly` | `iio/iiod.c:575-606` | WRITEBUF hands the device exactly the requested bytes in arrival order and leaves the rest of the input |
| `IiodSpec.ChunkMovesExactly` | `iio/iiod.c:596-605` | the same from the middle, with a chunk received |
| `IiodSpec.LineLater` | `iio/iiod.c:744-903` | a command takes at least a byte of input and only appends to the output |
| `IiodSpec.SessionGoesOn` | `iio/iiod.c:905-927` | completing a command does not change what the session comes to |
| `IiodSpec.SessionLater` | `iio/iiod.c:905-927` | the output so far is a prefix of what the session comes to |
| `IiodSpec.CommandOverflowsIff` | `iio/iiod.c:754-787` | a command overruns the payload buffer if and only if it is a WRITE of at least the size of that buffer, and enough of the attribute comes |
| `IiodSpec.SessionOverflowsIff` | `iio/iiod.c:744-927` | a session overruns the payload buffer if and only if it gets to such a WRITE |
| `IiodSpec.WriteOverflows` | `iio/iiod.c:670-671` | for every parser, a line it takes for a WRITE of the size of the buffer, with the attribute behind it, is such a session |
| `IiodCommands.WriteHandsOver` | `iio/iiod.c:668-678` | WRITE: one call, with exactly the announced bytes behind the line; the client gets its code; the rest of the input is left |
| `IiodCommands.WriteWaits` | `iio/iiod.c:859-867` | no call before all of them are there |
| `IiodCommands.ReadAnswers` | `iio/iiod.c:653-669` | READ and GETTRIG: the length of the data and the data, a line each, or the error alone |
| `IiodCommands.PrintAnswers` | `iio/iiod.c:643-648` | PRINT: the length of the description and the description |
| `IiodCommands.FixedAnswers` | `iio/iiod.c:621-652` | VERSION, HELP and EXIT |
| `IiodCommands.DeviceOpAnswers` | `iio/iiod.c:621-637` | OPEN, CLOSE, TIMEOUT, SETTRIG and SET: one call and its code; OPEN sets the mask |
| `IiodCommands.BadLines` | `iio/iiod.c:754-769` | lines that are no command, too long, or not complete |
| `IiodCommands.ReadBufAnswers` | `iio/iiod.c:679-690` | READBUF: count, mask and the data produced, or the error and the data; one refill |
| `IiodCommands.ReadBufEnds` | `iio/iiod.c:534-573` | its data phase ends with the last answer used up: done, failed with that code, or waiting |
| `IiodCommands.BadReadBufLine` | `iio/iiod.c:760-767` | a READBUF that does not parse: an error, and the data phase |
| `IiodCommands.MaskOfLastOpen` | `iio/iiod.c:627-690` | the mask that a READBUF announces is that of the last OPEN, whatever other commands came between |
| `IiodCommands.MaskReadsBack` | `iio/iiod.c:687-687` | its eight digits read back as the mask |
| `IiodCommands.WriteBufPushes` | `iio/iiod.c:834-850` | after the last chunk one push, with the answer behind those of the chunks; a zero for the client if and only if it succeeds |
| `IiodCommands.WriteBufAnswers` | `iio/iiod.c:691-695` | WRITEBUF: the count, the data to the device, one push and its reply |
| `IiodCommands.WriteBufDelivers` | `iio/iiod.c:575-606` | however it ends, the device got a prefix of the input, in order |
| `IiodCommands.WriteBufEnds` | `iio/iiod.c:594-598` | it fails with the code of the last answer used up |
| `IiodCommands.BadWriteBufLine` | `iio/iiod.c:760-767` | a WRITEBUF that does not parse: an error, and the data phase |
| `IiodCommands.WriteInSession` | `iio/iiod.c:744-927` | the calls and the bytes of a whole session contain those of every WRITE it gets to |
| `IiodTransport.Peer.SendNewline` | `iio/iiod.c:492-499` | a newline goes out, or is lost if and only if it is refused; later sends do not make up for it |
| `IiodTransport.DroppedIsShorter` | `iio/iiod.c:469-502` | a text with newlines left out is shorter by their number, and whole if and only if there are none |
| `IiodConn.Connection.constructor` | `iio/iiod.c:381-421` | a clean connection, for any parser |
| `IiodConn.Connection.SendBuff` | `iio/iiod.c:469-502` | sent and owed bytes together stay the same; a newline is lost, and nothing else, exactly when the text gets through whole and the newline is refused |
| `IiodConn.Connection.RecvBuff` | `iio/iiod.c:469-502` | received bytes go from the input into the buffer, in order and none lost |
| `IiodConn.Connection.ReadLine` | `iio/iiod.c:702-736` | splitting the line resumes over any refusals; no write leaves the parser buffer |
| `IiodConn.Connection.StepReadingLine` | `iio/iiod.c:754-778` | keeps the outcome of the command |
| `IiodConn.Connection.StepReadingWriteData` | `iio/iiod.c:859-867` | keeps the outcome while an attribute that fits is received |
| `IiodConn.Connection.StepOversized` | `iio/iiod.c:859-867` | keeps the outcome while one that does not fit is received, until the first byte past the buffer |
| `IiodConn.Connection.StepRunningCmd` | `iio/iiod.c:779-787` | keeps the outcome; EXIT ends the connection |
| `IiodConn.Connection.RunCommand` | `iio/iiod.c:608-700` | leaves the reply and the world that the command specification gives |
| `IiodConn.Connection.CallOp` | `iio/iiod.c:439-462` | the commands that are one operation of the application, and HELP |
| `IiodConn.Connection.StepWritingResult` | `iio/iiod.c:788-827` | writes result and newline, then a non-empty payload and newline, each exactly once for any split, but for refused newlines |
| `IiodConn.Connection.DoReadBuff` | `iio/iiod.c:534-573` | keeps the outcome of READBUF over partial sends and unready devices |
| `IiodConn.Connection.DoWriteBuff` | `iio/iiod.c:575-606` | keeps the outcome of WRITEBUF over partial receives and unready devices |
| `IiodConn.Connection.StepRwBuf` | `iio/iiod.c:828-858` | keeps the outcome of the data phase, with the push and its reply |
| `IiodConn.Connection.RunState` | `iio/iiod.c:744-903` | every state keeps the outcome, and makes progress or has run dry |
| `IiodConn.Connection.CleanState` | `iio/iiod.c:381-391` | a fresh connection, its mask kept |
| `IiodConn.Connection.ConnStep` | `iio/iiod.c:905-927` | the outcome is kept when it must wait and reached when it is done |
| `IiodConn.Connection.Step` | `iio/iiod.c:905-927` | no step changes what the session comes to |
| `IiodConn.Connection.SentIsPrefix` | `iio/iiod.c:744-927` | at every moment the bytes sent, with the lost newlines put back, are a prefix of what the session comes to |
| `IiodConn.Serve` | `iio/iiod.c:744-927` | for every parser and schedule whose transport does not fail, a run to the end makes exactly the calls of the session and delivers exactly its data to the device, sends the same bytes but for the refused newlines, all of them if and only if none was refused, and overruns the payload buffer if and only if the session does |
| `IiodConn.LostNewline` | `iio/iiod.c:492-499` | a schedule that loses a newline |
| `LinkedLists.UpdateLinks` | `util/no_os_list.c:117-129` | links an element between two others, either of which may be missing |
| `LinkedLists.List.constructor` | `util/no_os_list.c:197-225` | an empty list |
| `LinkedLists.List.UpdateDesc` | `util/no_os_list.c:137-150` | sets the ends that are given |
| `LinkedLists.List.AddFirst` | `util/no_os_list.c:281-306` | inserts at the front; links mutually inverse, count exact |
| `LinkedLists.List.AddLast` | `util/no_os_list.c:309-333` | inserts at the back |
| `LinkedLists.List.AddIdx` | `util/no_os_list.c:336-356` | inserts at an index, or fails and changes nothing |
| `LinkedLists.List.AddFind` | `util/no_os_list.c:359-384` | inserts before the first element that compares greater |
| `LinkedLists.List.GetFirst` | `util/no_os_list.c:531-558` | removes and returns the first element |
| `LinkedLists.List.GetLast` | `util/no_os_list.c:561-588` | removes and returns the last element |
| `LinkedLists.List.GetIdx` | `util/no_os_list.c:591-606` | removes at an index, or fails and changes nothing |
| `LinkedLists.List.GetFind` | `util/no_os_list.c:612-627` | removes the first match, or fails |
| `LinkedLists.List.EditFirst` | `util/no_os_list.c:387-398` | replaces the first value only |
| `LinkedLists.List.EditLast` | `util/no_os_list.c:401-412` | replaces the last value only |
| `LinkedLists.List.EditIdx` | `util/no_os_list.c:415-429` | replaces one value by index |
| `LinkedLists.List.EditFind` | `util/no_os_list.c:432-446` | replaces the first match |
| `LinkedLists.List.ReadFirst` | `util/no_os_list.c:449-464` | returns the first value |
| `LinkedLists.List.ReadLast` | `util/no_os_list.c:467-482` | returns the last value |
| `LinkedLists.List.ReadIdx` | `util/no_os_list.c:485-506` | returns a value by index |
| `LinkedLists.List.ReadFind` | `util/no_os_list.c:509-528` | returns the first match |
| `LinkedLists.Iterator.Init` | `util/no_os_list.c:639-657` | a counted iterator on the first or the last element, on none of an empty list |
| `LinkedLists.Iterator.Remove` | `util/no_os_list.c:666-677` | one iterator less |
| `LinkedLists.List.Remove` | `util/no_os_list.c:237-257` | fails and changes nothing while iterators are left; else no element remains |
| `LinkedLists.Iterator.Move` | `util/no_os_list.c:691-712` | moves by a signed number of places, or fails and stays |
| `LinkedLists.Iterator.MoveToIdx` | `util/no_os_list.c:723-743` | moves to an index from either end, or fails and stays |
| `LinkedLists.Iterator.Find` | `util/no_os_list.c:753-771` | moves to the first match, or fails and stays |
| `LinkedLists.Iterator.Edit` | `util/no_os_list.c:776-786` | replaces the value at the iterator |
| `LinkedLists.Iterator.Read` | `util/no_os_list.c:824-834` | returns the value at the iterator |
| `LinkedLists.Iterator.Get` | `util/no_os_list.c:794-819` | removes the element in the middle; the iterator stands on the next one, on none after the last |
| `LinkedLists.Iterator.Insert` | `util/no_os_list.c:843-871` | inserts before or after the iterator, which keeps its element |
| `ListAdapters.QueueIsFifo` | `util/no_os_list.c:157-185` | what was popped and what is left are the pushes in order |
| `ListAdapters.StackFrame` | `util/no_os_list.c:157-185` | operations that stay above a stack do not see it |
| `ListAdapters.StackIsLifo` | `util/no_os_list.c:157-185` | after balanced operations a pop returns the push before them |
| `ListAdapters.PushKeepsSorted` | `util/no_os_list.c:359-384` | a priority push keeps the list sorted |
| `ListAdapters.PushIsStable` | `util/no_os_list.c:359-384` | a new element goes behind its equals |
| `ListAdapters.PriorityIsStable` | `util/no_os_list.c:157-185` | over every run the list is sorted and equal elements leave in insertion order |
| `ListAdapters.PopReturnsLeast` | `util/no_os_list.c:531-558` | a priority pop returns a least element |
| `ListAdapters.ListDesc.Push` | `util/no_os_list.c:157-185` | the push of each adapter on the linked list |
| `ListAdapters.ListDesc.Pop` | `util/no_os_list.c:157-185` | the pop of each adapter on the linked list |
| `ListAdapters.Execute` | `util/no_os_list.c:157-185` | any run of an adapter on the linked list gives the results of the run on sequences |
| `DmaEngine.InterruptAdds` | `drivers/api/no_os_dma.c:47-82` | one interrupt reports one transfer with the following one and configures the next |
| `DmaEngine.InterruptsOrderly` | `drivers/api/no_os_dma.c:47-82` | after any number of interrupts: each configured transfer was started once, the interrupt enabled directly before, nothing reported between; the interrupt is disabled at the end and not before |
| `DmaEngine.ScatterGather` | `drivers/api/no_os_dma.c:47-82` | after k interrupts the first k+1 transfers were configured once each in order, k completions reported, and the channel is free exactly at the last |
| `DmaEngine.FailedConfigureRestoresIff` | `drivers/api/no_os_dma.c:296-310` | a failed configure restores the list if and only if the waiting transfers are the end of a repetition of the new ones |
| `DmaEngine.SameTransferTwice` | `drivers/api/no_os_dma.c:296-310` | so also with transfers waiting: the same one handed over twice |
| `DmaEngine.DmaChannel.Configure` | `drivers/api/no_os_dma.c:242-310` | appends the transfers and arms the first, or takes as many off the front as were added, which restores the list exactly under that condition |
| `DmaEngine.DmaChannel.Start` | `drivers/api/no_os_dma.c:356-376` | enables the interrupt before the transfer starts |
| `DmaEngine.DmaChannel.Abort` | `drivers/api/no_os_dma.c:384-409` | empties the list and stops the channel |
| `DmaEngine.DmaChannel.SgCallback` | `drivers/api/no_os_dma.c:47-82` | refines one interrupt; one without a transfer aborts |
| `DmaEngine.Launch` | `drivers/api/no_os_dma.c:242-376` | configuring and starting an empty channel |
| `DmaEngine.RunTransfers` | `drivers/api/no_os_dma.c:47-376` | n transfers and n interrupts: each configured and then started once, in order; each callback once with its successor; interrupt disabled and channel free exactly at the nth |
| `CrcTheory.DivisionIdentity` | `util/no_os_crc16.c:84-97` | the reference division is one: dividend = quotient times generator plus remainder |
| `CrcTheory.DivisionIsUnique` | `util/no_os_crc16.c:84-97` | and the only one: no other quotient or remainder of that width does |
| `CrcTheory.FeedIsRemainder` | `util/no_os_crc16.c:84-97` | the shift register computes the remainder, the initial value added to the leading coefficients |
| `CrcTheory.FeedConcat` | `util/no_os_crc16.c:84-97` | feeding a concatenation is feeding its parts |
| `CrcTheory.ZeroFeedLinear` | `util/no_os_crc16.c:53-70` | a table entry is linear over exclusive or |
| `CrcTheory.TableStep` | `util/no_os_crc16.c:84-97` | a table lookup and a shift feed a whole block of bits |
| `CrcTheory.BurstDetected` | `util/no_os_crc16.c:84-97` | with the low bit of the polynomial set, a difference within the width always changes the register |
| `CrcTheory.EvenGeneratorMerges` | `util/no_os_crc16.c:84-97` | without it there is a difference within the width that never does |
| `CrcTheory.DetectsBurstsIff` | `util/no_os_crc16.c:84-97` | so all such differences are detected if and only if the low bit is set |
| `CrcTheory.ByteBurstDetected` | `util/no_os_crc24.c:85-98` | the same for messages of bytes |
| `Crc8.CrcIsDivision` | `util/no_os_crc8.c:51-94` | the CRC is the remainder of the polynomial division, for every polynomial, message and initial value |
| `Crc8.OnlyRemainder` | `util/no_os_crc8.c:51-94` | it is the only byte with the bits of that remainder |
| `Crc8.CrcCascades` | `util/no_os_crc8.c:70-94` | a CRC over a concatenation is the cascaded calls |
| `Crc8.BurstIsDetected` | `util/no_os_crc8.c:82-94` | messages that differ in one byte never have the same CRC |
| `Crc8.PopulateMsb` | `util/no_os_crc8.c:51-68` | fills the table with the 8-step entries |
| `Crc8.Compute` | `util/no_os_crc8.c:82-94` | the loop over the table computes the remainder |
| `Crc16.CrcIsDivision` | `util/no_os_crc16.c:53-97` | the CRC is the remainder of the polynomial division |
| `Crc16.OnlyRemainder` | `util/no_os_crc16.c:53-97` | it is the only word with the bits of that remainder |
| `Crc16.CrcCascades` | `util/no_os_crc16.c:72-97` | a CRC over a concatenation is the cascaded calls |
| `Crc16.BurstIsDetected` | `util/no_os_crc16.c:84-97` | messages that differ within two consecutive bytes never have the same CRC |
| `Crc16.PopulateMsb` | `util/no_os_crc16.c:53-70` | fills the table with the 8-step entries |
| `Crc16.Compute` | `util/no_os_crc16.c:84-97` | the loop over the table computes the remainder |
| `Crc24.CrcIsDivision` | `util/no_os_crc24.c:53-98` | the CRC is the remainder, with 24-bit masking inside a 32-bit word |
| `Crc24.OnlyRemainder` | `util/no_os_crc24.c:53-98` | it is the only word of 24 bits with the bits of that remainder |
| `Crc24.CrcCascades` | `util/no_os_crc24.c:73-98` | a CRC over a concatenation is the cascaded calls |
| `Crc24.BurstIsDetected` | `util/no_os_crc24.c:85-98` | messages that differ within three consecutive bytes never have the same CRC |
| `Crc24.PopulateMsb` | `util/no_os_crc24.c:53-71` | fills the table with the masked 8-step entries |
| `Crc24.Compute` | `util/no_os_crc24.c:85-98` | the loop over the table computes the remainder |
| `Jesd204Spec.QuietWalk` | `jesd204/jesd204-fsm.c:21-54` | apart from sysref requests the walk up is the walk that stopping reverses |
| `Jesd204Spec.CountWalk` | `jesd204/jesd204-fsm.c:21-54` | how often the walk makes each call of the topology |
| `Jesd204Spec.AsExpected` | `jesd204/jesd204-fsm.c:21-54` | the same by topology alone: a per-link call for every position at which a device lists the link, one call for each callback of the top device, a sysref request for each of those that ask |
| `Jesd204.DeviceUp` | `jesd204/jesd204-fsm.c:27-39` | one device at one link: its per-device call at its first link, then its per-link calls, each in its place |
| `Jesd204.LinkUp` | `jesd204/jesd204-fsm.c:25-47` | one link on the way up |
| `Jesd204.OpUp` | `jesd204/jesd204-fsm.c:21-53` | one operation on the way up |
| `Jesd204.Start` | `jesd204/jesd204-fsm.c:10-57` | each call exactly as often as the topology says; operations, links and devices ascend, the top device last in each; a sysref request directly behind exactly the calls that ask; each device callback before its per-link calls |
| `Jesd204.DeviceDown` | `jesd204/jesd204-fsm.c:81-95` | one device at one link on the way down |
| `Jesd204.LinkDown` | `jesd204/jesd204-fsm.c:77-97` | one link on the way down |
| `Jesd204.OpDown` | `jesd204/jesd204-fsm.c:70-98` | one operation on the way down |
| `Jesd204.Stop` | `jesd204/jesd204-fsm.c:60-101` | the same descending, without sysref requests |
| `Jesd204.StartAndStop` | `jesd204/jesd204-fsm.c:10-101` | the calls of stopping are those of starting, last first; each as often as the topology says, and in order, in both directions |
| `LongDivision.DividendExceeds` | `util/no_os_util.c:548-552` | how far the two words are from the product; equal exactly when no carry is lost |
| `LongDivision.QuotientIsRightIff` | `util/no_os_util.c:541-568` | the quotient of the two words is that of the product if and only if no carry is lost |
| `LongDivision.FitsIff` | `util/no_os_util.c:541-568` | the upper word is below the divisor if and only if the quotient fits in 64 bits |
| `LongDivision.LostCarryExample` | `util/no_os_util.c:551-552` | an operand outside that range |
| `LongDivision.Divide` | `util/no_os_util.c:554-567` | 64 turns of the loop are the division of the two words whenever the quotient fits; with the upper word equal to the divisor all bits are set but possibly the last |
| `LongDivision.MulDiv` | `util/no_os_util.c:541-568` | the same of the product |
| `LongDivision.MulDivIsRight` | `util/no_os_util.c:541-568` | where the upper word is below the divisor, the result is the product divided if and only if no carry is lost |
| `LongDivision.RightDespiteLostCarry` | `util/no_os_util.c:541-568` | where it is not, the result can be right although a carry is lost |
| `ScanLayout.BytesPerScan` | `iio/iio.c:1104-1131` | the least total over all layouts that keep order, do not overlap, align each channel to its size and round to the largest |
| `ScanLayout.ActiveSelects` | `iio/iio.c:1111-1126` | the channels laid out are exactly those whose bit is set, in order |
| `ScanLayout.PackedEndsFirst` | `iio/iio.c:1114-1122` | no layout ends earlier than the packed one |
| `ScanLayout.StaysAlignedIff` | `iio/iio.c:1104-1131` | consecutive scans stay aligned if and only if every size divides the size of a scan |
| `ScanLayout.PowersOfTwoStayAligned` | `iio/iio.c:1104-1131` | power-of-two sizes stay aligned |
| `ScanLayout.ThreeAndFourDrift` | `iio/iio.c:1104-1131` | sizes 3 and 4 do not |
| `IioValue.StrParse` | `iio/iio.c:552-584` | the two numbers and the scale of the leading zeros |
| `IioValue.FractInterpret` | `iio/iio.c:586-612` | the digits as leading decimals, after rounding to the subunits |
| `IioValue.Rescale` | `iio/iio.c:601-611` | a fraction below the subunits is scaled up to its decimals |
| `IioDecimals.ShortFraction` | `iio/iio.c:552-668` | with at most as many decimals as the format has, every number is read exactly, "-0." included |
| `IioDecimals.LongFraction` | `iio/iio.c:586-612` | with more, the superfluous ones are rounded away one by one; a carry out of the fraction leaves a tenth |
| `IioDecimals.OneTooMany` | `iio/iio.c:597-598` | with one too many the nearest value, if and only if it does not carry |
| `IioDecimals.RoundingError` | `iio/iio.c:597-598` | after any number of steps the error is below five ninths of a unit |
| `IioDecimals.Halves` | `iio/iio.c:552-668` | "1.5" and "-0.5 dB" |
| `IioDecimals.SevenNines` | `iio/iio.c:597-598` | "0.9999999" is read as 0.1 |
| `IioDecimals.PrintedTexts` | `iio/iio.c:670-692` | three printed texts |
| `IioDecimals.Bases` | `iio/iio.c:561-561` | a hexadecimal and an octal integer part |
| `IioValue.ParseValue` | `iio/iio.c:614-668` | refines the parsing function wherever the source computes something without overflow |
| `IioValue.DefinedIff` | `iio/iio.c:576-578` | that is: the scale fits, the rounding loop ends, and neither negating nor rounding overflows |
| `IioValue.RoundTripIff` | `iio/iio.c:552-692` | for every pair of int32, with a long of 32 or 64 bits: exactly when parsing what was printed stays in range, and that then the pair comes back if and only if its fraction is not negative and fits its decimals |
| `IioValue.PositiveRoundTrip` | `iio/iio.c:552-692` | the half for fractions that are not negative: parsing overflows if and only if the fraction is above INT32_MAX - 5 |
| `IioValue.RoundingEndsIff` | `iio/iio.c:597-598` | the rounding loop ends if and only if there are subunits left |
| `IioValue.FateByZeros` | `iio/iio.c:576-598` | no more zeros than decimals: the rounding loop ends; more, but at most nine, which only millionths leave room for: it does not; ten or more: the scale overflows its int32_t |
| `IioValue.TooManyZeros` | `iio/iio.c:576-598` | no text with more zeros than decimals before its fraction is one the source computes something of, and which of the two fates it has |
| `IioValue.EightDecimals` | `iio/iio.c:597-598` | the shortest such millionths: an endless loop |
| `IioValue.ElevenDecimals` | `iio/iio.c:576-578` | the shortest such billionths: an overflow of the scale |
| `IioValue.WrappedScales` | `iio/iio.c:576-578` | what an int32_t that wraps around would make of more zeros: 14 leave three billionths, so that the loop ends; 32 and more leave a scale of zero |
| `IioValue.NegativeRoundTrip` | `iio/iio.c:683-692` | a negative fraction, printed as unsigned, makes the rounding overflow if the long has 32 bits or the fraction is below 5 - INT32_MAX; else it is read, but never as the pair that was printed |
| `IioValue.WholeNumbersReturn` | `iio/iio.c:621-623` | a printed integer is read back |
| `IioXml.Emit` | `iio/iio.c:1562-1570` | one snprintf of a generator: written in full when there is room for it and a zero, nothing before the window touched |
| `IioXml.AddContextAttributes` | `iio/iio.c:1538-1573` | counts, and writes, the context attributes |
| `IioXml.AddChannel` | `iio/iio.c:1607-1716` | counts, and writes, a channel with its attributes; fails exactly for a differential attribute without an index |
| `IioXml.GenerateDevice` | `iio/iio.c:1580-1745` | the length of the device text and the text itself, or `-EINVAL` as an unsigned number |
| `IioXml.CountXml` | `iio/iio.c:1754-1768` | for every context, what the counting pass adds up to in 32 bits |
| `IioXml.CountIsExactIff` | `iio/iio.c:1754-1768` | it is the length of the description if and only if every device can be described |
| `IioXml.LoneFailure` | `iio/iio.c:1747-1775` | a single device that cannot be described leaves less room than the header takes |
| `IioXml.WriteXml` | `iio/iio.c:1776-1790` | the writing pass writes every piece in full up to the end tag |
| `IioXml.InitXml` | `iio/iio.c:1747-1795` | the buffer is header, context attributes, devices, triggers and end tag, of the counted length and zero-terminated |
| `IioXmlReading.ContextReads` | `iio/iio.c:1538-1795` | from the description a client reads the context attributes, and the values of every device and trigger, and no others |
| `IioXmlReading.DeviceReads` | `iio/iio.c:1580-1745` | of a device: id, name, channels, attributes, debug attributes and buffer attributes, in order |
| `IioXmlReading.ChannelReads` | `iio/iio.c:1607-1716` | of a channel: id, name, direction, scan index and format, and each attribute with its file name |
| `IioXmlReading.IdTells` | `iio/iio.c:256-274` | the id of an indexed channel tells its number, of a differential one both |
| `IioXmlReading.FileNameEnds` | `iio/iio.c:1642-1712` | a file name starts with the direction and ends with the name of the attribute |
| `IioXmlReading.FileNameTells` | `iio/iio.c:1695-1710` | that of an own attribute tells the number of the channel |
| `IioXmlReading.FileNameTellsBoth` | `iio/iio.c:1659-1672` | that of a differential one both numbers |
| `IioXmlReading.DeviceTags` | `iio/iio.c:1718-1742` | the tags of the three kinds of attributes |
| `IioXmlReading.ChannelTags` | `iio/iio.c:1607-1716` | the tags of a channel and its attribute |

## Left out

- CircularBuffers.CircularBuffer.Read: says nothing about states whose size is misreported.
- Prepare and end of a circular buffer are atomic steps; the order of spin count and index within an end (`util/no_os_circular_buffer.c:230-234`), seen from an interrupt, is not modelled.
- Scheduler.IioDesc.ConnRemove: leaves out the data it hands back, and the id 10, which the source reads behind its array.
- Scheduler.IioDesc.AcceptNetworkClients: leaves out the allocation failure and the clean-up of sockets.
- Scheduler.IioDesc.IioStep: `iio_process_async_triggers`, the lwIP step and the release of sockets and buffers are not part of this model; what the connection step returned is a parameter.
- The UART and local builds of the scheduler, which queue a single connection.
- IiodConn.Serve: says nothing about what a transport that failed for good leaves, nor about what the source does once it has written past the payload buffer, where the run ends.
- IiodConn.Connection.constructor: needs a payload buffer of at most INT32_MAX bytes, because the source keeps the lengths of its buffers in 32 bits with a sign.
- IiodConn.Connection.StepOversized: ends with the first write past the payload buffer.
- IiodConn.Connection.RunCommand: leaves out the flag of a cyclic buffer that OPEN and CLOSE set.
- IiodConn.Connection.StepWritingResult: leaves out the state that follows when that flag is set.
- IiodConn.Connection.RunState: leaves out the cyclic-buffer state (`iio/iiod.c:868-898`), which does not return until a close arrives. How often it pushes until then depends on how often the transport has nothing, so the answers and calls of a session are no function of its input any more.
- IiodConn.Connection.DoReadBuff: leaves out the delayed read path of the network build (`iio/iiod.c:504-532`), which calls the device again with size 0 after a partial send.
- IiodSpec.WriteBufMovesExactly: takes a successful write_buffer as having taken the whole chunk, as the source does by ignoring how much it took.
- The text of iiod commands (`iio/iiod.c:97-278`): the parser is a parameter, and may be any function.
- A buffer index left behind when a length is set to 0 (`iio/iiod.c:601-602`, `iio/iiod.c:675`) is set to 0 at once; the source does so before its next use.
- LinkedLists.List.AddIdx: leaves out the index -2^31, whose magnitude overflows in C, where the source would compute it.
- LinkedLists.List.GetIdx: the same.
- LinkedLists.List.EditIdx: the same.
- LinkedLists.List.ReadIdx: the same.
- Allocation failure and null arguments in `util/no_os_list.c`, and the 32-bit limits of the element and iterator counters.
- DmaEngine.DmaChannel.Configure: compares transfers as values; the source queues pointers to them.
- `no_os_dma_init`, channel acquisition and locks, and the platform functions behind the DMA interface, whose results are parameters.
- Jesd204.Start: needs at most 16 devices, because `per_device_op_done` has that many entries; the source never compares the number with it (`jesd204/jesd204-core.c:96`).
- Jesd204.Stop: the same.
- Jesd204.StartAndStop: the same.
- `link_idx` of the JESD204 entry points and the results of its callbacks, which the source ignores.
- LongDivision.MulDivIsRight: does not say for which operands a result is right when the upper word reaches the divisor; `MulDiv` states the result where it equals the divisor, and nothing where it is above.
- `no_os_mul_u64_u32_shr`, `no_os_mul_u32_u32` and the field helpers of `util/no_os_util.c`: single expressions.
- ScanLayout.BytesPerScan: needs every enabled channel to have at least 8 storage bits; with fewer the source divides by zero. The sum stays far below 2^32 for 32 channels of at most 255 bits.
- IioValue.ParseValue: excludes the texts that are not `Defined`, for which the source does not end or overflows: more zeros before the fraction than decimals (`FateByZeros` says what becomes of those), a fraction of -2^31, and one above INT32_MAX - 5 that has to be rounded.
- IioXmlReading.ContextReads: needs names without quotation marks, which the source does not escape.
- `IIO_VAL_FRACTIONAL`, `IIO_VAL_FRACTIONAL_LOG2`, `IIO_VAL_CHAR` and lists of values, and the truncation of output to a short buffer.
- IioXml.WriteXml: excludes devices that cannot be described, differential channels with separate attributes but no index, for which the count is too small (`CountIsExactIff`).
- IioXml.InitXml: the same, and descriptions of more than INT32_MAX characters, which the int32_t lengths of the source cannot count. The 50-byte scratch buffer for channel ids is not modelled.
- Platform wrappers, the TCP client, chip drivers and displays: no property beyond their bodies.
