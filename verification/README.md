# Verified models of the RTL871x firmware, its host tools and its web assets

Each module models one component in the form its source has: C and JavaScript code that updates fields in place is a
class or a method with loops, proved against a specification on values; the theorems are then about that
specification, over every input, every run or every reachable state.

| files | component | what is proved |
|---|---|---|
| `TcpTypes`, `TcpRegistry` | connection registry of the TCP server layer | list, counter and back-pointers agree; the accept limit; closing a server ends and tells and frees each connection once |
| `TcpLifecycle` | lwIP callbacks, closing with retry | over every run: closing is for good, no data callback after it, one orderly end |
| `TcpReceive` | receive buffer and manual TCP window | over every run: the byte stream is conserved, exactly when it is intact, window credit adds up |
| `TcpRuns` | the callbacks composed | each leaves what the next requires, so the objects go through the runs above, under any inputs |
| `SampleRing`, `SampleDrivers` | sample rings of the ADC, INA219 and MLX90614 drivers | over every interleaving: the ring is the newest samples, the header index shows the losses; the packet error code |
| `EfuseLog` | eFuse record log | the reader is last-writer-wins replay; which records of any log are read back |
| `CanvasProxy` | dygraph's path compressor | the lossless phase draws the same; exactly when it keeps the path, the fill and the closing; what a lossy column keeps; invariant of every run |
| `NextTick` | dygraph's task queue shim | over every run, with throwing tasks: FIFO, at most once, never stuck |
| `RollingAverage`, `StackPoints` | dygraph's averages and stacking | sliding sums are window sums; a cached look-ahead is a full scan; stacks are row sums |
| `TimeSeries` | live chart's series | sorted map with bounds; trimming keeps the drawn curve |
| `FirmwareImage` | image writer and RAM loader | written and loaded, every section's bytes land at its address; exactly when layouts agree, and when the first image survives the second |
| `TailQueue` | STAILQ macros | each macro is its sequence operation |

The environment is nondeterministic: lwIP may fire any callback registered at the moment; allocators, the
application, interrupts and buses answer anything; these answers are parameters. `old`, heap frames and `freed` flags
make in-place update and freeing visible: an operation that touches a connection requires it not to be freed.

## Model

| member | source | states |
|---|---|---|
| TcpTypes.WithoutAt | project/src/tcpsrv/tcp_srv_conn.c:683-705 | taking one node out of a duplicate-free list leaves all others in order |
| TcpRegistry.ListDelete | project/src/tcpsrv/tcp_srv_conn.c:671-707 | the application is told once, before the freeing, unless the connection was closed already; list and freed flag in every state, also when the last server is already gone and the first pass only closes |
| TcpRegistry.Release | project/src/tcpsrv/tcp_srv_conn.c:683-706 | the search finds the node, and unlinking keeps list, counter and back-pointers sound |
| TcpRegistry.Unlink | project/src/tcpsrv/tcp_srv_conn.c:686-699 | splicing at the head or behind a predecessor removes exactly index k and frees the buffers |
| TcpRegistry.FindTcpPcb | project/src/tcpsrv/tcp_srv_conn.c:244-265 | answers the connection's own or a listed control block with its two ports and its peer address, and null exactly when there is none |
| TcpRegistry.DeletePcb | project/src/tcpsrv/tcp_srv_conn.c:709-723 | lets go exactly the control block that still is the connection's, its window open, touches no other, then deletes |
| TcpRegistry.Port2Pcfg | project/src/tcpsrv/tcp_srv_conn.c:839-844 | the first server on the port, null exactly when none listens on it |
| TcpRegistry.CheckMaxTimeWait | project/src/tcpsrv/tcp_srv_conn.c:216-237 | exactly the oldest control blocks beyond ten go |
| TcpRegistry.DropUntilEmpty | project/src/tcpsrv/tcp_srv_conn.c:948-950 | the loop ends whatever the states and servers left, and frees the list from the head, each connection once |
| TcpRegistry.DropAll | project/src/tcpsrv/tcp_srv_conn.c:948-950 | the server is emptied, and every connection gets its disconnect callback once if it was due, and is freed once |
| TcpRegistry.Accept | project/src/tcpsrv/tcp_srv_conn.c:767-832 | an unknown port is refused; then too little heap, a full server that does not reopen, and a failed allocation, each by its error; otherwise the application answers; the head of the list goes exactly from a full server; the count stays within the limit exactly unless that is zero and the server reopens |
| TcpRegistry.AcceptOn | project/src/tcpsrv/tcp_srv_conn.c:773-832 | the same for a server that has been found: errors in their order, the exact new list, every callback registered, the TIME_WAIT list cut exactly when asked for |
| TcpRegistry.Close | project/src/tcpsrv/tcp_srv_conn.c:936-963 | the three results; a found server leaves the chain and drops every connection once; otherwise nothing changes |
| TcpRegistry.ClosePort | project/src/tcpsrv/tcp_srv_conn.c:967-971 | port zero and unknown ports are argument errors; otherwise the first server on the port closes |
| TcpRegistry.OwnConns | project/src/tcpsrv/tcp_srv_conn.c:800-818 | servers never share a connection |
| TcpLifecycle.DisconnectSuccessful | project/src/tcpsrv/tcp_srv_conn.c:522-525 | acts as the release step |
| TcpLifecycle.BeginClose | project/src/tcpsrv/tcp_srv_conn.c:544-577 | unregisters every callback, reopens the window, frees both buffers, clears the retry counter |
| TcpLifecycle.ServerClose | project/src/tcpsrv/tcp_srv_conn.c:532-620 | the connection is released exactly if lwIP is done with the block or tcp_close succeeds, and otherwise waits, armed for the poll; the first attempt clears flags, buffers and window; a waiting connection keeps its control block and its place in the list |
| TcpLifecycle.CloseDecides | project/src/tcpsrv/tcp_srv_conn.c:578-618 | from any state the step releases iff lwIP is done, the close succeeds, or a connection that was closing before is past three retries |
| TcpLifecycle.ServerSent | project/src/tcpsrv/tcp_srv_conn.c:331-343 | acts as the sent step, which sets CONNECT whatever the state, clears the counter and calls the application unless it sends to null |
| TcpLifecycle.Poll | project/src/tcpsrv/tcp_srv_conn.c:630-664 | acts as the poll step: count, time out by state, close or retry; otherwise flags, buffer, control block and list stay |
| TcpLifecycle.Error | project/src/tcpsrv/tcp_srv_conn.c:732-758 | releases the connection unless it waits to close, when it stays as it was |
| TcpLifecycle.Disconnect | project/src/tcpsrv/tcp_srv_conn.c:272-276 | closes through the control block found, which is the connection's own while its ports and peer are, and which it holds while it waits; the list; no other block is touched; with none found only the block is forgotten |
| TcpLifecycle.StepKeeps | project/src/tcpsrv/tcp_srv_conn.c:331-758 | every enabled move of lwIP or the application keeps the life invariant |
| TcpLifecycle.RunKeeps | project/src/tcpsrv/tcp_srv_conn.c:331-758 | every reachable state satisfies it |
| TcpLifecycle.ClosingIsForGood | project/src/tcpsrv/tcp_srv_conn.c:331-343 | no run leads from CLOSEWAIT or CLOSED back to LISTEN or CONNECT |
| TcpLifecycle.RunStopsCallbacks | project/src/tcpsrv/tcp_srv_conn.c:544-577 | in every run, no receive or sent callback comes after closing has started |
| TcpLifecycle.RunEndsOnce | project/src/tcpsrv/tcp_srv_conn.c:671-707 | in every run, freeing is the last event, exactly once iff released, preceded by exactly one disconnect callback iff the application has one |
| TcpLifecycle.SentRestsOnHooks | project/src/tcpsrv/tcp_srv_conn.c:331-343 | the sent step would reopen a waiting connection; no reachable waiting state has the hook |
| TcpLifecycle.NeverAbandoned | project/src/tcpsrv/tcp_srv_conn.c:586-597 | the retry counter stays 0 while a close waits, so the forced abandon is unreachable |
| TcpLifecycle.WaitingIsPolled | project/src/tcpsrv/tcp_srv_conn.c:598-607 | in every run a connection that waits has its control block and the poll that retries |
| TcpLifecycle.ReleasedLeaves | project/src/tcpsrv/tcp_srv_conn.c:544-620 | what stays registered when a connection is released: after a close the argument, and the poll iff an earlier attempt had failed |
| TcpLifecycle.MoveDecides | project/src/tcpsrv/tcp_srv_conn.c:331-758 | in every run, what each move makes of a connection with a control block: in use, called, counted, released or waiting, and which idle limit applies in LISTEN and in CONNECT |
| TcpLifecycle.InstalledIsBorn | project/src/tcpsrv/tcp_srv_conn.c:800-826 | what accept installs is where runs start |
| TcpReceive.DeliveryConserves | project/src/tcpsrv/tcp_srv_conn.c:350-437 | consumed, then unread, then lost is what was there and what came, in order; lost is empty iff no needed reallocation failed and the sum fits 16 bits |
| TcpReceive.FailedMallocKeepsResidue | project/src/tcpsrv/tcp_srv_conn.c:397-405 | a delivery turned down for lack of memory is invisible: any run goes on as if it had never been tried |
| TcpReceive.Compact | project/src/tcpsrv/tcp_srv_conn.c:360-381 | moving down within the buffer keeps the unread bytes, leaves room and a NUL |
| TcpReceive.Replace | project/src/tcpsrv/tcp_srv_conn.c:390-408 | the new buffer holds the unread bytes, room and a NUL; failure changes nothing |
| TcpReceive.Grow | project/src/tcpsrv/tcp_srv_conn.c:350-408 | success leaves the bytes to keep and room for the new; which allocation decides, and that only a failed shrinking leaves the buffer busy |
| TcpReceive.Trim | project/src/tcpsrv/tcp_srv_conn.c:409-436 | giving back the processed part keeps exactly the unread bytes, NUL-terminated |
| TcpReceive.UnrecvedWin | project/src/tcpsrv/tcp_srv_conn.c:501-515 | what is owed is credited, or forgotten without credit when the connection has no control block |
| TcpReceive.RecvData | project/src/tcpsrv/tcp_srv_conn.c:472-489 | the concrete buffer refines the specified delivery, and the window moves as specified, in both modes |
| TcpReceive.TakenIs | project/src/tcpsrv/tcp_srv_conn.c:350-408 | a delivery is taken iff the processed part is just enough or the shrinking works, or, where it is too small, a new buffer is found; what a taken and a refused one leave |
| TcpReceive.ServerRecv | project/src/tcpsrv/tcp_srv_conn.c:447-491 | the callback in all its cases: peer closed, data for nobody, which is credited at once with all that is owed, data delivered, with or without the connection's own control block; what it leaves of flags, list and block, so that the next callback may follow |
| TcpReceive.RunConservesStream | project/src/tcpsrv/tcp_srv_conn.c:350-489 | for every sequence of deliveries and choices, no byte is unaccounted for, and with none lost consumed plus unread is all that was delivered, in order |
| TcpReceive.StreamIntactIff | project/src/tcpsrv/tcp_srv_conn.c:350-437 | a run loses nothing iff every delivery in it met the stated condition |
| TcpReceive.FailedReallocLoses | project/src/tcpsrv/tcp_srv_conn.c:420-431 | a failed shrinking reallocation loses unread bytes |
| TcpReceive.FullSumLoses | project/src/tcpsrv/tcp_srv_conn.c:473-477 | a 16-bit size that wraps to zero loses the whole buffer |
| TcpReceive.WindowConserves | project/src/tcpsrv/tcp_srv_conn.c:459-482 | one delivery credits, owes or forgets its bytes, short of 65536 exactly when the counter comes round |
| TcpReceive.WindowModulo | project/src/tcpsrv/tcp_srv_conn.c:459-515 | in every run exactly 65536 bytes go missing each time the counter comes round, and no others |
| TcpReceive.CreditedWhen | project/src/tcpsrv/tcp_srv_conn.c:459-482 | after any run, data for nobody leaves nothing owed, and everything credited if no byte has gone missing; unbuffered data is credited at once, buffered data by a restore only |
| TcpReceive.WindowExactIff | project/src/tcpsrv/tcp_srv_conn.c:459-515 | in every run, across all modes and restores, delivered equals credited plus owed plus forgotten iff no counted delivery met a counter it takes to 65536 |
| TcpReceive.WindowCanWrap | project/src/tcpsrv/tcp_srv_conn.c:459-482 | an input at which it is not: two deliveries of 65536 bytes together are never credited |
| TcpReceive.WindowExact | project/src/tcpsrv/tcp_srv_conn.c:459-515 | under lwIP's own window rule no byte goes missing in any run |
| TcpRuns.Fire | project/src/tcpsrv/tcp_srv_conn.c:331-758 | any registered callback or call acts as an enabled step of a run and leaves the connection ready for the next one, or released |
| TcpRuns.Drive | project/src/tcpsrv/tcp_srv_conn.c:331-758 | an accepted connection under any list of inputs goes through a run of the steps, with a move exactly for each input whose callback is registered; so its trace has no data callback after closing has started and one orderly end |
| TcpRuns.AcceptedIsReady | project/src/tcpsrv/tcp_srv_conn.c:800-826 | what accept leaves behind meets the requirements of every callback |
| TcpRuns.Stream | project/src/tcpsrv/tcp_srv_conn.c:447-515 | the concrete buffer and window of a connection that buffers are, after any deliveries and any processing, what the runs of flow and window leave |
| TcpRuns.WindowAnswersForFlow | project/src/tcpsrv/tcp_srv_conn.c:447-515 | in those runs, what is consumed, unread or lost is credited, owed or forgotten, short of 65536 each time the counter came round |
| SampleRing.CountStaysAvailable | project/src/ina219/ina219drv.c:154-162 | an answered count stays available after any later pushes, and pushing one by one is keeping the newest |
| SampleRing.RunQueueIsNewest | project/src/ina219/ina219drv.c:116-192 | in every interleaving the queue is the newest min(n, capacity) unread samples; a block is consecutive samples; its index word is consumed plus lost before it, modulo 65536 |
| SampleRing.IndexShowsLosses | project/src/adc_ws/adc_ws.c:104-170 | successive index words differ by the first block's length plus exactly the losses in between |
| SampleRing.LivePush | project/src/ina219/ina219drv.c:116-129 | storing and advancing both indices appends and, when full, drops the oldest |
| SampleRing.LiveReadFlat | project/src/ina219/ina219drv.c:172-192 | the one-piece copy takes the oldest samples in order |
| SampleRing.LiveReadWrapped | project/src/ina219/ina219drv.c:172-192 | the two-piece copy across the wrap takes the oldest samples in order |
| SampleRing.SumFitsIff | project/src/ina219/ina219drv.c:177-189 | the copy stays in the buffer in all states and for all counts iff the buffer index is at most 0x7FFF |
| SampleRing.Ring.Push | project/src/ina219/ina219drv.c:116-129 | the array ring takes the push step of the runs, and counts the loss |
| SampleRing.Ring.ChkData | project/src/ina219/ina219drv.c:154-162 | the answer is the minimum of the request and what is available |
| SampleRing.Ring.GetData | project/src/ina219/ina219drv.c:164-192 | the array ring takes the read step of the runs, exactly if the copy stays in the buffer |
| SampleDrivers.AdcHandler | project/src/adc_ws/adc_ws.c:89-114 | one sample per interrupt, in the source's word order |
| SampleDrivers.AdcHandlerAudio | project/src/adc_ws/adc_ws.c:116-150 | both samples are pushed, every loss is counted, a wrap of the counter is noted iff it happened |
| SampleDrivers.Ina219.Tick | project/src/ina219/ina219drv.c:81-152 | the state machine; a sample exactly on a good reading, an error count exactly on an abort |
| SampleDrivers.BytewiseIsBitwise | project/src/MLX90614/MLX90614.c:115-120 | shifting a folded byte is feeding its bits to the divider |
| SampleDrivers.SeedsAreHeaderCodes | project/src/MLX90614/MLX90614.c:155-170 | the constants 0x28 and 0x3D are the codes of the two transaction headers |
| SampleDrivers.DriverChecksPec | project/src/MLX90614/MLX90614.c:155-170 | the nested crc8 calls compute the packet error code of the whole transaction (section 5.4 of SMBus 2.0) |
| SampleDrivers.OneByteErrorDetected | project/src/MLX90614/MLX90614.c:115-120 | no change of one byte keeps the code |
| SampleDrivers.Crc8 | project/src/MLX90614/MLX90614.c:115-120 | the loop is eight shifts of the check register |
| SampleDrivers.Mlx90614.Tick | project/src/MLX90614/MLX90614.c:126-216 | a word enters the queue exactly when both codes are right; a rejected frame leaves the queue as it was |
| EfuseLog.ReplayIsLastWriter | USDK/example_sources/efuse_mtp/main.c:107-160 | replay is last-writer-wins, byte by byte |
| EfuseLog.Copy | USDK/example_sources/efuse_mtp/main.c:136-147 | the copying loop writes the enabled words in frame and ends behind the payload |
| EfuseLog.ReadRecord | USDK/example_sources/efuse_mtp/main.c:110-156 | skipping and copying end at the same next record, whatever the user; each of the 32 bytes is what the record gives, or stays |
| EfuseLog.ReadContent | USDK/example_sources/efuse_mtp/main.c:107-160 | for any contents: each of the 32 bytes is what the last record for it gives, section 44 and the three after it being those of user 0, and so on by fours |
| EfuseLog.RecordByBytes | USDK/example_sources/efuse_mtp/main.c:110-156 | from two header bytes alone: whose byte a record gives, from which address, and where the next record starts |
| EfuseLog.WhereRecordsStart | USDK/example_sources/efuse_mtp/main.c:107-160 | records start one behind the other, at 0x7E at the latest, up to a byte 0xFF |
| EfuseLog.ReaderIsLastWriter | USDK/example_sources/efuse_mtp/main.c:107-160 | for any contents: each of the 32 bytes is the last record's whose section number and word cover it |
| EfuseLog.LogReadsBack | USDK/example_sources/efuse_mtp/main.c:107-160 | every well-formed log held in memory is read back as exactly its records that start by 0x7E |
| EfuseLog.InTimeIff | USDK/example_sources/efuse_mtp/main.c:107-113 | that is the whole log iff its last record starts by 0x7E |
| EfuseLog.ReaderReplaysLog | USDK/example_sources/efuse_mtp/main.c:107-160 | the reader on any log is last-writer-wins over its records that start in time |
| EfuseLog.ShortLogHolds | USDK/example_sources/efuse_mtp/main.c:82-113 | a log that ends by 0x7F, with a blank byte behind it, is read back whole |
| CanvasProxy.LosslessDrawsTheSame | ExampleHTM/dygraph/dygraph.js:1538-1560 | for every action list and starting pen: same marks, same final pen, an ordered part, no adjacent moveTos |
| CanvasProxy.PathKeptIff | ExampleHTM/dygraph/dygraph.js:1538-1560 | the lossless phase keeps the whole path, for all that may follow and from every pen, iff no dropped moveTo joins subpaths that differ in their start |
| CanvasProxy.FillKeptIff | ExampleHTM/dygraph/dygraph.js:1538-1560 | a fill right after it closes with the same edges iff at most the last subpath is joined and the pen is back at its start |
| CanvasProxy.CloseKeptIff | ExampleHTM/dygraph/dygraph.js:1538-1560 | a closePath right after it closes to the same point iff the last moveTo is kept or repeats the start that is kept |
| CanvasProxy.NoRetraceKeepsPath | ExampleHTM/dygraph/dygraph.js:1541-1550 | calls that never move to where a line has just ended keep the path |
| CanvasProxy.FilledSeriesNeverRetraces | ExampleHTM/dygraph/dygraph.js:1714-1850 | the calls of the fill plotter for a plain series with ascending x are such calls |
| CanvasProxy.ClosingSeesDroppedMove | ExampleHTM/dygraph/dygraph.js:1541-1550 | an input whose fill and whose closePath differ after the lossless phase |
| CanvasProxy.LosslessKeepsLines | ExampleHTM/dygraph/dygraph.js:1541-1560 | the lossless phase drops no lineTo |
| CanvasProxy.ColumnKeepsExtremes | ExampleHTM/dygraph/dygraph.js:1562-1596 | a lossily flushed column keeps at most three of the actions held, in order, and the exact least and greatest y of all their lineTos |
| CanvasProxy.ColumnIs | ExampleHTM/dygraph/dygraph.js:1562-1596 | what remains is the leading moveTo and the first lowest and first highest lineTo, and nothing else |
| CanvasProxy.FastCanvasProxy.DropRepeats | ExampleHTM/dygraph/dygraph.js:1541-1550 | the backward splice loop is the one-pass specification |
| CanvasProxy.FastCanvasProxy.KeepExtremes | ExampleHTM/dygraph/dygraph.js:1562-1596 | both indices are defined when used, and are the first least and first greatest |
| CanvasProxy.FastCanvasProxy.EndColumn | ExampleHTM/dygraph/dygraph.js:1619-1624 | nothing is lost next to a gap of more than a pixel before or behind the column |
| CanvasProxy.FastCanvasProxy.FlushActions | ExampleHTM/dygraph/dygraph.js:1599-1614 | what is emitted, its extent and length; and the run invariant: an ordered part of the calls, the same segments while nothing was lossy, closed or filled, and the same path, fills included, while nothing was lossy and no subpaths joined |
| CanvasProxy.FastCanvasProxy.AddAction | ExampleHTM/dygraph/dygraph.js:1616-1628 | a new column flushes the old one, thinned out exactly if more than two actions remain and there is no gap on either side; in any run, a call over an empty pixel column finds the canvas where the call before it has ended |
| CanvasProxy.ThinnedIsNotSparse | ExampleHTM/dygraph/dygraph.js:1562-1628 | a column is thinned out only if three calls in a row fall into it |
| CanvasProxy.FastCanvasProxy.Major | ExampleHTM/dygraph/dygraph.js:1638-1651 | painting calls flush without loss first; the run invariant across fills and closings |
| CanvasProxy.FastCanvasProxy.DrawAll | ExampleHTM/dygraph/dygraph.js:1616-1651 | any list of calls: if no three in a row share a column, the same is drawn, and the same path with fills if no call retraces a line |
| NextTick.StepOrder | ExampleHTM/dygraph/dygraph.js:43-107 | every timer and every return starts exactly the first waiting task |
| NextTick.RunIsFifoAndNeverStuck | ExampleHTM/dygraph/dygraph.js:43-107 | in every run tasks start at most once and in FIFO order, and a waiting task has a timer pending or a task on the stack |
| NextTick.WaitingShrinks | ExampleHTM/dygraph/dygraph.js:43-107 | without new tasks each return and timer takes exactly one, until none is left |
| NextTick.Process.Batches | ExampleHTM/dygraph/dygraph.js:67-84 | the nested loops, suspended while a task runs, are the batch step |
| NextTick.Process.CleanUpNextTick | ExampleHTM/dygraph/dygraph.js:48-61 | after a throw the rest of the batch goes first |
| NextTick.Process.NextTick | ExampleHTM/dygraph/dygraph.js:87-98 | a timer is set exactly for the first task of an idle queue |
| RollingAverage.Slides | ExampleHTM/dygraph/dygraph.js:200-237 | adding the new and dropping the old value moves the sum to the next window |
| RollingAverage.WindowIsNewest | ExampleHTM/dygraph/dygraph.js:951-979 | a window is the last rollPeriod values, or all there are |
| RollingAverage.RollCustomBars | ExampleHTM/dygraph/dygraph.js:200-237 | the running sums equal the direct sums of each window, nulls skipped: each mean times the count is the sum, and there is none exactly without values |
| RollingAverage.MiddleIsDefaultAverage | ExampleHTM/dygraph/dygraph.js:951-979 | the custom bars' middle value is the default handler's average |
| RollingAverage.RollDefault | ExampleHTM/dygraph/dygraph.js:951-979 | each value is the mean of its window |
| RollingAverage.RollFractions | ExampleHTM/dygraph/dygraph.js:870-892 | each value is that many hundredths of the window's denominators, for any period, and zero where these cancel |
| StackPoints.UpdateNextPoint | ExampleHTM/dygraph/dygraph.js:6983-6989 | the cached look-ahead answers what a full scan would |
| StackPoints.FilledBetween | ExampleHTM/dygraph/dygraph.js:6989-6992 | a missing value between two valid ones is on the line through the nearest |
| StackPoints.FilledBehind | ExampleHTM/dygraph/dygraph.js:6989-6992 | behind the last valid one it takes its value, or none if only the inside is filled |
| StackPoints.FilledBefore | ExampleHTM/dygraph/dygraph.js:6989-6992 | and so before the first |
| StackPoints.InterpolatedBetween | ExampleHTM/dygraph/dygraph.js:6989-6991 | an interpolated value lies between its neighbours |
| StackPoints.StackPoints | ExampleHTM/dygraph/dygraph.js:6982-7021 | every point is drawn on the stack at its x by its filled value, equal x values once, and the extremes span what is drawn |
| StackPoints.StackIsRowSum | ExampleHTM/dygraph/dygraph.js:7010-7021 | after any number of series each stacked value is the sum of the filled values so far |
| TimeSeries.DropKeepsCurve | WEBFiles/grf.js:81-91 | dropping samples followed by one at or before a time does not move the curve there |
| TimeSeries.Series.Append | WEBFiles/grf.js:56-80 | the series is a sorted map changed at one time only, where the value is summed if that is asked for and the time is there, and replaced otherwise; the new bounds |
| TimeSeries.Series.ResetBounds | WEBFiles/grf.js:38-55 | the bounds hold all values and are met |
| TimeSeries.Series.DropOldData | WEBFiles/grf.js:81-91 | only a prefix goes; the curve at and after the cutoff is unchanged; exactly when the loop reads past the end |
| FirmwareImage.PlacedIffAligned | USDK/rtlaimage.py:202-210 | arranged sections are emitted at their addresses iff all but the last have sizes that are multiples of four |
| FirmwareImage.SizeDelimitsIffAligned | USDK/rtlaimage.py:189-210 | the recorded size is the length of the payload iff the same holds |
| FirmwareImage.UnalignedShifts | USDK/rtlaimage.py:202-210 | an unaligned section shifts the next one |
| FirmwareImage.DataAtOffset | USDK/rtlaimage.py:202-210 | each section's padded data stands at its offset in the layout |
| FirmwareImage.ZeroOutside | USDK/rtlaimage.py:202-210 | what an image has between and behind its sections are zeros |
| FirmwareImage.Image.Load | USDK/rtlaimage.py:178-210 | header, layout and remaining list in every case, also empty images and sizes that do not pack |
| FirmwareImage.MineAndOthers | USDK/rtlaimage.py:178-180 | an image picks its sections by name, none lost and none twice |
| FirmwareImage.Image.SaveSram | USDK/rtlaimage.py:247-264 | the boot image is filled up to 0xB000, and fails exactly beyond it |
| FirmwareImage.MakeRamAll | USDK/rtlaimage.py:266-319 | from any section list: when the file is written, and what it is |
| FirmwareImage.FileStarts | USDK/rtlaimage.py:247-264 | the boot image, erased bytes up to 0xB000, then the second image; or that one at once |
| FirmwareImage.FileHeaders | USDK/rtlaimage.py:195-201 | in the file: the boot image's magic words, and every image's size and load address in its header |
| FirmwareImage.Target.RamAll | USDK/flasher/add_sample_bat/ameba_tools.py:21-35 | which block writes reach the target, and exactly when the file is too short |
| FirmwareImage.LoaderFindsImage1 | USDK/flasher/add_sample_bat/ameba_tools.py:27-30 | the stored size delimits the first payload |
| FirmwareImage.LoaderFindsGap | USDK/flasher/add_sample_bat/ameba_tools.py:33-33 | 0x2C in the boot header times 1024 is the writer's gap |
| FirmwareImage.LoaderFindsImage2 | USDK/flasher/add_sample_bat/ameba_tools.py:32-35 | the second payload is found at the gap, with the eight or sixteen bytes that follow it |
| FirmwareImage.SectionsLandAtTheirAddresses | USDK/flasher/add_sample_bat/ameba_tools.py:21-35 | written and loaded, every byte of every section is at its address, unless the second write covers it, and nothing else changes but the bytes behind the second image |
| FirmwareImage.FirstImageSurvivesThisIff | USDK/flasher/add_sample_bat/ameba_tools.py:27-35 | the first image survives a second one iff it has the same bytes where that one and the bytes behind it go |
| FirmwareImage.FirstImageSurvivesIff | USDK/flasher/add_sample_bat/ameba_tools.py:27-35 | it survives all second images of a size iff none of its sections' bytes lie in their range, and those behind it agree with the file |
| FirmwareImage.ShortFirstImageSurvives | USDK/flasher/add_sample_bat/ameba_tools.py:27-35 | a first image that ends by 0x10006000 always survives |
| FirmwareImage.LongFirstImageIsOverwritten | USDK/rtlaimage.py:251-259 | one that the gap lets pass but reaches further does lose bytes |
| TailQueue.Head.Init | project/inc/rtl8195a/queue.h:127-130 | the empty sequence |
| TailQueue.Head.Last | project/inc/rtl8195a/queue.h:150-154 | the last element, or null when empty |
| TailQueue.Head.InsertHead | project/inc/rtl8195a/queue.h:138-142 | prepends, and keeps the last link at the last element |
| TailQueue.Head.InsertTail | project/inc/rtl8195a/queue.h:144-148 | appends through the last link, also into an empty queue |
| TailQueue.Head.InsertAfter | project/inc/rtl8195a/queue.h:132-136 | inserts behind the given element, also the last |
| TailQueue.Head.InsertChainHead | project/inc/rtl8195a/queue.h:197-202 | prepends a whole chain |
| TailQueue.Head.RemoveHead | project/inc/rtl8195a/queue.h:172-176 | drops the first element, and resets the last link when it was the only one |
| TailQueue.Head.RemoveAfter | project/inc/rtl8195a/queue.h:178-182 | drops the element behind the given one |
| TailQueue.Head.Remove | project/inc/rtl8195a/queue.h:158-170 | the search finds the element and removes exactly it |
| TailQueue.Head.Concat | project/inc/rtl8195a/queue.h:104-110 | the first queue gets both sequences, the second is empty, with either empty before |
| TailQueue.Head.Swap | project/inc/rtl8195a/queue.h:184-195 | the sequences change places, with either empty |

## Where the code differs from its comments

- `project/inc/tcpsrv/tcp_srv_conn.h:59` and the comment at `project/src/tcpsrv/tcp_srv_conn.c:586` say that a close is
  forced after three retries. The counter is not advanced in CLOSEWAIT, so it never is (`TcpLifecycle.NeverAbandoned`).
- `project/inc/tcpsrv/tcp_srv_conn.h:87` says that a full server that reopens closes the oldest connection; the code
  deletes the head of the list, where accept inserts. The model deletes the head.
- In `rtlaimage.py` the result of `sorted` is discarded, so an image keeps its sections in the order of the list, and
  the address check at line 192 needs an address below one bound and above a higher one; no image can fail it.
- `save_sram` names a field an image does not have in the message for a boot image that is too big; the exception ends
  the program, which is what the model does.
- `ram_all` adds 0x10 to the size of the second image and so writes eight or sixteen bytes behind it. If the first image
  reaches 0x10006000, the second overwrites it there, although the file has room for longer ones.
- The lossless phase of the canvas proxy drops a moveTo to the pen's place. Behind a lineTo it then joins two subpaths,
  and a fill or closePath may draw elsewhere; the exact conditions are proved, and the fill plotter's calls meet them.

## Left out

- lwIP itself, sockets, printing, heap statistics and watchdog calls: a control block is its state, ports, hooks and credit.
- Setting up and starting servers (848-930), sending (286-325), and the loops over all servers, active and waiting control blocks (975-1015); closing one server is proved.
- TcpLifecycle.ServerSent: a null connection or control block (answered with ERR_ARG) is outside the model; lwIP passes what accept registered.
- TcpLifecycle.Poll: the abandon of a control block that lost its connection is outside the model.
- TcpReceive.ServerRecv: a null connection or control block (answered with ERR_ARG) is outside the model.
- TcpLifecycle.Error: a null connection, for which the callback does nothing, is outside the model.
- TcpLifecycle.Disconnect: a null connection, for which the call does nothing, is outside the model. The runs take the control block found to be the connection's own; that lwIP has given its memory to another connection, so that the search answers another block, is not part of them.
- The application's own data attached to a connection (`linkd`), which a delete frees with it.
- Callbacks of the application do not call back into the layer, do not close the connection and do not write the receive buffer.
- A released connection takes no further part: which callbacks lwIP still holds then is stated (`TcpLifecycle.ReleasedLeaves`), but not what it does with a control block that has them, nor are handlers modelled that report an error after their buffer was freed.
- Which connection a reopening server evicts is taken from the code (the list head) and not claimed to be a good choice.
- os_memcpy within one buffer is taken as an ascending copy.
- Registers, timers and bring-up of ADC, I2C and sensors; a second start of the INA219 driver, which keeps the old loss counter.
- SampleRing.Ring.ChkData: is one atomic step, although the source reads its two indices without locking.
- eFuse power switching and timeouts (a byte may read as anything), OTP contents; the efuse_otp and efuse_user readers are copies.
- SampleRing.Ring.GetData: promises nothing where the copy would leave the buffer, which only buffers of more than 32768 slots can bring about.
- The width of lines: where subpaths are joined a stroke has a joint instead of two ends. A fill is compared by the edges it lies within, not by its area, so that edges which cancel each other count as different.
- The stacked and stepped paths of the fill plotter.
- The canvas, the DOM, options, formatting and mouse code of dygraph, and its binary searches.
- Rounding and not-a-number: coordinates and values are exact reals, missing values are None.
- The averaging branch that `smoothie.js` has in append; the version of `grf.js` is modelled.
- Reading ELF files, saving single images, and the OTA file with its checksum; the writer starts from a list of sections. Failing file writes are not modelled.
- J-Link itself: the target is its memory, one byte per address.
