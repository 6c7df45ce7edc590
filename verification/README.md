# easy_lua_esp32 core, modelled in Dafny

This project models the core of the easy_lua_esp32 firmware: an ESP32
application that runs Lua scripts sent over serial or BLE. It models these
parts:

- **Event codec** (`event_codec.dfy`, `event_decoder.dfy`, `event_msg.dfy`).
  The framing protocol between the board and a client:
  - framing bytes: SOH, a byte-stuffed 7-byte header, STX, then the stuffed name, US, the stuffed data and EOT;
  - the decoding state machine for that framing;
  - the handler registry that routes decoded frames;
  - the send path with its fixed 4096-byte buffer.
- **Two Lua engines.**
  - The library engine (`lib_engine.dfy`) adds the hybrid allocator (`hybrid_alloc.dfy`), a state-reset callback and a code buffer.
  - The application engine (`legacy_engine.dfy`) adds a 16-slot module registry.
  - Both share the execute/stop flag machine in `scheduler.dfy`: `is_running`, `stop_requested`, the execute semaphore and the debug hook.
- **File transfer** (`file_transfer.dfy`). Upload sessions:
  - path sanitising;
  - the static and dynamic write buffer;
  - flush, append, create, close and delete.
- **Lua-facing modules.**
  - Lua `print` and `dofile` (`lua_print.dfy`), on the value-to-text conversion in `lua_values.dfy`.
  - The Lua event bridge with its 16-entry pending queue (`lua_eventmsg.dfy`).
  - The `rtos` library: timers, message receive and automatic GC (`rtos_lib.dfy`), over the 64-slot FreeRTOS timer table (`timer_table.dfy`).
  - The persistent key/value storage module (`storage.dfy`).
- **Console, BLE and logging.**
  - The serial line editor of the main loop (`serial_console.dfy`).
  - BLE notification chunking (`ble_send.dfy`).
  - The runtime log level (`debug_level.dfy`).

Some behaviour is outside the code: the Preferences store, the filesystem, heap allocation results, FreeRTOS timer creation, the Lua interpreter's outcome and the moment a running script finishes. Each of these is a parameter, or an oracle value passed to the operation.

C integer widths are modelled where they matter, for the 32-bit target:
- `size_t` and `int` casts (`RtosLib.SizeT`, `RtosLib.Int32`);
- the 16-bit message id counter;
- the `uint16_t` BLE length;
- the 15-character NVS key limit.

A Dafny `char` stands for one byte of a C or Lua string, so limits stated in
characters ("15 characters", "255 characters") are byte limits.

## Model

| member | source | states |
|---|---|---|
| Common.CPrefix | src/core/event_msg.cpp:142-150 | Copying a name byte by byte up to its NUL gives the longest NUL-free prefix; when shorter than the input it stops exactly at a NUL |
| Common.CStr | lib/EasyLuaESP32/src/core/lua_engine.cpp:376-379 | A `const char*` handed to a String is the prefix of the text before its first NUL, and contains no NUL |
| Common.CStrOfNulFree | lib/EasyLuaESP32/src/core/lua_engine.cpp:376-379 | Text without NUL survives the C-string conversion unchanged |
| EventCodec.StuffByte | src/core/event_msg.cpp:39-52 | A control byte (SOH, STX, US, EOT, ESC) becomes ESC followed by the byte XOR 0x20; any other byte is sent as is; the output never contains a delimiter |
| EventCodec.Stuff | src/core/event_msg.cpp:39-52 | Stuffing at most doubles the length and never produces a delimiter |
| EventCodec.UnstuffStuff | src/core/event_msg.cpp:367-386 | Undoing the escapes recovers exactly the bytes that were stuffed |
| EventCodec.StuffAppend | src/core/event_msg.cpp:142-167 | Stuffing byte by byte distributes over concatenation |
| EventCodec.HeaderFields | src/core/event_msg.cpp:56-107 | The 7 header bytes are sender, receiver, both group ids, flags and the message id split into MSB then LSB, which recombine to the id |
| EventCodec.CreateHeader | src/core/event_msg.cpp:56-107 | The stuffed header is 7 to 14 bytes, delimiter-free, and unstuffs to the 7 header fields |
| EventCodec.EncodeFrame | src/core/event_msg.cpp:109-179 | An encoded frame starts with SOH, ends with EOT, and its length is bounded by the stuffed header, name and data |
| EventCodec.Next | src/core/event_msg.cpp:132 | The message id counter advances by one and wraps at 65536 |
| EventCodec.Encode | src/core/event_msg.cpp:109-179 | Encoding emits the frame for the current id and advances the counter |
| EventCodec.FrameCarriesMessageId | src/core/event_msg.cpp:120-132 | The header of every frame carries ids 1,0,0,0, flags 0 and the message id the encoder held |
| EventDecoder.Step | src/core/event_msg.cpp:245-387 | A frame completes exactly on a raw EOT in the data section, delivering the name and data collected and resetting the decoder. A raw SOH aborts any frame. STX restarts name capture. EOT inside a name and US inside data are content. After ESC, any byte is unmasked into the active section |
| EventDecoder.FeedAll | src/core/event_msg.cpp:230-235 | Feeding a run of bytes yields at most one frame per byte |
| EventDecoder.FeedAllValid | src/core/event_msg.cpp:230-235 | The decoder's invariant holds after any input |
| EventDecoder.FeedAllAppend | src/core/event_msg.cpp:230-235 | Feeding two runs in turn is feeding their concatenation: same final state, frames in order |
| EventDecoder.SkipHeader | src/core/event_msg.cpp:266-286 | While waiting for STX, any delimiter-free bytes (the stuffed header) are skipped without effect |
| EventDecoder.FeedStuffedName | src/core/event_msg.cpp:287-318 | A stuffed name is collected byte for byte into the name |
| EventDecoder.FeedStuffedData | src/core/event_msg.cpp:319-366 | Stuffed data is collected byte for byte into the data |
| EventDecoder.FeedFrameStart | src/core/event_msg.cpp:253-286 | From any valid state, SOH, a stuffed header and STX put the decoder at the start of a name |
| EventDecoder.FeedFrameBody | src/core/event_msg.cpp:287-366 | A stuffed name, US, stuffed data and EOT deliver exactly that frame and reset the decoder |
| EventDecoder.FeedEncodedFrame | src/core/event_msg.cpp:109-179 | Decoding an encoded frame, from any valid decoder state, yields exactly one frame with the encoded name (up to its NUL) and the data |
| EventDecoder.RoundTrip | src/core/event_msg.cpp:109-179 | decode(encode(name, data)) is the single frame (name, data) when the name holds no NUL |
| EventDecoder.DelimiterFreeNoEot | src/core/event_msg.cpp:39-52 | Stuffed bytes never contain a raw EOT |
| EventDecoder.EotOnlyAtEnd | src/core/event_msg.cpp:109-179 | An encoded frame holds its only raw EOT in its last byte |
| EventDecoder.NoEotNoFrame | src/core/event_msg.cpp:324-345 | Input without a raw EOT never completes a frame |
| EventDecoder.NoEotShortPrefix | src/core/event_msg.cpp:324-345 | A strict prefix of a frame never completes a frame |
| EventDecoder.TruncatedThenComplete | src/core/event_msg.cpp:253-265 | A truncated frame followed by a complete one yields only the complete one: the next SOH resynchronises |
| EventDecoder.EscapedSohIsContent | src/core/event_msg.cpp:367-386 | An escaped SOH in the data is data, not a frame start |
| EventMsg.Init | src/core/event_msg.cpp:185-196 | Initialisation gives a fresh decoder, message id 0, no handlers and the given send callback |
| EventMsg.On | src/core/event_msg.cpp:198-203 | Registering binds the name to the handler and leaves every other name alone; a null handler is ignored |
| EventMsg.OnUnhandled | src/core/event_msg.cpp:205-208 | Only the fallback handler changes |
| EventMsg.Reset | src/core/event_msg.cpp:237-243 | Reset returns the decoder to idle and keeps the handlers and the message counter |
| EventMsg.Route | src/core/event_msg.cpp:324-345 | A frame goes to its registered handler when there is one, otherwise to the fallback with its name, otherwise nowhere |
| EventMsg.RouteAll | src/core/event_msg.cpp:324-345 | Each completed frame is routed in order |
| EventMsg.FeedByte | src/core/event_msg.cpp:245-387 | One byte advances only the decoder and dispatches the frame it completes |
| EventMsg.FeedBytes | src/core/event_msg.cpp:230-235 | Feeding bytes changes nothing but the decoder |
| EventMsg.RouteAllAppend | src/core/event_msg.cpp:230-235 | Routing distributes over concatenation of frame lists |
| EventMsg.FeedBytesIsDecoderRun | src/core/event_msg.cpp:230-235 | The dispatches of a byte run are the routes of exactly the frames the decoder produces |
| EventMsg.RouteAllSameRegistry | src/core/event_msg.cpp:324-345 | Routing depends only on the handler registry and the fallback |
| EventMsg.FrameDispatchedOnce | src/core/event_msg.cpp:230-387 | One encoded frame fed to the system dispatches exactly once and leaves it in its reset state |
| EventMsg.RegisteredHandlerReceives | src/core/event_msg.cpp:329-334 | The handler registered for a name receives the data of a frame with that name |
| EventMsg.SendUnchecked | src/core/event_msg.cpp:210-228 | The send path as written: no callback means nothing happens; otherwise the full encoded frame is handed over and the counter advances |
| EventMsg.StuffAllControl | src/core/event_msg.cpp:39-52 | Data made of control bytes stuffs to twice its length |
| EventMsg.SendBufferOverflow | src/core/event_msg.cpp:219-220 | 2100 EOT bytes encode to more than the 4096-byte static buffer the frame is written into |
| EventMsg.Send | src/core/event_msg.cpp:210-228 | The send path with the buffer bound respected: a frame is transmitted exactly when a callback is set and it fits in 4096 bytes; otherwise nothing changes |
| EventMsg.Loopback | src/core/event_msg.cpp:210-387 | A frame sent by one side is delivered to the receiver's registered handler with the same data |
| EventMsg.SendAdvancesCounter | src/core/event_msg.cpp:120-132 | A transmitted frame carries the current message id and the counter moves to the next |
| HybridAlloc.Fresh | lib/EasyLuaESP32/src/core/lua_engine.cpp:191-196 | Before a new state is built the pool is emptied and the totals zeroed, keeping whether PSRAM exists |
| HybridAlloc.RaisePeak | lib/EasyLuaESP32/src/core/lua_engine.cpp:116-119 | The peak is at least the total and never decreases |
| HybridAlloc.NewBlock | lib/EasyLuaESP32/src/core/lua_engine.cpp:105-144 | A request below 512 bytes that still fits the 64 KiB pool is placed at the pool offset, which advances. Otherwise PSRAM is tried only when present, then internal RAM. The counter for the place used grows by the size; a failure changes nothing |
| HybridAlloc.AllocAsWritten | lib/EasyLuaESP32/src/core/lua_engine.cpp:33-145 | The allocator as written. Freeing returns NULL and takes the old size off the SRAM count (pool block) or the PSRAM count (heap block), and off the total; the pool is not reclaimed. A pool block is moved to a new block, copying min(old, new) bytes; the old size then comes off the SRAM count but not the total. A heap block goes to realloc: a failure changes nothing, a success returns realloc's block, moves PSRAM and total by new minus old size and raises the peak to the new total |
| HybridAlloc.PoolReallocUnbalances | lib/EasyLuaESP32/src/core/lua_engine.cpp:74-84 | Reallocating a fresh pool block moves it to the next pool offset (old offset plus old size); afterwards the total exceeds internal plus PSRAM usage by the old size |
| HybridAlloc.Alloc | lib/EasyLuaESP32/src/core/lua_engine.cpp:33-145 | The allocator with the pool-realloc accounting corrected. Pointers, copies and pool offsets are those of the code; the total stays the sum of the per-place counters |
| HybridAlloc.RunRequests | lib/EasyLuaESP32/src/core/lua_engine.cpp:33-145 | Any sequence of requests keeps the counters balanced, the pool offset monotone and whether PSRAM exists |
| HybridAlloc.PoolBlocksDisjoint | lib/EasyLuaESP32/src/core/lua_engine.cpp:105-120 | Pool blocks handed out are packed one after another within the 64 KiB pool, so no two overlap |
| Scheduler.Init | lib/EasyLuaESP32/src/core/lua_engine.cpp:284-328 | After initialisation the engine is idle, with no pending run |
| Scheduler.Take | lib/EasyLuaESP32/src/core/lua_engine.cpp:241-247 | The worker takes the signal, marks itself running, clears any earlier stop request, and runs the queued code up to its NUL |
| Scheduler.Finish | lib/EasyLuaESP32/src/core/lua_engine.cpp:249-276 | After a run both flags drop and the effects are, in order: an error report with the message (exactly when the run failed and an error callback is set), the state rebuild, and a stop report (exactly when a stop callback is set) |
| Scheduler.RequestStop | lib/EasyLuaESP32/src/core/lua_engine.cpp:410-413 | Only the stop flag is raised |
| Scheduler.Execute | lib/EasyLuaESP32/src/core/lua_engine.cpp:330-362 | Uninitialised engines ignore the call. Otherwise the code is queued and signalled. A running script is asked to stop and waited for up to 500 polls of 10 ms; on timeout it is left running |
| Scheduler.ExecuteTwiceRunsLast | lib/EasyLuaESP32/src/core/lua_engine.cpp:330-362 | Two executes before the worker wakes run only the second code, once |
| Scheduler.StaleStopDiscarded | lib/EasyLuaESP32/src/core/lua_engine.cpp:241-244 | A stop requested before the worker takes the next run does not interrupt that run |
| Scheduler.ExecuteInterrupts | lib/EasyLuaESP32/src/core/lua_engine.cpp:330-362 | Executing while a script runs interrupts it and then runs the new code |
| Scheduler.RunCycle | lib/EasyLuaESP32/src/core/lua_engine.cpp:233-278 | One take-run-finish cycle ends idle and rebuilds the state exactly once |
| LibEngine.ResetState | lib/EasyLuaESP32/src/core/lua_engine.cpp:189-227 | A reset empties the pool and zeroes the totals, then builds the new state on it: the allocations of lua_newstate, luaL_openlibs and the reset callback (given as a request sequence) leave a balanced, valid allocator whose pool blocks lie packed from the start of the pool, with nothing used when nothing was requested. The reset callback is called when one is set; only the allocator and the state count change |
| LibEngine.ResetForgetsOldAllocator | lib/EasyLuaESP32/src/core/lua_engine.cpp:189-227 | The allocator after a reset depends only on whether PSRAM exists and on the start-up requests, not on anything the old state used |
| LibEngine.Init | lib/EasyLuaESP32/src/core/lua_engine.cpp:284-328 | PSRAM is used exactly when its size is non-zero; the engine comes up idle with one state built |
| LibEngine.OnStateReset | lib/EasyLuaESP32/src/core/lua_engine.cpp:404-408 | Only the reset callback changes |
| LibEngine.WorkerTake | lib/EasyLuaESP32/src/core/lua_engine.cpp:241-247 | The worker runs the queued code and changes only the scheduler |
| LibEngine.WorkerFinish | lib/EasyLuaESP32/src/core/lua_engine.cpp:249-276 | After every run the state is rebuilt: the next run gets the allocator a reset builds, whatever this run used, balanced and valid; the code buffer is kept |
| LibEngine.Execute | lib/EasyLuaESP32/src/core/lua_engine.cpp:330-362 | The engine-level execute: queueing, interrupting and state reset as in Scheduler.Execute, with the code buffer untouched. A run in progress is asked to stop; the caller gives up exactly when it would need more than 500 polls, leaving the stop pending, and otherwise sees the run's finish effects. A valid allocator stays valid, and a run that finished while the caller waited leaves the valid allocator a reset builds |
| LibEngine.AddCode | lib/EasyLuaESP32/src/core/lua_engine.cpp:373-380 | A non-null chunk is appended, up to its NUL; a null one is ignored |
| LibEngine.ClearCode | lib/EasyLuaESP32/src/core/lua_engine.cpp:382-386 | Only the buffer is emptied |
| LibEngine.RunBuffer | lib/EasyLuaESP32/src/core/lua_engine.cpp:388-392 | Running the buffer executes its text up to the first NUL and keeps the buffer; it gives up on a running script exactly after 500 polls; a valid allocator stays valid |
| LibEngine.AddAllAppends | lib/EasyLuaESP32/src/core/lua_engine.cpp:373-380 | Adding chunks in turn appends their concatenation |
| LibEngine.ChunkedCodeRuns | lib/EasyLuaESP32/src/core/lua_engine.cpp:373-392 | Chunks added then run execute exactly their concatenation |
| LibEngine.Hook | lib/EasyLuaESP32/src/core/lua_engine.cpp:172-182 | The hook runs the stop script and raises exactly when a stop was requested |
| LegacyEngine.AddModule | src/core/lua_engine.cpp:173-180 | A module is appended while fewer than 16 are registered; otherwise nothing changes |
| LegacyEngine.AddModulesKeepsFirst | src/core/lua_engine.cpp:173-180 | Registering many modules keeps the first ones up to the limit of 16, in order |
| LegacyEngine.ResetState | src/core/lua_engine.cpp:43-64 | Every reset calls every registered module, in registration order |
| LegacyEngine.Init | src/core/lua_engine.cpp:113-134 | Initialisation registers the modules into a fresh state and leaves the engine idle |
| LegacyEngine.WorkerTake | src/core/lua_engine.cpp:70-107 | The worker runs the queued code up to its NUL |
| LegacyEngine.WorkerFinish | src/core/lua_engine.cpp:70-107 | After a run the modules are called again on the new state and the engine is idle |
| LegacyEngine.Stop | src/core/lua_engine.cpp:165-167 | Only the stop flag is raised |
| LegacyEngine.HookRaises | src/core/lua_engine.cpp:29-36 | The hook raises exactly when a stop was requested |
| LegacyEngine.Execute | src/core/lua_engine.cpp:85-163 | Execute queues the code. A run in progress is asked to stop; the caller gives up exactly when it would need more than 500 polls, leaving the stop pending and nothing reported. Otherwise the interrupted run's effects follow: error callback, state rebuild, stop callback; the modules are re-registered. Nothing else reports effects. The registry never changes |
| FileTransfer.RemoveDots | src/modules/file_transfer.cpp:44-51 | Removing ".." occurrences leaves no ".." behind and keeps a non-dot first character |
| FileTransfer.RemoveDotsKeepsOthers | src/modules/file_transfer.cpp:44-51 | Every character that is not a dot survives, in order |
| FileTransfer.RemoveDotsFixed | src/modules/file_transfer.cpp:44-51 | A path without ".." is left alone |
| FileTransfer.Sanitize | src/modules/file_transfer.cpp:44-51 | A sanitised path starts with "/" and holds no ".." |
| FileTransfer.SanitizeFixed | src/modules/file_transfer.cpp:44-51 | Sanitised paths are fixed points |
| FileTransfer.SanitizeIdempotent | src/modules/file_transfer.cpp:44-51 | Sanitising twice is sanitising once |
| FileTransfer.TransferInit | src/modules/file_transfer.cpp:538-556 | With the filesystem mounted, the service starts with no session; without it nothing changes |
| FileTransfer.AllocateBuffer | src/modules/file_transfer.cpp:53-101 | Requests up to the static size use the static buffer. Larger ones get min(request, cap). They succeed with a PSRAM block; with a heap block when PSRAM gave none; or, when PSRAM was not tried and a dynamic buffer was held, with that freed buffer. A failure falls back to the static buffer. The size is always between the static size and the cap |
| FileTransfer.TriedPsramForgetsOldBuffer | src/modules/file_transfer.cpp:66-87 | Once PSRAM is tried, success does not depend on whether a dynamic buffer was held before, and the freed buffer is never reused |
| FileTransfer.FreeBuffer | src/modules/file_transfer.cpp:103-110 | A dynamic buffer is released and the static one restored |
| FileTransfer.Flush | src/modules/file_transfer.cpp:112-174 | A flush succeeds exactly when the filesystem takes all buffered bytes, which then move to the file. A failed flush keeps them |
| FileTransfer.FlushHandler | src/modules/file_transfer.cpp:296-308 | A flush without an open session fails; otherwise it is a buffer flush |
| FileTransfer.AppendRound | src/modules/file_transfer.cpp:263-294 | One buffer-sized round keeps file plus buffer equal to everything written and the buffer below its size |
| FileTransfer.Append | src/modules/file_transfer.cpp:263-294 | Appended data ends up, in order, in file plus buffer; without an open file nothing changes |
| FileTransfer.CreateAsWritten | src/modules/file_transfer.cpp:193-261 | The create handler as written: a request without a filename closes the file but leaves the session marked open |
| FileTransfer.CreateWithoutNameBreaksSession | src/modules/file_transfer.cpp:193-211 | After that, a session with more buffered data than the static buffer holds is open over a buffer smaller than its content |
| FileTransfer.Create | src/modules/file_transfer.cpp:193-261 | The create handler with the session closed on a missing filename. A named create opens a fresh session on the sanitised name exactly when the file opens |
| FileTransfer.CreateAgreesWhenNamed | src/modules/file_transfer.cpp:193-261 | The correction changes nothing for requests that carry a filename |
| FileTransfer.Close | src/modules/file_transfer.cpp:342-394 | Closing flushes what fits, closes the file and frees a dynamic buffer; without a session nothing happens |
| FileTransfer.Delete | src/modules/file_transfer.cpp:454-482 | A request that is not valid JSON is refused. Otherwise the name, even an empty one, is sanitised; the file currently open is refused, and any other path is removed when the filesystem removes it |
| FileTransfer.OpenFileNotDeleted | src/modules/file_transfer.cpp:454-482 | The open file can never be deleted, by its own name or by any name that sanitises to it |
| FileTransfer.Transfer | src/modules/file_transfer.cpp:193-394 | Create, append and close of data that fits store exactly that data |
| LuaValues.Digits | lib/EasyLuaESP32/src/lua_modules/lua_arduino/lua_arduino.cpp:126-130 | The "%lld" digits of a number: non-empty, all digits, no leading zero |
| LuaValues.ParseDigitsOfDigits | lib/EasyLuaESP32/src/lua_modules/lua_arduino/lua_arduino.cpp:126-130 | Reading the digits back gives the number |
| LuaValues.DecimalText | lib/EasyLuaESP32/src/lua_modules/lua_arduino/lua_arduino.cpp:126-130 | The text is negative exactly when it starts with "-" |
| LuaValues.DecimalRoundTrip | lib/EasyLuaESP32/src/lua_modules/lua_arduino/lua_arduino.cpp:126-130 | Every integer's decimal text parses back to that integer |
| LuaValues.DecimalFitsBuffer | lib/EasyLuaESP32/src/lua_modules/lua_arduino/lua_arduino.cpp:112-130 | A 64-bit integer's text needs at most 20 characters, within the 64-byte buffer |
| LuaPrint.ToText | lib/EasyLuaESP32/src/lua_modules/lua_arduino/lua_arduino.cpp:110-168 | Every value but a float gets a text. An integer's text reads back as the integer. Strings are cut at NUL |
| LuaPrint.StringsPrintAsThemselves | lib/EasyLuaESP32/src/lua_modules/lua_arduino/lua_arduino.cpp:139-143 | A NUL-free string prints as itself |
| LuaPrint.SplitJoin | lib/EasyLuaESP32/src/lua_modules/lua_arduino/lua_arduino.cpp:186-191 | Joining tab-free texts with tabs can be split back into them |
| LuaPrint.Texts | lib/EasyLuaESP32/src/lua_modules/lua_arduino/lua_arduino.cpp:186-191 | Each argument's text, in argument order |
| LuaPrint.Print | lib/EasyLuaESP32/src/lua_modules/lua_arduino/lua_arduino.cpp:172-200 | print sends one "lua_code_output" event; with no arguments it sends an empty line. Otherwise the line holds every argument's text at its offset, with one tab after each but the last and nothing else, whatever the texts contain |
| LuaPrint.PrintedLineSplits | lib/EasyLuaESP32/src/lua_modules/lua_arduino/lua_arduino.cpp:172-200 | When no argument's text contains a tab, the printed line splits at tabs into exactly the arguments' texts |
| LuaPrint.JoinTabsLength | lib/EasyLuaESP32/src/lua_modules/lua_arduino/lua_arduino.cpp:181-187 | A line of texts joined with tabs is as long as the texts plus one tab between each two |
| LuaPrint.JoinTabsAt | lib/EasyLuaESP32/src/lua_modules/lua_arduino/lua_arduino.cpp:181-187 | Each text sits at its offset in the joined line, followed by a tab unless it is the last |
| LuaPrint.JoinTabsLayout | lib/EasyLuaESP32/src/lua_modules/lua_arduino/lua_arduino.cpp:181-187 | The joined line is laid out from the texts whatever they contain, tabs included |
| LuaPrint.DofilePath | lib/EasyLuaESP32/src/lua_modules/lua_arduino/lua_arduino.cpp:254-263 | dofile's path is "/littlefs/" plus the name up to its NUL, truncated to the 255 characters the 256-byte buffer holds |
| LuaPrint.ShortNamesKept | lib/EasyLuaESP32/src/lua_modules/lua_arduino/lua_arduino.cpp:254-263 | Names that fit are never truncated |
| LuaEventMsg.Init | lib/EasyLuaESP32/src/lua_modules/lua_eventmsg/lua_eventmsg.cpp:202-212 | The queue is created once; a second init changes nothing |
| LuaEventMsg.Push | lib/EasyLuaESP32/src/lua_modules/lua_eventmsg/lua_eventmsg.cpp:51-81 | A queued event goes to the back; a full queue of 16 drops its oldest first |
| LuaEventMsg.PushAllKeepsNewest | lib/EasyLuaESP32/src/lua_modules/lua_eventmsg/lua_eventmsg.cpp:51-81 | After any arrivals the queue holds exactly the 16 newest events, oldest first |
| LuaEventMsg.PushAllFits | lib/EasyLuaESP32/src/lua_modules/lua_eventmsg/lua_eventmsg.cpp:51-81 | Arrivals that fit are all kept, in order |
| LuaEventMsg.Incoming | lib/EasyLuaESP32/src/lua_modules/lua_eventmsg/lua_eventmsg.cpp:51-81 | An event is queued exactly when Lua subscribed to its name |
| LuaEventMsg.On | lib/EasyLuaESP32/src/lua_modules/lua_eventmsg/lua_eventmsg.cpp:127-144 | Subscribing appends the callback to the name's list and leaves other names alone |
| LuaEventMsg.Off | lib/EasyLuaESP32/src/lua_modules/lua_eventmsg/lua_eventmsg.cpp:157-175 | Unsubscribing drops the name and all its callbacks, and nothing else |
| LuaEventMsg.OffStopsQueueing | lib/EasyLuaESP32/src/lua_modules/lua_eventmsg/lua_eventmsg.cpp:51-81 | After off, events of that name are no longer queued |
| LuaEventMsg.Cleanup | lib/EasyLuaESP32/src/lua_modules/lua_eventmsg/lua_eventmsg.cpp:239-258 | Cleanup forgets every subscription and empties the queue |
| LuaEventMsg.CallsForEvent | lib/EasyLuaESP32/src/lua_modules/lua_eventmsg/lua_eventmsg.cpp:84-120 | An event calls each callback of its name, in registration order, with its data |
| LuaEventMsg.Drain | lib/EasyLuaESP32/src/lua_modules/lua_eventmsg/lua_eventmsg.cpp:84-120 | Update processes the oldest min(queued, max(limit, 1)) events, in order, and leaves the rest queued |
| LuaEventMsg.ArrivalOrder | lib/EasyLuaESP32/src/lua_modules/lua_eventmsg/lua_eventmsg.cpp:51-120 | Events that fit the queue are delivered in arrival order |
| LuaEventMsg.ValueToData | lib/EasyLuaESP32/src/lua_modules/lua_eventmsg/lua_eventmsg.cpp:35-48 | A string sends its text up to the first NUL (all of it when it has none), an integer its decimal text, a boolean "true"/"false", nil and other types an empty payload; a float sends nothing modelled |
| TimerTable.NextSlot | lib/lua_sys/src/luat_timer_freertos.c:52-59 | The first free slot of 64, or -1 exactly when all are taken |
| TimerTable.Start | lib/lua_sys/src/luat_timer_freertos.c:66-111 | Starting fills the first free slot and runs the timer, auto-reloading exactly when the repeat count is non-zero. It succeeds exactly when a slot is free and creation and start succeed; on failure nothing changes |
| TimerTable.SlotOf | lib/lua_sys/src/luat_timer_freertos.c:118-139 | The first slot holding a timer, or -1 exactly when none does |
| TimerTable.Stop | lib/lua_sys/src/luat_timer_freertos.c:118-139 | Stopping a running timer halts it and empties its slot, leaving the others; a null or idle timer is reported and nothing changes |
| TimerTable.Get | lib/lua_sys/src/luat_timer_freertos.c:146-153 | Lookup returns the first slotted timer with the id, or none exactly when no slotted timer has it |
| TimerTable.StopAll | lib/lua_sys/src/luat_timer_freertos.c:159-183 | Stopping all empties every slot, frees exactly the slotted timers and counts them |
| RtosLib.SizeT | lib/lua_sys/src/luat_lib_rtos.c:121-122 | The (size_t) cast: the value modulo 2^32 |
| RtosLib.Int32 | lib/lua_sys/src/luat_lib_rtos.c:123 | The (int) cast: the two's-complement 32-bit value, congruent to the input |
| RtosLib.TimerStart | lib/lua_sys/src/luat_lib_rtos.c:120-156 | rtos.timer_start returns 1 exactly when the truncated timeout is non-zero, the record is allocated and the table starts it. The record holds the truncated id, timeout and repeat. A failure leaves the table as it was |
| RtosLib.Launch | lib/lua_sys/src/luat_lib_rtos.c:138-155 | The filled-in record is started exactly when a slot is free and the timer is created and started: it then sits in the first free slot holding the given record, and nothing else changes. Otherwise it is freed and the table is as it was |
| RtosLib.TimeoutTruncated | lib/lua_sys/src/luat_lib_rtos.c:121-129 | A timeout of -1 becomes 2^32-1 and starts; a timeout of 2^32 truncates to 0 and is refused |
| RtosLib.Fire | lib/lua_sys/src/luat_timer_freertos.c:25-47 | A FreeRTOS expiry posts a message exactly when a slotted timer has the id, pointing at that timer |
| RtosLib.Retire | lib/lua_sys/src/luat_lib_rtos.c:44-46 | A finished one-shot timer is stopped and freed, and the other slots are untouched |
| RtosLib.CountOnce | lib/lua_sys/src/luat_lib_rtos.c:47-49 | A counting timer's repeat drops by one |
| RtosLib.Handler | lib/lua_sys/src/luat_lib_rtos.c:23-52 | The handler pushes (MSG_TIMER, id, repeat). It retires a timer at repeat 0, counts down a positive repeat, and leaves a negative one running. An unknown id pushes nothing |
| RtosLib.GetUnique | lib/lua_sys/src/luat_timer_freertos.c:146-153 | A timer whose id is unique in the table is found by it |
| RtosLib.CountDown | lib/lua_sys/src/luat_lib_rtos.c:39-49 | The messages of a timer with repeat n carry n, n-1, ..., 0 |
| RtosLib.OneDelivery | lib/lua_sys/src/luat_lib_rtos.c:23-52 | A counting timer delivers its repeat count and stays, one lower |
| RtosLib.LastDelivery | lib/lua_sys/src/luat_lib_rtos.c:23-52 | The last delivery reports 0 and removes the timer |
| RtosLib.ReceiveTimer | lib/lua_sys/src/luat_lib_rtos.c:23-52 | A timer with repeat n delivers exactly n+1 messages, counting down to 0, then is gone |
| RtosLib.ForeverStays | lib/lua_sys/src/luat_lib_rtos.c:47-49 | A timer with negative repeat delivers forever, unchanged |
| RtosLib.TimerStop | lib/lua_sys/src/luat_lib_rtos.c:164-178 | rtos.timer_stop frees the timer found by id and empties its slot; a non-integer or unknown id does nothing |
| RtosLib.AutoGc | lib/lua_sys/src/luat_lib_rtos.c:68-92 | Collection runs only when the bus is empty and auto-GC is on, twice at a time; a busy bus resets the counter |
| RtosLib.IdleAlwaysCollects | lib/lua_sys/src/luat_lib_rtos.c:68-92 | With "used" equal to "total", and a total of at most 42,949,672 bytes so the 32-bit percentage products cannot wrap, the high-water test always passes: every idle receive collects twice and the counter never advances |
| RtosLib.CounterStaysZero | lib/lua_sys/src/luat_lib_rtos.c:79-88 | Hence the idle counter stays at zero over any run of receives |
| RtosLib.ReceiveWait | lib/lua_sys/src/luat_lib_rtos.c:95-96 | A missing or negative timeout waits forever; otherwise the given milliseconds |
| RtosLib.Receive | lib/lua_sys/src/luat_lib_rtos.c:60-110 | A message is handed to its handler; a timeout returns -1 and changes nothing |
| Storage.Boot | src/lua_modules/lua_storage/lua_storage.cpp:11-14 | At boot the store is valid, nothing is open and the data in flash is kept |
| Storage.CompressKey | src/lua_modules/lua_storage/lua_storage.cpp:18-23 | Keys are cut to their first 15 characters; shorter keys are kept |
| Storage.CompressKeyIdempotent | src/lua_modules/lua_storage/lua_storage.cpp:18-23 | Compressing twice is compressing once |
| Storage.SameEntryIff | src/lua_modules/lua_storage/lua_storage.cpp:18-23 | Two long keys share an entry exactly when their first 15 characters agree |
| Storage.Init | src/lua_modules/lua_storage/lua_storage.cpp:27-36 | Init opens the current namespace once; a second init changes nothing |
| Storage.Stop | src/lua_modules/lua_storage/lua_storage.cpp:38-46 | Stop closes the store and keeps the stored data |
| Storage.SetNamespace | src/lua_modules/lua_storage/lua_storage.cpp:190-202 | A non-empty name reopens the store on it; a null or empty one is refused without change |
| Storage.ResetNamespace | src/lua_modules/lua_storage/lua_storage.cpp:204-214 | Reset reopens on "lua_storage" |
| Storage.LuaInit | src/lua_modules/lua_storage/lua_storage.cpp:383-395 | storage.init always ends on the default namespace, open |
| Storage.LuaInitIsReset | src/lua_modules/lua_storage/lua_storage.cpp:383-395 | Whatever namespace was set, storage.init is a namespace reset |
| Storage.Set | src/lua_modules/lua_storage/lua_storage.cpp:48-111 | A write with a non-empty key (and, for a blob, data) that the flash accepts stores exactly that entry in the current namespace; otherwise nothing is stored. It reports true except for an empty string, which is stored but reported false because putString returns the length |
| Storage.EmptyStringStoredButFalse | src/lua_modules/lua_storage/lua_storage.cpp:73-84 | Setting "" answers false, yet the key then reads "" instead of the default |
| Storage.Remove | src/lua_modules/lua_storage/lua_storage.cpp:170-181 | Removing drops the entry and reports whether it existed |
| Storage.Clear | src/lua_modules/lua_storage/lua_storage.cpp:183-188 | Clearing empties the current namespace and keeps every other |
| Storage.Lookup | src/lua_modules/lua_storage/lua_storage.cpp:113-168 | Reads find the entry of the compressed key in the current namespace; empty keys find nothing |
| Storage.GetInt | src/lua_modules/lua_storage/lua_storage.cpp:113-121 | A stored integer is returned, otherwise the default |
| Storage.GetString | src/lua_modules/lua_storage/lua_storage.cpp:133-148 | A stored string is returned, otherwise the default up to its NUL, or "" |
| Storage.GetBool | src/lua_modules/lua_storage/lua_storage.cpp:150-158 | A stored boolean is returned, otherwise the default |
| Storage.GetBlob | src/lua_modules/lua_storage/lua_storage.cpp:160-168 | A stored blob that fits a valid buffer is read whole; a blob larger than the buffer, an entry of another type, a bad key or a bad buffer reads nothing |
| Storage.BlobRoundTrip | src/lua_modules/lua_storage/lua_storage.cpp:99-168 | An accepted blob write reads back whole through a buffer at least its size |
| Storage.IntRoundTrip | src/lua_modules/lua_storage/lua_storage.cpp:48-121 | An integer written under a key reads back under every key that compresses the same |
| Storage.BadKeyChangesNothing | src/lua_modules/lua_storage/lua_storage.cpp:48-121 | An empty key writes nothing and reads the default |
| Storage.SetIsLocal | src/lua_modules/lua_storage/lua_storage.cpp:48-111 | A write leaves every other entry as it was |
| Storage.LuaSet | src/lua_modules/lua_storage/lua_storage.cpp:224-275 | storage.set stores integers, floats, strings, booleans and tables (as JSON) through the setter the value's type selects, and returns the setter's answer; a string Lua reads as a number is stored as a number; a table whose encoding fails stores nothing and returns false; other types raise |
| Storage.PutOf | src/lua_modules/lua_storage/lua_storage.cpp:228-245 | The type tests pick the setter in order: integer, number (numeric strings included), string, boolean; anything else picks none |
| Storage.LuaGet | src/lua_modules/lua_storage/lua_storage.cpp:277-343 | storage.get reads in the default's type; a string default Lua reads as a number reads a number. Without a default it returns the stored string, or nil when that is empty |
| Storage.LuaStringRoundTrip | src/lua_modules/lua_storage/lua_storage.cpp:224-343 | A NUL-free string that Lua does not read as a number, set from Lua, reads back as itself; an empty one is reported not stored and reads back as nil |
| Storage.LuaNumeralStringIsNumber | src/lua_modules/lua_storage/lua_storage.cpp:224-343 | A string Lua reads as a number is stored as a number: it reads back as nil without a default, and as the default under a non-numeric string default |
| Storage.LuaIntWithoutDefaultIsNil | src/lua_modules/lua_storage/lua_storage.cpp:224-343 | An integer set from Lua and read without a default reads back as nil, because only the string reader is tried |
| SerialConsole.Step | src/main.cpp:123-176 | Ctrl+D runs exactly the buffer and empties it (nothing when empty). Ctrl+C stops a running script, keeping the buffer, or else clears it. Backspace/DEL drops the last character. Anything else is appended |
| SerialConsole.BackspaceUndoesTyping | src/main.cpp:160-174 | Backspace takes back the character just typed |
| SerialConsole.TypingAppends | src/main.cpp:169-174 | Ordinary characters only grow the buffer and run nothing |
| SerialConsole.FeedSplit | src/main.cpp:123-176 | Processing two runs of input in turn is processing their concatenation |
| SerialConsole.TypedLineRuns | src/main.cpp:123-176 | Typing a line and pressing Ctrl+D runs exactly that line and empties the buffer, whatever the engine is doing |
| SerialConsole.StepKeepsTyped | src/main.cpp:129-174 | A step keeps the buffer free of control bytes, and runs only on Ctrl+D, only a non-empty buffer |
| SerialConsole.FeedStep | src/main.cpp:125-175 | One more byte at the end of the input acts on the buffer the earlier bytes left, adding its run, if any, to the codes run |
| SerialConsole.FeedKeepsTyped | src/main.cpp:123-176 | Over any input the buffer stays typed, and at most one non-empty typed line runs per Ctrl+D |
| SerialConsole.Dispatch | src/main.cpp:134-152 | Ctrl+D's run goes to lua_engine_execute and Ctrl+C's stop to lua_engine_stop; no action leaves the engine alone; the module registry is untouched |
| SerialConsole.ProcessSerial | src/main.cpp:123-176 | The loop is Feed over the input, under the running flag it read at each byte: the buffer left is Feed's, and the codes run are exactly Feed's Run actions, in order. Each is a non-empty typed line, at most one per Ctrl+D; the module registry is untouched |
| SerialConsole.ExecuteEventCode | src/main.cpp:59-74 | The event payload becomes the code byte for byte |
| SerialConsole.ExecutePayloadVerbatim | src/main.cpp:59-74 | A payload without NUL runs verbatim; one with a NUL runs only the part before it |
| BleSend.ChunksOf | src/comms/ble_comm.cpp:147-168 | The chunks put back together are the payload. Every chunk holds 1 to 480 bytes and all but the last are full. An empty payload has no chunks |
| BleSend.ChunkCount | src/comms/ble_comm.cpp:147 | There are ceil(len / 480) chunks, the count the code computes |
| BleSend.Send | src/comms/ble_comm.cpp:135-171 | Without a connection or TX characteristic nothing is sent. Otherwise the first len bytes go out in those chunks, with a pause between consecutive chunks |
| BleSend.SendDelivers | src/comms/ble_comm.cpp:135-171 | The client reassembles exactly the first len bytes; payloads over 480 bytes take two or more notifications |
| DebugLevel.SetLevel | src/utils/debug.cpp:13-18 | A known level (0 to 4) is taken; any other is ignored; a known level stays known |
| DebugLevel.ReplayStaysKnown | src/utils/debug.cpp:13-18 | From a known level, no sequence of calls makes it unknown |
| DebugLevel.ReplayLastKnownWins | src/utils/debug.cpp:13-18 | The level is the last known one requested, or the start when none was |
| DebugLevel.SetLevelIdempotent | src/utils/debug.cpp:13-18 | Setting the same level twice is setting it once |
| DebugLevel.EnabledMonotone | lib/EasyLuaESP32/src/core/utils/debug.h:84-98 | Raising the level never silences a message; NONE prints nothing; TRACE prints everything |
| DebugLevel.DefaultShowsInfo | lib/EasyLuaESP32/src/core/utils/debug.h:10-24 | At the default level errors and info print, debug and trace do not |

## Left out

- Lua interpreter internals. The result of a script run (ok or error text) and how long it runs are parameters (`outcome`, `finishAfter`).
- The worker task, the semaphore and the 10 ms polling. They are an atomic take/finish step, so task interleavings beyond these steps are not modelled.
- Heap, PSRAM and FreeRTOS timer allocation results are oracle parameters. Pointers are abstract (pool offset or heap id).
- The Preferences (NVS) store is a map. Its own failure modes beyond "write accepted" are not modelled.
- The filesystem is an oracle: whether a file opens or is removed, and how many bytes it has room for.
- Floating-point values. Float formatting ("%.14g", `String(double)`) and storage of doubles are not modelled; a float's text is None.
- Whether Lua reads a string as a number (Lua's numeral syntax) is a parameter (`numeral`) of Storage.LuaSet and Storage.LuaGet, not a model of the syntax.
- JSON encoding and decoding of tables in storage, and the JSON requests of file transfer. A request is a record with a filename and sizes.
- File transfer handlers other than create, append, flush, close and delete (read, seek, list, info), CRC checking, timing, and base64.
- BLE radio set-up, advertising, connection callbacks, and the notify call itself. A chunk stands for one setValue + notify.
- rtos.reboot, rtos.meminfo and rtos.version. They only reach hardware or report constants.
- The blocking first wait of eventmsg.update. Drain takes what is already queued.
- src/utils/debug.h is not part of this model. The default level is the library header's (INFO, 2).
- LuaPrint.Print: the output length is passed on as a 16-bit length; truncation of lines over 65535 bytes is not modelled.
- HybridAlloc.RunRequests: totals and peaks are unbounded integers; `size_t` wrap-around of the counters is not modelled.
- LuaEventMsg.Drain: callback errors are not modelled; every callback is taken to return.
- RtosLib.AutoGc: the memory figures are inputs. The contract states the shape of the decision, and IdleAlwaysCollects states its outcome with "used" equal to "total".
- SerialConsole.ProcessSerial: states what is run and kept in terms of Feed, not the engine's scheduling effects, which LegacyEngine.Execute states. The echo and messages printed to the serial port are not modelled.
- LibEngine.ResetState: what lua_newstate, luaL_openlibs and the reset callback allocate is a parameter (`startup`), not a model of Lua's own allocations. The frees lua_close makes on the old state are not modelled; the pool restart and zeroed totals that follow erase their effect.
- EventMsg.FeedBytes: requires fewer than 65536 bytes, the range of the `uint16_t` length parameter; longer runs are not modelled.

## Findings

| source | as written | input that shows it | evidently intended | confidence | as-written member | corrected member |
|---|---|---|---|---|---|---|
| src/core/event_msg.cpp:219-220 | The frame is encoded into a 4096-byte static buffer with no bound check, although stuffing can double the data | send with 2100 data bytes that are all EOT (0x04): the frame exceeds 4096 bytes | Frames that do not fit are not encoded or sent | not executed | EventMsg.SendBufferOverflow | EventMsg.Send |
| lib/EasyLuaESP32/src/core/lua_engine.cpp:74-84 | Reallocating a pool block allocates a new block and copies, but never subtracts the old size from the total | allocate 16 bytes, then reallocate that block to 32 bytes: total exceeds internal plus PSRAM usage by 16 | The total equals the sum of the per-place counters | not executed | HybridAlloc.PoolReallocUnbalances | HybridAlloc.Alloc |
| src/modules/file_transfer.cpp:193-211 | A create request without a filename closes the open file and frees its buffer, but leaves the session marked open | an open session with more than 4096 bytes pending that the final flush cannot write, then create with an empty filename: the session stays open over a 4096-byte buffer holding more than 4096 bytes | A rejected create leaves no half-open session | not executed | FileTransfer.CreateWithoutNameBreaksSession | FileTransfer.Create |
