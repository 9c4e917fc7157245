# Proofs about the ESP32-S31 Linux port

The ESP32-S31 has two harts: Linux has the one, and the firmware for the radio the other.  This
project models the code where the two meet, and the code around it whose correctness is hardest
to see, and proves it in Dafny.  `dafny verify dfyconfig.toml` checks all of it.

| part | files |
|---|---|
| Shared-memory rings | `RingLayout`, `RingDirection`, `TwoHarts`, `TransportRuns`, `Transport`, `Progress`: every access to a shared word or byte is one step of a state machine of both harts, and the results hold for every interleaving. `ShmRing`, `HostTx`: the same code as classes over the ring bytes and the transmit queue. |
| I2C command lists | `I2cSpec`, `I2cLists`, `I2cController`, `I2cTransfer`: the lists of 8 commands mean the simple bus program of the messages. |
| Flash mailbox | `FlashMailbox`, `FlashCalls`, `FlashProgress`: the one-slot protocol as interleaved steps, with timeouts and wake-ups, from the call to its reply. `FlashMtd`: the MTD write and erase. `FlashContents`: the flash behind the mailbox, in every run. |
| Cache sync engine | `CacheLock`: the lock, the registers and the engine, as interleaved steps of the firmware and OpenSBI. |
| Timer of OpenSBI | `TimerHalves`: 64 bits over two registers, against a counter that moves. |
| ESPHome API | `Varint`, `ApiStream`: frames, and a stream that comes in any chunks. |
| Advertisements | `Protobuf`, `AdvPipeline`: from the controller's event to the message for Home Assistant. |
| ATT server | `GattTable`, `GattServer`, `Gatt`, `GattClient`: the server, and clients that discover and read. |
| Improv Wi-Fi | `Improv`, `AclLink`, `BleServer`: a packet through writes, ATT requests and ACL fragments. |

`Words` has bytes and machine words.

How the models are built:

- A state machine has one step for each access to shared memory, a device register or a
  semaphore.  `ValidRun` is any sequence of steps from `Init`, and the main results are about the
  state after any such run.  The fences of the source make the sequentially consistent steps
  a fair model.  History variables (`pushed`, `delivered`, `posted`, `log` and so on) never
  influence a step.  What callers do, and what memory, flash and sockets answer, is read off the steps
  of a run (`Accepted`, `Given`, `Answers`, `Requests`, `Errors`, `LinuxAsks`).
- A class has the fields of the C structure.  Its methods are proved against functions, and the
  lemmas are about these functions.
- Free-running counters, positions and sums have 32 bits and wrap in the models, as in the source.

Results that are not what one could expect:

- The MTD erase covers exactly its request if and only if the length is a multiple of the erase
  block (`FlashMtd.EraseCoversExactly`); the driver itself does not check it.  What is lost
  otherwise is in `FlashMtd.EraseGoesPast`, with a window in `FlashMtd.EraseOneByte`.
- `tools/ble-ha/ble-ha.h:101` says that `improv_parse()` returns 1 for an incomplete packet and
  else an error value, but `IMPROV_ERR_INVALID` is also 1.  The model follows the code: an invalid
  packet stays in the buffer until a write does not fit (`Improv.InvalidIsReached`,
  `Improv.CompletedWrite`, `Improv.InvalidStays`, `Improv.OverflowFrees`).
- A full batch can be longer than the message buffer, if some address types are 128 or more
  (`AdvPipeline.LongMessage`).  `AdvPipeline.FitsExactly` says for which address types every batch
  fits: those whose largest entries have at most 768 bytes together.
- An old timer event that comes between the clear of the latch and the first store of
  `esp32s31_timer_event_start()` stays latched, and a counter with the maximum in its high word can
  give an early event or lose one (`TimerHalves.LatchedIsDue`, `TimerHalves.EarlyAndLost`).

## Model

| member | source | states |
|---|---|---|
| `RingLayout.RecordLenBounds` | shared/esp32s31-hosted-shm.h:66 | the record length: room for the length word and the frame, a multiple of 4, fewer than 4 bytes of padding |
| `RingLayout.WrapKeepsSlot` | linux/drivers/net/wireless/espressif/esp_hosted/esp_shm.c:87-96 | a counter and its 32-bit word have the same place in the ring, across any number of wraps |
| `RingLayout.WrapKeepsDistance` | linux/drivers/net/wireless/espressif/esp_hosted/esp_shm.c:138-143 | the 32-bit difference of HEAD and TAIL is the distance of the unbounded counters |
| `RingLayout.HoldsFrame` | linux/drivers/net/wireless/espressif/esp_hosted/esp_shm.c:87-96 | a store outside of the readable region leaves all frames in flight |
| `RingLayout.HoldsAppend` | linux/drivers/net/wireless/espressif/esp_hosted/esp_shm.c:135-155 | a record stored at HEAD adds its frame to those that the ring holds |
| `RingDirection.NoSharedByte` | linux/drivers/net/wireless/espressif/esp_hosted/esp_shm.c:135-155 | each byte that a push stores is at another place than each byte that the consumer can read |
| `RingDirection.ReadsInside` | linux/drivers/net/wireless/espressif/esp_hosted/esp_shm.c:263-298 | each byte that a read copies is inside of the readable region |
| `RingDirection.StepKeeps` | bootloader/components/esp_hosted/shm_slave_api.c:94-136 | every step of one direction, down to the copy of a single byte, keeps the ring, the counters and the history consistent |
| `RingDirection.CheckLengthKeeps` | bootloader/components/esp_hosted/shm_slave_api.c:265-272 | the length word of the next record always passes the length checks |
| `RingDirection.StoreTailKeeps` | bootloader/components/esp_hosted/shm_slave_api.c:277-279 | the new TAIL gives back exactly the record that was read, and the frame joins the taken ones |
| `RingDirection.RestartKeeps` | linux/drivers/net/wireless/espressif/esp_hosted/esp_shm.c:336-365 | a producer that starts, stops or goes on with its next frame keeps the invariant of its ring |
| `RingDirection.ProducerWakes` | linux/drivers/net/wireless/espressif/esp_hosted/esp_shm.c:147-153 | a producer step keeps both wake-up promises: a sleeping consumer of a non-empty ring is rung, a stopped producer of a ring with room is woken |
| `RingDirection.ConsumerWakes` | linux/drivers/net/wireless/espressif/esp_hosted/esp_shm.c:250-261 | a consumer step keeps the same two wake-up promises |
| `TwoHarts.StepKeepsInv` | linux/drivers/net/wireless/espressif/esp_hosted/esp_shm.c:174-229 | every step of the two harts, with interrupts, work items, semaphores, timeouts and resets, keeps the invariant of the transport |
| `TransportRuns.AcceptedIsLogged` | linux/drivers/net/wireless/espressif/esp_hosted/esp_shm.c:318-354 | in every run the accepted frames are those of the write calls, each unchanged and in order, that came outside of a reset and with fewer than 256 frames waiting, without those that a reset drops; a reset holds the queue from its start to its end |
| `TransportRuns.GivenIsPushed` | bootloader/components/esp_hosted/shm_slave_api.c:226-240 | in every run the pushed frames, with the one that is still tried, are those of the write calls of the firmware, in order, without those that ended in a timeout |
| `TransportRuns.AnswersAreKept` | linux/drivers/net/wireless/espressif/esp_hosted/esp_shm.c:290-295 | in every run the frames that Linux keeps are exactly those whose memory allocation worked |
| `Transport.FramesArriveInOrder` | linux/drivers/net/wireless/espressif/esp_hosted/esp_shm.c:135-155 | from call to call, in every run: the firmware has, byte for byte and in order, a prefix of the frames that Linux wrote and the driver took; Linux has a prefix of the frames that the firmware wrote, without those whose memory allocation failed, and without a failure all of the prefix |
| `Transport.OneMoreFrame` | linux/drivers/net/wireless/espressif/esp_hosted/esp_shm.c:318-328 | after any run, one more write adds exactly its own frame, last, if and only if no reset holds the queue and fewer than 256 frames wait; on the firmware, always |
| `Transport.NoBadFrame` | bootloader/components/esp_hosted/shm_slave_api.c:265-272 | in every run no side takes its branch for a bad frame length |
| `Transport.NoConcurrentAccess` | shared/esp32s31-hosted-shm.h:66 | in every run what is being stored is outside of the readable region, and what is being read is inside of it; HEAD minus TAIL on 32 bits is at most the ring size, and both words are multiples of 4 |
| `Transport.NoLostFrame` | bootloader/components/esp_hosted/shm_slave_api.c:138-147 | in every run a sleeping consumer of a non-empty ring has a doorbell or a token on its way, or the producer will still ring |
| `Transport.NoLostSpace` | linux/drivers/net/wireless/espressif/esp_hosted/esp_shm.c:182-199 | in every run a producer that waits although its frame fits has a wake-up on its way, or WAIT is set and the consumer has its load of WAIT ahead |
| `Transport.QueueIsBounded` | linux/drivers/net/wireless/espressif/esp_hosted/esp_shm.c:300-334 | in every run at most 256 frames wait, outside of a flush exactly the accepted ones that are not pushed; from 64 on the net queues are stopped; while they are, more than 16 frames wait or the work that restarts them is pending |
| `Transport.AtRestAllIsDelivered` | bootloader/components/esp_hosted/shm_slave_api.c:207-296 | no deadlock: when no hart can take a step, all accepted frames have arrived, no producer waits, and the net queues run |
| `Progress.WorkDecreases` | linux/drivers/net/wireless/espressif/esp_hosted/esp_shm.c:174-298 | each step that the transport takes by itself, with memory for the frames of the firmware, makes a measure of its state smaller |
| `Progress.InternalRunsEnd` | bootloader/components/esp_hosted/shm_slave_api.c:207-296 | no endless run of such steps: their number is at most the measure |
| `Progress.EverythingArrives` | bootloader/components/esp_hosted/shm_slave_api.c:207-296 | after any run, the transport that works by itself stops, no producer waits, and then the firmware has all frames that Linux wrote and the driver took, and Linux, with memory for them, all that the firmware wrote |
| `Progress.SomeRunDelivers` | bootloader/components/esp_hosted/shm_slave_api.c:207-296 | from each state of a run there is such a run to the end, with memory for each frame |
| `Progress.HostFrameArrives` | linux/drivers/net/wireless/espressif/esp_hosted/esp_shm.c:300-334 | after any run, a frame that the driver takes can be brought to the firmware by the transport alone: all that was accepted before arrives, and then this frame |
| `Progress.FwFrameArrives` | bootloader/components/esp_hosted/shm_slave_api.c:207-240 | after any run, a frame that the firmware writes can be brought to Linux by the transport alone: it is then the last one received |
| `ShmRing.PutGet` | linux/drivers/net/wireless/espressif/esp_hosted/esp_shm.c:87-117 | a copy into the ring is found again at its position, also over the ring end |
| `ShmRing.RecordIsRead` | linux/drivers/net/wireless/espressif/esp_hosted/esp_shm.c:280-293 | the two copies of a read give the length and the bytes of the first frame in flight |
| `ShmRing.PushBytesKeep` | bootloader/components/esp_hosted/shm_slave_api.c:129-132 | three copies with 32-bit positions add one frame and leave the others |
| `ShmRing.ShmRing.CopyTo` | linux/drivers/net/wireless/espressif/esp_hosted/esp_shm.c:77-85 | the copy by words and bytes stores exactly the source bytes |
| `ShmRing.ShmRing.CopyIn` | linux/drivers/net/wireless/espressif/esp_hosted/esp_shm.c:87-96 | the copy that may split at the ring end is the circular store |
| `ShmRing.ShmRing.CopyOut` | linux/drivers/net/wireless/espressif/esp_hosted/esp_shm.c:108-117 | the copy that may split at the ring end is the circular load |
| `ShmRing.ShmRing.Push` | linux/drivers/net/wireless/espressif/esp_hosted/esp_shm.c:135-155 | a push succeeds if and only if the record fits; then the frame is last in flight, and the doorbell is needed exactly when the ring was empty |
| `ShmRing.ShmRing.RxDone` | linux/drivers/net/wireless/espressif/esp_hosted/esp_shm.c:250-261 | TAIL is stored, WAIT is cleared, and the producer is rung exactly when WAIT was set |
| `ShmRing.ShmRing.Take` | bootloader/components/esp_hosted/shm_slave_api.c:244-296 | a read gives the first frame in flight and gives its space back; without memory Linux drops it and the firmware leaves it |
| `ShmRing.ShmRing.Read` | linux/drivers/net/wireless/espressif/esp_hosted/esp_shm.c:263-298 | the read of Linux returns the first frame that gets memory, or drains the ring, and rings at most once |
| `HostTx.Transmitter.PushTwice` | linux/drivers/net/wireless/espressif/esp_hosted/esp_shm.c:182-190 | a frame that two tries do not place does not fit, and then WAIT is set or the firmware has rung |
| `HostTx.Transmitter.Flush` | linux/drivers/net/wireless/espressif/esp_hosted/esp_shm.c:158-199 | frames leave the queue in order and none is lost; the queues restart at 16; an empty ring that gets a frame is rung, and nothing is rung when no frame left the queue |
| `HostTx.Transmitter.Write` | linux/drivers/net/wireless/espressif/esp_hosted/esp_shm.c:300-334 | when a frame is refused and with which status, in the order of the source; an accepted frame is pushed or queued last; when the net queues stop |
| `HostTx.Transmitter.TxWork` | linux/drivers/net/wireless/espressif/esp_hosted/esp_shm.c:201-210 | the work flushes without losing or reordering a frame |
| `HostTx.Transmitter.QuiesceForReset` | linux/drivers/net/wireless/espressif/esp_hosted/esp_shm.c:343-354 | a reset empties the queue, and the invariant holds |
| `HostTx.Transmitter.ReinitAfterReset` | linux/drivers/net/wireless/espressif/esp_hosted/esp_shm.c:356-365 | after a reset of a running transport the work that restarts the net queues is pending; else nothing changes |
| `I2cSpec.ExecAppend` | linux/drivers/i2c/busses/i2c-esp32s31.c:125-130 | a command at the end of a list does its events after those of the list, with the FIFO bytes after those of the list |
| `I2cSpec.ExecReceives` | linux/drivers/i2c/busses/i2c-esp32s31.c:163-184 | a list receives as many bytes as its READ commands count |
| `I2cLists.AddressStep` | linux/drivers/i2c/busses/i2c-esp32s31.c:147-160 | RESTART and address in the list instead of in the rest leave the whole bus program |
| `I2cLists.ReadStep` | linux/drivers/i2c/busses/i2c-esp32s31.c:163-184 | a READ, with the last byte of the message as a READ of its own with NACK, leaves the whole bus program |
| `I2cLists.WriteStep` | linux/drivers/i2c/busses/i2c-esp32s31.c:186-200 | a WRITE with its FIFO bytes leaves the whole bus program |
| `I2cLists.NextMessage` | linux/drivers/i2c/busses/i2c-esp32s31.c:132-137 | the step to the next message leaves the program and the work |
| `I2cController.ListEnds` | linux/drivers/i2c/busses/i2c-esp32s31.c:224-226 | END or STOP makes a list of at most 8 commands, 32 and 32 FIFO bytes and fewer than 8 read entries, whose events and the rest are the program |
| `I2cController.Controller.QueueAddress` | linux/drivers/i2c/busses/i2c-esp32s31.c:147-160 | queues a RESTART and one byte whose upper bits are the address and whose bit 0 is set exactly for a read, or leaves a list that is not empty |
| `I2cController.Controller.QueueRead` | linux/drivers/i2c/busses/i2c-esp32s31.c:163-184 | queues part of a read and its destination, or leaves a list that is not empty |
| `I2cController.Controller.QueueWrite` | linux/drivers/i2c/busses/i2c-esp32s31.c:186-200 | queues part of a write, or leaves a list that is not empty |
| `I2cController.Controller.Fill` | linux/drivers/i2c/busses/i2c-esp32s31.c:203-226 | each fill gives a legal list that continues the program exactly, and strictly decreases the unaddressed messages and remaining bytes |
| `I2cController.Controller.Drain` | linux/drivers/i2c/busses/i2c-esp32s31.c:234-242 | the RX FIFO goes to the places of the read entries, and no other buffer byte changes |
| `I2cController.Controller.HandleInterrupt` | linux/drivers/i2c/busses/i2c-esp32s31.c:244-276 | each combination of interrupts: the error, the next list, or the end |
| `I2cTransfer.RunList` | linux/drivers/i2c/busses/i2c-esp32s31.c:244-276 | a list that runs brings the transfer to its end or to a smaller rest of the same program |
| `I2cTransfer.Transfer` | linux/drivers/i2c/busses/i2c-esp32s31.c:350-390 | without an error the bus has seen exactly what it has to show of the messages, and each read buffer is, byte for byte, what the device sent; with one, which is that of the first list that fails, a first part of it, also of that list, and no other bytes |
| `I2cTransfer.PartOfProgram` | linux/drivers/i2c/busses/i2c-esp32s31.c:254-273 | the events of a list that stops in the middle are the next ones of the program |
| `I2cTransfer.ProgramShape` | linux/drivers/i2c/busses/i2c-esp32s31.c:203-226 | the program of a transfer is the one of its messages, one after the other, each as in MessageShape, with one STOP at the end |
| `I2cTransfer.TransferIsUnique` | linux/drivers/i2c/busses/i2c-esp32s31.c:203-226 | the messages determine what the bus has to show: no second sequence of events has that shape |
| `I2cTransfer.MessageShape` | linux/drivers/i2c/busses/i2c-esp32s31.c:147-200 | a message shows a START, a byte with the address and bit 0 for a read, and its data: a read ACKs all bytes but the last, a write sends its bytes in order |
| `I2cTransfer.AllRead` | linux/drivers/i2c/busses/i2c-esp32s31.c:234-242 | after the last message each read buffer is what the device sent |
| `FlashMailbox.StepKeepsInv` | bootloader/components/esp_hosted/shm_flash.c:120-150 | every step of Linux, the interrupts and the flash task keeps the mailbox invariant |
| `FlashMailbox.ServedExactlyOnce` | bootloader/components/esp_hosted/shm_flash.c:119-150 | in every run the firmware serves the posted requests in order, each once, and refuses the invalid ones |
| `FlashCalls.RepliesAreOfCalls` | linux/drivers/net/wireless/espressif/esp_hosted/esp_shm_flash.c:43-56 | in every run the k-th reply goes to the k-th call: the request behind it has the command, the address, the length and, for a program, the data of that call |
| `FlashCalls.StatusesAreErrors` | bootloader/components/esp_hosted/shm_flash.c:129-139 | in every run a served request has the error of its flash operation if the firmware takes it, and else that of a bad argument |
| `FlashCalls.ReplyStep` | linux/drivers/net/wireless/espressif/esp_hosted/esp_shm_flash.c:47-63 | a call ends as refused or timed out exactly if it still finds a command in the mailbox then, and else with the status |
| `FlashCalls.RepliesAreExact` | linux/drivers/net/wireless/espressif/esp_hosted/esp_shm_flash.c:43-64 | in every run a call returns 0 exactly when the firmware takes its own request and the flash had no error for it; a late status of a request that timed out is never reported |
| `FlashProgress.WorkDecreases` | bootloader/components/esp_hosted/shm_flash.c:143-150 | each step of the two sides by themselves makes a measure of the state smaller |
| `FlashProgress.InternalRunsEnd` | bootloader/components/esp_hosted/shm_flash.c:143-150 | no endless run of such steps: their number is at most the measure |
| `FlashProgress.CallComesBack` | linux/drivers/net/wireless/espressif/esp_hosted/esp_shm_flash.c:43-64 | after any run, a call that finds the mailbox free comes back by the work of the two sides alone, with 0 exactly when the firmware takes the request and the flash has no error |
| `FlashMailbox.PostingsDiffer` | linux/drivers/net/wireless/espressif/esp_hosted/esp_shm_flash.c:42-64 | no two calls report the same posting, and none the one of the call that runs |
| `FlashMailbox.OpenRequestIsStable` | linux/drivers/net/wireless/espressif/esp_hosted/esp_shm_flash.c:46-56 | while the command word is set, no step changes the address, the length or the data |
| `FlashMailbox.AtRestNothingWaits` | bootloader/components/esp_hosted/shm_flash.c:143-150 | no lost wake-up: when no side can take a step, the mailbox is free, every request is served and no call waits |
| `FlashMtd.ChunkIsValid` | linux/drivers/net/wireless/espressif/esp_hosted/esp_shm_flash.c:88-93 | each block of a write inside the window passes the firmware's check, and ends with the write or at a multiple of the mailbox size |
| `FlashMtd.ProgramIsValid` | bootloader/components/esp_hosted/shm_flash.c:109-117 | the firmware takes a program if and only if its bytes are inside the window, the mailbox and one sector; no command but program and erase passes |
| `FlashMtd.ProgramBits` | bootloader/components/esp_hosted/shm_flash.c:57-64 | a program clears bits and sets none: a bit stays set exactly if the buffer has it set too, and no byte outside of the range changes |
| `FlashMtd.ProgramJoins` | linux/drivers/net/wireless/espressif/esp_hosted/esp_shm_flash.c:87-99 | two programs side by side are one |
| `FlashMtd.Window.Command` | bootloader/components/esp_hosted/shm_flash.c:109-141 | a request changes the flash only inside its range, only if it is valid, and as a NOR flash does |
| `FlashMtd.Window.Write` | linux/drivers/net/wireless/espressif/esp_hosted/esp_shm_flash.c:79-101 | on success the window is the old one programmed with the buffer; on an error exactly the reported prefix is, and only the next block can differ; the requests are the blocks in order, and each is valid |
| `FlashMtd.Window.Erase` | linux/drivers/net/wireless/espressif/esp_hosted/esp_shm_flash.c:103-121 | on success all blocks from the start are erased and nothing else; on an error those before the failing address |
| `FlashMtd.EraseCoversExactly` | linux/drivers/net/wireless/espressif/esp_hosted/esp_shm_flash.c:110-113 | the erase covers exactly its request if and only if the length is a multiple of the erase block |
| `FlashMtd.EraseGoesPast` | linux/drivers/net/wireless/espressif/esp_hosted/esp_shm_flash.c:110-113 | the bytes after the request up to the end of the last block are all set, so that data after the request is lost if and only if one of them was not 0xff |
| `FlashMtd.EraseOneByte` | linux/drivers/net/wireless/espressif/esp_hosted/esp_shm_flash.c:110-113 | a window of zeros where the erase of one byte changes the byte after it |
| `FlashContents.DoneIsInFlash` | bootloader/components/esp_hosted/shm_flash.c:119-141 | in every run a reply of 0 to a call means that the flash has done what this very call asked for, after all requests served before it, also those whose calls timed out |
| `FlashContents.ReplyIsCurrent` | linux/drivers/net/wireless/espressif/esp_hosted/esp_shm_flash.c:57-63 | when the last call sees its reply of 0, the window is the one with the request of this call done, and nothing was served after it |
| `FlashContents.OtherBytesStay` | bootloader/components/esp_hosted/shm_flash.c:119-141 | in every run a served request changes at most the bytes that it names, also after a timeout or an error, and none if the firmware does not take it |
| `FlashContents.WriteIsInFlash` | linux/drivers/net/wireless/espressif/esp_hosted/esp_shm_flash.c:79-101 | when calls that ask for all blocks of a buffer return 0, the window is the one before them programmed with the buffer, whatever timeouts and errors came earlier |
| `FlashContents.WroteIsIssued` | linux/drivers/net/wireless/espressif/esp_hosted/esp_shm_flash.c:87-99 | these calls are those that the write loop issues |
| `FlashMtd.EraseThenWrite` | linux/drivers/net/wireless/espressif/esp_hosted/esp_shm_flash.c:79-121 | an erase and then a write store exactly the buffer, whatever the flash held before |
| `FlashMtd.BlockIsValid` | bootloader/components/esp_hosted/shm_flash.c:109-114 | the firmware takes a block erase if and only if it is aligned and inside the window |
| `CacheLock.AllowedExactly` | opensbi/platform/esp32s31/platform.c:466-477 | the check with the 32-bit sum lets an invalidate pass if and only if it is a range of memory outside of OpenSBI |
| `CacheLock.VendorExtMeaning` | opensbi/platform/esp32s31/platform.c:454-503 | for each function number: the cache, the range, the operation and its passes; new code is written back before the I-cache drops it; an invalidate that touches OpenSBI, and each other number, fails |
| `CacheLock.StepKeepsInv` | bootloader/components/esp_hosted/shm_flash.c:82-97 | every step of the two harts and of the engine keeps the lock, the registers and the history consistent |
| `CacheLock.OperationsAreSerial` | opensbi/platform/esp32s31/platform.c:433-451 | in every run the started operations are those of whole calls one after the other: four register values of one call, and its passes side by side |
| `CacheLock.CallsRunOnce` | opensbi/platform/esp32s31/platform.c:433-451 | in every run the syncs that the firmware and the accepted vendor calls ask for are done in order, each once |
| `CacheLock.EngineIsIdleAtStores` | bootloader/components/esp_hosted/shm_flash.c:90-95 | in every run no register of the engine is stored while it works |
| `CacheLock.InvalidatesSpareOpenSbi` | opensbi/platform/esp32s31/platform.c:466-477 | in every run no D-cache invalidate of OpenSBI touches the memory of OpenSBI |
| `CacheLock.NoDeadlock` | opensbi/platform/esp32s31/platform.c:439-450 | in every run the holder of the lock, or else a hart that waits for it, can get on |
| `CacheLock.AtRestAllIsDone` | opensbi/platform/esp32s31/platform.c:439-450 | when no step gets on, all calls of both harts are done and the lock is free |
| `TimerHalves.TimerValue` | opensbi/platform/esp32s31/platform.c:313-324 | with any monotone counter the loop ends, and the result is the counter at the last read of the low word |
| `TimerHalves.Mtimer.EventStart` | opensbi/platform/esp32s31/platform.c:326-335 | with any ticks between the stores, exactly when the interrupt is latched: the new event is due, or the old one came before the first store of the high word, but for a lost or an early event |
| `TimerHalves.LatchedIsDue` | opensbi/platform/esp32s31/platform.c:331-334 | the latch is right if and only if no event is lost or early, which needs the maximum in the high word of the counter |
| `TimerHalves.EarlyAndLost` | opensbi/platform/esp32s31/platform.c:331-334 | counters at that maximum where an event is early, and where one is lost |
| `TimerHalves.Mtimer.EventStop` | opensbi/platform/esp32s31/platform.c:337-342 | no match before the last value of the counter |
| `TimerHalves.NoHalfWrittenMatch` | opensbi/platform/esp32s31/platform.c:331-334 | the maximum in the high word hides each low word, exactly below that value of the counter |
| `Varint.DecodeEncode` | tools/ble-ha/api.c:19-29 | what is read from an encoded value and any bytes after it is the value |
| `Varint.ReadStable` | tools/ble-ha/api.c:131-144 | more bytes do not change what was read, and fewer are incomplete |
| `Varint.PbVarint` | tools/ble-ha/api.c:19-29 | the loop writes the varint |
| `Varint.ReadAt` | tools/ble-ha/api.c:131-144 | the loop with shifts in 32 bits reads the value modulo 2^32, or says incomplete, or bad after five bytes |
| `ApiStream.Next` | tools/ble-ha/api.c:147-171 | api_next() finds the first frame of the buffer |
| `ApiStream.ApiFrame` | tools/ble-ha/api.c:64-74 | api_frame() writes the frame |
| `ApiStream.FirstOfFrame` | tools/ble-ha/api.c:64-74 | reading inverts framing, whatever comes after the frame |
| `ApiStream.FirstStable` | tools/ble-ha/api.c:147-171 | a frame that is cut is incomplete, and one with bytes after it is the same |
| `ApiStream.BadFrame` | tools/ble-ha/api.c:155-166 | a length above 4096 is refused before its message is there, and so is a frame without its zero byte |
| `ApiStream.MessagesMean` | tools/ble-ha/ble-ha.c:515-547 | over a list of messages that do not end the connection: each request gets the answer of its type, in order, and the client is subscribed exactly if the last message about it was 66 and not 87 |
| `ApiStream.ClosingMeans` | tools/ble-ha/ble-ha.c:500-526 | the first disconnect request, or answer that the socket does not take, closes the client: nothing after it is handled, and the disconnect request has its answer if the socket took it |
| `ApiStream.MessagesAppend` | tools/ble-ha/ble-ha.c:564-575 | parsing goes on from the leftover as if the buffer had come at once |
| `ApiStream.ChunksDoNotMatter` | tools/ble-ha/ble-ha.c:549-576 | however a stream of frames of at most 1024 bytes is cut, the client handles the complete frames as if they were decoded one by one, is never closed as full, and recv() always has room |
| `ApiStream.FrameIsFrame` | tools/ble-ha/api.c:64-74 | the frames of api_frame() are frames of such a stream |
| `ApiStream.Client.Read` | tools/ble-ha/ble-ha.c:549-576 | over the array buffer: each complete message is handled in order, the client closes on the end of the stream, a bad frame or a full buffer, and exactly the bytes after the last message stay |
| `AdvPipeline.ParseAdvReports` | tools/ble-ha/hci.c:19-43 | the loop gives each whole report of legal size up to the first other one, at most the maximum |
| `AdvPipeline.ParsedEvent` | tools/ble-ha/hci.c:14-43 | each well-formed event gives its reports in order: address, type, data and signed RSSI |
| `AdvPipeline.ZigzagRoundTrip` | tools/ble-ha/api.c:116-117 | the zigzag of a signed byte is undone, and fits in a byte |
| `AdvPipeline.ApplyFields` | tools/ble-ha/api.c:120-123 | the fields that are sent, with the defaults for the others, are the advertisement |
| `AdvPipeline.MessageRoundTrip` | tools/ble-ha/api.c:108-129 | a protobuf reader gets the whole batch back |
| `AdvPipeline.MessageSize` | tools/ble-ha/api.c:108-129 | a message is not longer than its address types allow: 46 bytes for type 0, 48 below 128, and 49 from 128 on |
| `AdvPipeline.MessageFits` | tools/ble-ha/ble-ha.c:610-615 | n advertisements with types below 128 take at most 48 * n bytes, and fewer than 16 of any types fit in the buffer |
| `AdvPipeline.LargestEntry` | tools/ble-ha/api.c:114-127 | an advertisement with a large address, a strong or weak RSSI and 31 bytes of data takes all of its room |
| `AdvPipeline.FitsExactly` | tools/ble-ha/ble-ha.c:610-615 | every batch with some address types fits in the message buffer if and only if their largest entries do |
| `AdvPipeline.LongMessage` | tools/ble-ha/ble-ha.c:610-615 | a batch of 16 that takes 784 bytes, for a buffer of 768 |
| `AdvPipeline.EventRoundTrip` | tools/ble-ha/ble-ha.c:420-425 | what a reader gets for a well-formed event is its first eight reports |
| `AdvPipeline.AdvBatch` | tools/ble-ha/api.c:108-129 | the loop writes the message whose decoding is the batch |
| `AdvPipeline.Proxy.LeMeta` | tools/ble-ha/ble-ha.c:420-425 | the reports join the batch in order, up to 16 |
| `AdvPipeline.Proxy.FlushBatch` | tools/ble-ha/ble-ha.c:608-621 | the message decodes to the batch, the batch is empty after it, and the message fits in its buffer if the batch is not full or its largest entries fit |
| `Protobuf.DecodeEncode` | tools/ble-ha/api.c:31-57 | reading inverts writing, for each list of fields |
| `GattTable.DbIsWellFormed` | tools/ble-ha/gatt.c:43-63 | the table has UUIDs of 2 or 16 bytes, and no value has the type of a declaration |
| `GattTable.DbHandles` | tools/ble-ha/gatt.c:77-80 | the handles that the server knows by number are the descriptors and values of its table |
| `GattTable.DbShape` | tools/ble-ha/gatt.c:43-63 | each declaration stands before its value, with the same properties and UUID, and exactly the values with notifications have a descriptor after them |
| `GattTable.ImprovUuidIs` | tools/ble-ha/gatt.c:30-33 | the bytes of an Improv UUID are, from the last one, those of 00467768-6228-2272-4663-2774782680XX |
| `GattTable.DbReads` | tools/ble-ha/gatt.c:112-158 | over its table exactly the RPC command cannot be read, and no value is longer than 64 bytes |
| `GattServer.DbWrites` | tools/ble-ha/gatt.c:304-319 | over its table a write is taken exactly for the RPC command and for a descriptor with two bytes, and which error the others get |
| `GattServer.WriteAnswers` | tools/ble-ha/gatt.c:350-362 | the response to each write, byte for byte, and the data that goes to the RPC command; a Write Command has no response |
| `GattServer.RunStores` | tools/ble-ha/gatt.c:304-343 | over each sequence of requests a descriptor has the bytes of the last write to it, the MTU is what the last client request asked for, from 23 to the limit, and no other value changes |
| `GattServer.Refusals` | tools/ble-ha/gatt.c:327-389 | the requests that do nothing: too short, not supported, or commands, each with its error response or none |
| `GattTable.FindGroupEnd` | tools/ble-ha/gatt.c:181-188 | the loop finds the last handle before the next service |
| `Gatt.FillByType` | tools/ble-ha/gatt.c:191-234 | the loop gives the entries of one length that fit, or the error |
| `Gatt.FillInfo` | tools/ble-ha/gatt.c:236-259 | the loop gives the handles and types of one length that fit, or the error |
| `Gatt.ScanIsPrefix` | tools/ble-ha/gatt.c:262-281 | the scan, which skips a service without room, gives the first services with the UUID that fit, in order and without a gap, each with its group end |
| `Gatt.FillByValue` | tools/ble-ha/gatt.c:262-281 | the response has the first services of the range with the UUID that fit, without a gap, or the error; GattClient.DiscoveryIsComplete shows that a client gets all of them |
| `Gatt.Server.Handle` | tools/ble-ha/gatt.c:322-389 | over the fields and the buffer of the server, each request gives the response, the new state and the RPC write for which the results on limits, discovery and long reads are proved |
| `Gatt.Server.Prepare` | tools/ble-ha/gatt.c:363-376 | a Prepare Write adds to the buffer only for the RPC command, in order and in its room |
| `GattServer.RunKeepsLimits` | tools/ble-ha/gatt.c:321-389 | over each sequence of requests the MTU stays from 23 to its maximum, at most 128 bytes are prepared, and each response fits in the room and in the MTU at its request |
| `GattClient.DiscoveryIsComplete` | tools/ble-ha/gatt.c:181-281 | with any well-formed table and any MTU, a client that goes on after the last entry terminates and gets each service with its group end, each declaration, each handle, or each service with a UUID and its group end, exactly once and in order |
| `GattClient.ImprovIsFound` | tools/ble-ha/gatt.c:43-63 | so also with the table of this server |
| `GattClient.EntryMeans` | tools/ble-ha/gatt.c:219-225 | what a client reads from an entry: handle, group end and UUID; or properties, value handle and UUID; or type |
| `GattClient.LongReadIsExact` | tools/ble-ha/gatt.c:283-301 | a Read and Read Blobs at growing offsets terminate with the whole value, for each length and MTU |
| `GattClient.ImprovIsRead` | tools/ble-ha/gatt.c:112-158 | what a client reads from each handle of this server but the RPC command: the name, the appearance, the state, the error, the result, the capabilities, the descriptors, the services and the declarations |
| `GattClient.DescriptorIsRead` | tools/ble-ha/gatt.c:304-313 | over a connection, a client reads from a descriptor the bytes of the last write to it, and 0 before |
| `GattClient.ReadIsRefused` | tools/ble-ha/gatt.c:283-295 | the error for a handle that is not there, for the RPC command, and for an offset past the end |
| `AclLink.FragmentsDoNotMatter` | tools/ble-ha/ble-ha.c:387-411 | however an L2CAP frame of at most 256 bytes is cut into a start and continuations, it arrives once and unchanged, whatever an earlier frame left |
| `AclLink.SendReceive` | tools/ble-ha/hci.c:75-91 | receiving inverts sending: a packet of hci_acl_frame() is its channel and its data |
| `AclLink.SendHeader` | tools/ble-ha/hci.c:75-91 | a sent packet has the packet type, the twelve bits of the handle, no boundary or broadcast bits, and the size of the rest |
| `AclLink.Link.Receive` | tools/ble-ha/ble-ha.c:387-411 | over the array buffer: a start drops what was left, a packet that does not fit drops the frame, and a frame is passed on exactly when its length is reached |
| `Improv.ParsePacket` | tools/ble-ha/improv.c:53-74 | each valid packet is its command, with the same SSID and passphrase |
| `Improv.ParsePart` | tools/ble-ha/improv.c:57-61 | a part of a valid packet is incomplete |
| `Improv.ParseSound` | tools/ble-ha/improv.c:34-74 | nothing else is accepted: a complete packet is the packet of a valid command |
| `Improv.Checksum` | tools/ble-ha/improv.c:12-19 | the loop gives the low byte of the sum |
| `Improv.ValidPass` | tools/ble-ha/improv.c:22-32 | the loop accepts no passphrase, or 8 to 63 printable characters |
| `Improv.ReadPacket` | tools/ble-ha/improv.c:53-74 | improv_parse() accepts exactly the packets of valid commands, and gives the number of its other results |
| `Improv.WritesDeliver` | tools/ble-ha/ble-ha.c:314-339 | however a valid packet is cut into writes, it is exactly one command |
| `Improv.ErrorAfterWrite` | tools/ble-ha/ble-ha.c:314-339 | the error value after a write: 1 when it does not fit, 2 for an unknown code, 0 for a command, and unchanged when it is only kept |
| `Improv.CompletedWrite` | tools/ble-ha/ble-ha.c:320-336 | a write that completes the declared length empties the buffer if and only if length and checksum are right and the bytes are the packet of a valid command or the code is unknown; it is a command only in the first case |
| `Improv.InvalidStays` | tools/ble-ha/ble-ha.c:320-329 | any further writes only add to an invalid packet, and none is a command, as long as they fit |
| `Improv.OverflowFrees` | tools/ble-ha/ble-ha.c:320-324 | the write that no longer fits is lost and empties the buffer |
| `Improv.InvalidIsReached` | tools/ble-ha/improv.c:62-63 | a packet with a wrong checksum that stays, so that the right packet after it is not heard |
| `Improv.Receiver.RpcWrite` | tools/ble-ha/ble-ha.c:314-339 | over the array buffer: a write is kept while the packet is incomplete, and else the buffer is empty; a command is handed on exactly when its packet is complete |
| `BleServer.PacketsAreFrames` | tools/ble-ha/ble-ha.c:363-411 | the packets do what their reassembled frames do |
| `BleServer.PlainWritesDeliver` | tools/ble-ha/ble-ha.c:314-411 | a valid packet in any plain writes, each in any ACL fragments, is exactly one command with the same SSID and passphrase |
| `BleServer.PreparedWritesDeliver` | tools/ble-ha/gatt.c:363-383 | the same for Prepare Writes of any parts and an Execute Write |
| `BleServer.ErrorIsRead` | tools/ble-ha/ble-ha.c:314-339 | after any plain writes a client reads, at the handle of the error, the value of the last write that was not only kept |
| `BleServer.OtherChannels` | tools/ble-ha/ble-ha.c:363-385 | a frame of another channel, in any fragments, does not reach the ATT server |

## Left out

Assumptions and abstractions:

- Kernel, FreeRTOS and IDF functions are abstract: a binary semaphore is a flag, a work item that is queued while it runs runs again, a mutex admits one call, `esp_flash_*` is a NOR flash that can fail.
- The size of the payload header is the constant 12, the `sizeof` of the packed structure; its fields are part of the frame bytes.
- One producer and one consumer for each ring, as docs/internals.md says; the memory is sequentially consistent, weak orderings without the fences are not modelled.
- Frames are from 12 bytes to the maximum of their direction, as the callers ensure.
- In `TwoHarts` the transport is running: probe, remove, recovery and boot events of the transport are not modelled, nor is the host request word, its read-modify-write, or power-off.
- The doorbell bits of other users (`OtherDoorbell` of the mailbox) can come at any time.
- `Progress.EverythingArrives`: the firmware gets memory for the frames of Linux; without memory it tries again for ever, as the source does.
- `HostTx.Transmitter.Flush`: only whole reads of the firmware come between the two tries of a flush; the finer interleaving is in `TwoHarts`.
- `HostTx.Transmitter.PushTwice`: as for the flush.

I2C:

- `I2cTransfer.Transfer`: the reset of the controller and the pulses that free the bus after an error are not modelled.
- Timing registers, and `I2C_M_*` flags other than read and ten-bit.

Flash:

- A read of the window is a copy under the same lock; after a timeout it can see a program or erase that still runs.
- `FlashMtd.Window.Command`: the answer of the mailbox is a parameter, and after a timeout the bytes of the request can be anything; `FlashContents` has what the flash holds then in a run of the mailbox.
- `FlashMtd.Window.Write`: the range is in the window, which the MTD core checks; what a request does after its timeout is in `FlashContents`.

Cache and timer:

- The ROM functions of the firmware are a call with any registers and any number of passes; the time before the cache is shared has one hart and no lock.
- `CacheLock.NoDeadlock`: the spin has no fairness, so a hart can wait for ever while the other one takes the lock again and again.
- `TimerHalves.Mtimer.EventStart`: the counter does not wrap.

Bluetooth tools:

- Sockets, poll, D-Bus, wpa_supplicant, LED, timers and notifications. The answers of `client_message()` are their types, not their bytes.
- L2CAP frames over 256 bytes, stray continuations of other frames, the signaling and security channels.
- Read By Type of a value that is longer than the room, and Read By Group Type with another type than 0x2800: they are modelled as the code is, but no result is claimed.
- `Improv.Receiver.RpcWrite`: the commands are those handed to `improv_command()`; what that does with them, and its own changes of the state, the error and the result, is not modelled.
- `BleServer`: the connection complete event, which empties the buffers, is the start state of the results.
- `Varint.ReadAt`: the or of shifted groups is a sum, as no bit is in two groups.
- Writers return their bytes instead of moving a pointer through the caller's buffer; the sizes of those buffers are covered by the size results.
