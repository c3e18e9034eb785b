# A verified model of the TEE test client and its sample trusted application

The system is a remote-call protocol.  A client program fills a request buffer, hands it to one of five
transports (QSEE, iSee, Kinibi, Trusty, GlobalPlatform), and reads a reply buffer that the router of the trusted
application has filled.  Behind the router are storage, SPI, MAC and token functions, one copy per platform, on top
of vendor libraries.  This project models that system and proves what its users rely on.

Vendor calls are operations with explicit outcomes: every return code is an argument, so each theorem holds for
every pattern of failures.  Handles are typestate (`Vendor`): using or closing one that is not open, closing one
twice, or closing a storage session before its files cannot verify.

## Parts

- `KinibiProtocol`: `kinibi_cmd` and `tlMain` as a transition system.  Any number of client threads, a mutex, the
  shared buffer and the service loop interleave byte by byte.  An inductive invariant over program counters, lock
  owner, notifications and memory gives linearizability for every run without an expired wait, and a
  counterexample for every expired wait.
- `TrustyProtocol`: `trusty_cmd` over its message channel, for any number of threads and whatever fails: whose reply
  a successful call holds, and which failed reads do harm.
- `CriticalSection`, `SynchronousTransports`: what the mutex gives any body of calls, for any number of threads; and,
  with it, the three transports that call the application synchronously.
- `Transports`: the five `*_cmd` functions and the entry points they reach, as methods over byte arrays in which
  `in` and `out` may lie anywhere as long as they do not overlap.  A call over shared memory is one atomic router
  call; a call over Trusty's channel is one if nothing was left unread on it.
- `TrustedApp`, `StoreTheory`: router, storage and SPI code run against the vendor services and proved equal to
  specification functions; then theorems about whole runs of those functions.
- `Mac`, `Token`: HMAC over an abstract hash, the chunked computation, the comparison loops, the token loops.
- `TrustyEvents`: the accept-then-serve event loop.
- `Driver`, `DriverSession`: the test driver's loop and statistics; then driver and router closed into one system, in
  which calls may be lost on the way there or back, and what decides whether a session ends with RELEASE.
- `Words`, `Layout`, `Wire`, `EndToEnd`: the two structures as bytes, the router as a function of bytes, and
  theorems from a client call, or a Trusty message, down to the files.

## Departures of the code from its evident intent

The model keeps the code as it is, and a lemma says when it fails the intent.  For the first five departures the
intended form is verified beside it; for the others only the exact condition is given.

- `g_perf` is never assigned (sample_hal/tee_test.c:22): `MainAsWritten` always faults and never sends RELEASE;
  `MainCorrected` binds it.  `print_data` divides by zero unless all five commands occurred.
- `read_test` passes a `uint32_t *` as `size_t *` (sampleta/src/hw_core.c:39).  The parameter `wide` tells a
  64-bit `size_t` from a 32-bit one; when wide, a read clears the first four bytes it delivers.  `Layout.SizeLoad`
  and `Layout.SizeStore` derive this from the byte layout.
- iSee storage takes every positive descriptor for an error (sampleta/platform/isee/isee.c:123-125): only
  descriptor 0 works, all others leak.  `Isee(true)` is iSee with the test `< 0`: it leaks nothing and stores what
  QSEE stores.
- `trusty_accept` assigns its parameter (sampleta/platform/trusty/trusty.c:219): `passesBack` tells the two programs apart.
- `try` is never decremented on iSee and Trusty (sampleta/platform/isee/isee.c:58): `counts` tells the two loops apart.
- A wait that expires in `kinibi_cmd`, or a read that fails in `trusty_cmd`, leaves a request in flight
  (sample_hal/platform/kinibi.c:37-38, sample_hal/platform/trusty.c:32-33): runs without such a failure are
  linearizable, and every such failure can make a later call return a wrong reply with success.
- Only reads set the reply length that the first read needs (sampleta/src/hw_core.c:39).  With a 32-bit `size_t`, a
  reply length of zero at the start and replies that come back, the first read of a session is refused, the test
  loop ends there, and RELEASE is never sent, even with `g_perf` bound.  On QSEE and iSee `init` sets that zero
  (sample_hal/tee_test.c:37-39); on Trusty the router's reply buffer is never cleared
  (sampleta/platform/trusty/trusty.c:149-156), and a session can end there if it starts with any other length.
- Elapsed time ignores `tv_sec` (sample_hal/tee_test.c:105): right exactly within one second.
- `BUF_LEN` has no parentheses (sample_hal/inc/platform_common.h:20): payload lengths are multiples of 32.
- The driver ignores what `tee_cmd` returns (sample_hal/tee_test.c:103): a dead transport passes the test.
- Trusty verification tests a `sys_err` that the computation never assigns (sampleta/platform/trusty/trusty.c:74).
- Trusty writes check neither a short transfer nor the commit (sampleta/platform/trusty/trusty.c:108-112).
- `gp_cmd` copies the reply window out whatever the status (sample_hal/platform/gp.c:45).
- `qsee_i2c_rw` overwrites the error code of a failed transfer (sampleta/platform/qsee.c:67).
- A Trusty message of the wrong size, or whose put fails, is never released (sampleta/platform/trusty/trusty.c:189-197).

## Model

| member | source | states |
|---|---|---|
| KinibiProtocol.Linearizable | sample_hal/platform/kinibi.c:30-43 | over every interleaving of any number of clients with the service loop, notification failures included, if no wait expires: every returned call is explained by executing the calls one at a time in order of return, a successful one getting exactly the router's reply to its own request, a failed one leaving its buffer alone; between calls device and window are that execution's result, and the router ran once per success |
| KinibiProtocol.LockSafety | sample_hal/platform/kinibi.c:32-41 | over every run, expired waits included, at most one client is between lock and unlock, locks and unlocks of each client balance, and each returned call unlocked exactly once |
| KinibiProtocol.RouterRunsUnderLock | sampleta/src/app_main.c:56-62 | without expiries, whenever the service loop is active a client holds the lock and waits, its request is in the shared buffer, and what the router is about to read is that client's request |
| KinibiProtocol.RoutedOncePerSuccess | sampleta/src/app_main.c:57-61 | from any state of the invariant, router calls during a run equal successful returns during it, up to the one call in flight |
| KinibiProtocol.RunKeepsClean | sample_hal/platform/kinibi.c:34-39 | the inductive invariant over lock owner, program counters, notifications, copies in progress, shared memory and history is kept by every run without expiry |
| KinibiProtocol.StepKeepsClean | sample_hal/platform/kinibi.c:34-39 | every single step other than a failed wait keeps that invariant |
| KinibiProtocol.WaitingCallCanFinish | sample_hal/platform/kinibi.c:37-39 | no deadlock: from any such state a waiting call can finish, and then returns success with the router's reply to its own request |
| KinibiProtocol.EveryExpiryCanMisdeliver | sample_hal/platform/kinibi.c:37-38 | the proviso is needed at every wait: whenever a wait fails, some continuation without further failures gives the same thread's next call success together with the reply to its abandoned request, its new request never having been routed |
| KinibiProtocol.StaleReplyRun | sample_hal/platform/kinibi.c:37-41 | a complete run from a fresh session that ends with such a wrong reply |
| KinibiProtocol.LogIsHistory | sample_hal/platform/kinibi.c:35-42 | over every run, expired waits included, each return is logged once, told from the events alone: who called, with which request, and the very code the vendor returned to that call from its failed notification or from its wait, 0 for a good one |
| Align.AlignIsLeastExactly | sample_hal/inc/qsee/QSEEComAPI.h:26-29 | on 32-bit words the rounded length covers the original if and only if it does not wrap, and is then the least multiple of 64 that does |
| Align.AlignIdempotent | sample_hal/inc/qsee/QSEEComAPI.h:28-29 | rounding a rounded length changes nothing |
| Align.QseeLengths | sample_hal/platform/qsee.c:19-20 | the rounded QSEE lengths relative to the two structures and to the driver's single buffer |
| Words.LeFour | sample_hal/inc/platform_common.h:26 | the four bytes of a word, lowest first |
| Transports.Client.KinibiCmd | sample_hal/platform/kinibi.c:30-43 | seen by one thread: one atomic router call on the request, in unchanged, out changed only on success and then the reply, the mutex taken and released once on every path |
| Transports.Client.GpCmd | sample_hal/platform/gp.c:39-48 | the same through the registered memories; the reply window is copied out whatever the status |
| Transports.Client.IseeCmd | sample_hal/platform/isee.c:32-41 | the same through the global header, with the reply written right behind the request: it is in the caller's out if out lies there, as init places it, and out is untouched if it lies clear of that window |
| Transports.Client.QseeCmd | sample_hal/platform/qsee.c:29-36 | the same through the rounded windows; the application's length guards always pass |
| TrustyProtocol.RepliesInEveryRun | sample_hal/platform/trusty.c:26-37 | over every interleaving of any number of threads with the application, whatever writes, reads and replies fail and whatever requests are dropped: one thread at a time holds the lock; each successful call holds the answer to its own or an earlier request; answers are taken in order, each at most once; and it is its own if and only if all replies sent to earlier requests had been taken |
| TrustyProtocol.TrustyLinearizable | sample_hal/platform/trusty.c:26-37 | if no read fails: every successful call got the router's reply to its own request when the requests are taken one at a time in the order written; failed writes, short reads, replies that could not be sent and dropped requests do not disturb this |
| TrustyProtocol.RepliesShiftExactly | sample_hal/platform/trusty.c:30-33 | if every reply is sent: each successful call holds the reply to the request as many places before its own as reads had failed when it wrote, so its own request's if and only if none had; that number never falls from one successful call to the next, for any thread |
| TrustyProtocol.FailedReadHarmsExactly | sample_hal/platform/trusty.c:32-33 | after any run, a failed read can make some later call succeed with an answer that is not its own, no further read failing, if and only if the session still owes something at that moment |
| TrustyProtocol.StepKeepsInv | sample_hal/platform/trusty.c:28-35 | the inductive invariant over lock, both queues, history and finished calls is kept by every step, every kind of failure included |
| TrustyProtocol.AfterIsServed | sampleta/platform/trusty/trusty.c:181-206 | device and reply buffer after any fates are those of the event loop serving, in order, the requests that were not dropped |
| TrustyProtocol.LogIsHistory | sample_hal/platform/trusty.c:27-36 | over every run, told from the events alone: each return is logged once with its caller and request, status 0 exactly after a full read and -1 otherwise; failed writes and reads leave out alone, and a short read reaches only the bytes it got |
| CriticalSection.Serializable | sample_hal/platform/gp.c:41-46 | for any body of calls and any number of threads: one thread between lock and unlock, locks and unlocks balance, and every finished call ends as it does when the finished calls run one at a time in order of release |
| CriticalSection.LogIsHistory | sample_hal/platform/gp.c:41-46 | each release is logged once, with the call it ends and exactly the steps its thread took since its call began |
| SynchronousTransports.GpCallsAreAtomic | sample_hal/platform/gp.c:39-48 | over every interleaving each gp_cmd call is one atomic router call on its own request, or none if it did not get through; its status is what the vendor returned, and the registered reply window comes back either way |
| SynchronousTransports.IseeCallsAreAtomic | sample_hal/platform/isee.c:31-41 | over every interleaving each isee_cmd call, which stores its address and length in the global header and then goes through it, is one atomic router call on its own request into its own window, or none; its status is what the ioctl returned |
| SynchronousTransports.HeaderRace | sample_hal/platform/isee.c:35-37 | without the lock: if another caller stores its address before the ioctl, the first is told success while the router saw the other's request and its own window is untouched |
| SynchronousTransports.SendsAreAtomic | sample_hal/platform/qsee.c:29-36 | over every interleaving each qsee_cmd call, whose one step is the vendor call on the caller's own windows, is one atomic router call or none, and its status is what the vendor returned |
| Transports.Client.TrustyCmd | sample_hal/platform/trusty.c:26-37 | seen by one thread, for every outcome of write and read and however far the application gets: what the call does to both queues of the channel, to the application and to out; it succeeds exactly on two full transfers, and a read takes the oldest unread reply |
| Transports.OwnReplyExactly | sample_hal/platform/trusty.c:30-33 | whose reply that is: if nothing was owed when the call began, the router's reply to its own request, leaving nothing owed; otherwise, if no reply is lost, the oldest one owed |
| Transports.Client.TrustyCmdInStep | sample_hal/platform/trusty.c:26-37 | on a channel that owes nothing a successful call is one atomic router call, and the channel owes nothing after it |
| Transports.Client.TrustyCmdOutOfStep | sample_hal/platform/trusty.c:26-37 | two calls: the read of the first fails after the application answered, and the second returns success with the reply to the first |
| Transports.Client.AppRuns | sampleta/platform/trusty/trusty.c:181-205 | the application takes up any number of waiting requests in order, each with at most one router call and at most one reply |
| Transports.ServeOneExactly | sampleta/platform/trusty/trusty.c:193-205 | fate by fate: a dropped request touches nothing, one whose reply is lost touches device and reply buffer, and only a reply that is sent joins the queue |
| Transports.Init | sample_hal/tee_test.c:32-47 | OK if and only if allocation, opening and transport init succeed; both buffers are then zeroed (the memory behind the transports holds anything), apart, out right behind in as isee_cmd needs, and QSEE's rounded windows lie inside the device structure |
| Transports.Ta.TzAppCmdHandler | sampleta/src/app_main.c:26-39 | the command is routed if and only if both lengths suffice and neither pointer is null, else nothing changes |
| Transports.Ta.InvokeCommandEntryPoint | sampleta/src/app_main.c:82-101 | success if and only if sizes, parameter types and command number all match, and then one atomic router call, else nothing changes |
| Transports.Ta.UtPfFpInvokeCommand | sampleta/src/app_main.c:122-132 | success if and only if the length is that of both structures; the reply goes right behind the request |
| Transports.Ta.Serve | sampleta/src/app_main.c:128-130 | copying the request and routing is one atomic router call that changes only the reply window, even when both windows share a buffer |
| Transports.WindowAndSpliceExactly | sample_hal/platform/kinibi.c:34-39 | which bytes a copy reads and which it changes |
| TrustedApp.Ta.QseeWrite | sampleta/platform/qsee.c:132-143 | for every vendor outcome the write has its specified effect on store and reply, and leaves the open descriptors as they were |
| TrustedApp.Ta.QseeRead | sampleta/platform/qsee.c:145-165 | likewise for the read, including the size written back when the read is refused |
| TrustedApp.Ta.IseeWrite | sampleta/platform/isee/isee.c:119-130 | likewise, with the open test as written (a positive descriptor is reported as an error and stays open) or as intended |
| TrustedApp.Ta.IseeRead | sampleta/platform/isee/isee.c:132-152 | likewise for the read |
| TrustedApp.Ta.TrustyWrite | sampleta/platform/trusty/trusty.c:98-115 | for every outcome of session, open, transfer and commit the write has its specified effect, and no session or file stays open |
| TrustedApp.Ta.TrustyRead | sampleta/platform/trusty/trusty.c:117-143 | likewise for the read |
| TrustedApp.Ta.TrustyFetch | sampleta/platform/trusty/trusty.c:128-135 | the part of it while the file is open |
| TrustedApp.Ta.SpiRw | sampleta/platform/qsee.c:30-47 | the bus is closed again after every outcome, and the reply is that of the specification StoreTheory.SpiExactly spells out |
| TrustedApp.Ta.I2cRw | sampleta/platform/qsee.c:49-69 | the bus is closed again, status is OK if and only if all three calls succeeded, a good transfer's bytes are in the payload, and the code kept is that of the open or of the close, never of the transfer |
| TrustedApp.Ta.TaRouter | sampleta/src/hw_core.c:61-69 | the dispatch, through each platform's own functions, has the specified effect on store, reply, liveness and descriptors; sessions and buses end closed |
| TrustedApp.Ta.ServeAll | sampleta/src/hw_core.c:52-69 | conservation over whole runs, whatever fails: sessions and buses end closed, and store, reply and open descriptors are those of the run's specification |
| TrustedApp.StoreLen | sampleta/src/hw_core.c:39 | after the size is stored through the pointer it reads back through it, whatever the width of size_t; status and the payload from byte 4 on are untouched |
| TrustedApp.LiveExactly | sampleta/src/hw_core.c:47-50 | after any run the device structure is allocated if and only if it was before and no RELEASE was served |
| TrustedApp.RouterKeepsStoreFits | sampleta/src/hw_core.c:32-40 | whatever the vendor does, every stored file still fits a reply payload |
| StoreTheory.FetchExactly | sampleta/platform/qsee.c:154-164 | when exactly a read succeeds, which code it leaves in each case, every byte of the payload after it, and the length word, which is the file size even if the read was refused; the bytes are delivered if and only if size_t has 32 bits or they begin with zeros |
| StoreTheory.SpiExactly | sampleta/platform/qsee.c:40-46 | SPI_TEST and READ_ID as routed: status OK if and only if the transfer returned 0 and, on QSEE, the open did; the code is that of the failing call or 0; the two bytes received are in the payload on success, and it is otherwise untouched |
| StoreTheory.PlainCommandsExactly | sampleta/src/hw_core.c:61-69 | I2C_TEST and RELEASE answer OK and change nothing else but, for the latter, that the structure is freed; a command outside the table answers ERR and changes nothing |
| StoreTheory.StorageCommandExactly | sampleta/src/hw_core.c:32-40 | which commands reach storage, with which name and which bytes of the payload; all others leave the files alone |
| StoreTheory.WriteReportsExactly | sampleta/platform/qsee.c:132-143 | the code after a write: that of the call that failed, or the number of bytes moved; length and payload of the reply are untouched |
| StoreTheory.DescriptorWriteStoresExactly | sampleta/platform/isee/isee.c:119-130 | byte by byte what a QSEE or iSee write leaves in its file, for every outcome; no other file changes |
| StoreTheory.TrustyWriteStoresExactly | sampleta/platform/trusty/trusty.c:102-114 | a Trusty write leaves exactly the bytes moved if session, open and commit went through, and the former files otherwise |
| StoreTheory.RefusedReadExactly | sampleta/platform/trusty/trusty.c:122-142 | a read that gets no file: its code, its length word and what it leaves in the store, on each platform |
| StoreTheory.OpenedReadExactly | sampleta/platform/qsee.c:145-165 | any other read is the transfer of FetchExactly on the named file, made empty if it was missing |
| StoreTheory.WideReadLosesHead | sampleta/src/hw_core.c:37-40 | a concrete read that a 64-bit size_t corrupts while reporting success |
| StoreTheory.WriteSucceedsExactly | sampleta/platform/qsee.c:132-143 | on each platform, exactly which outcomes leave status OK after a write |
| StoreTheory.TrustyWriteDurableExactly | sampleta/platform/trusty/trusty.c:108-112 | a write that reported OK has stored new data if and only if the commit succeeded and the transfer was complete |
| StoreTheory.TrustyFailedWriteTruncates | sampleta/platform/trusty/trusty.c:105-112 | a committed write whose transfer failed leaves the file empty |
| StoreTheory.OthersDoNotDisturb | sampleta/src/hw_core.c:32-40 | on every platform and for every pattern of failures, a stored file survives any run that does not write its name |
| StoreTheory.TrustyReadsBackWrite | sampleta/platform/trusty/trusty.c:98-143 | Trusty storage is a map from names to bytes: after a committed write that reported OK and moved n bytes, and any run not writing that name, a read with enough capacity succeeds and returns exactly those n bytes (under the size_t condition), n being the whole payload if and only if the vendor took it all |
| StoreTheory.SmoothReadDelivers | sampleta/platform/qsee.c:145-165 | a read the vendor performs, of a file that capacity allows for, succeeds with its length and bytes on every platform |
| StoreTheory.ContentIsFold | sampleta/platform/qsee.c:132-143 | after any run on QSEE or iSee a file is the fold of overlays of its former content and the transfers that reached it, in order |
| StoreTheory.IntendedIseeStoresLikeQsee | sampleta/platform/isee/isee.c:119-152 | with the intended open test, files and descriptors on iSee evolve as on QSEE over every run without empty writes |
| StoreTheory.FoldLength | sampleta/platform/qsee.c:136-140 | the length of the fold is the greatest length in the history |
| StoreTheory.FoldByte | sampleta/platform/qsee.c:136-140 | each byte of the fold is that of the latest entry long enough to have one |
| StoreTheory.LatestTransferIsPrefix | sampleta/platform/qsee.c:136-140 | the latest transfer is always a prefix of the file |
| StoreTheory.QseeWriteReplacesExactly | sampleta/platform/qsee.c:136-140 | without truncation a write leaves exactly its data if and only if the file was not longer |
| StoreTheory.SecondReadSucceeds | sampleta/platform/qsee.c:157-164 | capacity negotiation converges: once a read got as far as the size of a non-empty file, even if refused, a second read the vendor performs succeeds, whatever length-keeping commands intervene, on every platform |
| StoreTheory.LengthIsKept | sampleta/src/hw_core.c:61-69 | the reply length stays that of the file over non-storage commands, writes to other names, reads that get no file open, and further reads of the same file that get as far as its size |
| StoreTheory.RunLeaksExactly | sampleta/platform/isee/isee.c:122-125 | after any run the open descriptors are the former ones and those iSee as written leaked, so they are conserved if and only if none of its opens returned a positive descriptor; always on QSEE, Trusty and iSee as intended |
| StoreTheory.IseeRefusesOpenFiles | sampleta/platform/isee/isee.c:122-125 | each leaking command also fails |
| Mac.MacDevice.IseeGetHmac | sampleta/platform/isee/isee.c:68-94 | for every return-code sequence: the calls made are exactly the specified trace, the context ends closed, the error code is that of the first failure, and the MAC is delivered if and only if nothing failed, being then the one-shot HMAC of the whole message |
| Mac.IseeTraceStops | sampleta/platform/isee/isee.c:73-93 | calls happen in order up to and including the first failure, none but the close follows it, and the close is last, single, and present if and only if the open succeeded |
| Mac.IseeFeedsPrefix | sampleta/platform/isee/isee.c:76-89 | what has been fed is always a prefix of the message, and all of it when nothing fails |
| Mac.ChunkSizes | sampleta/platform/isee/isee.c:76-89 | the pieces have 32 bytes except a shorter, non-empty last one, and put together make up the message |
| Mac.MacService.McFinish | sampleta/platform/isee/isee.c:90 | a service that keeps only the hash state returns Hmac of everything fed to it |
| Mac.MacService.McUpdate | sampleta/platform/isee/isee.c:82 | an update extends the message behind the hash state by its piece |
| Mac.HmacIsRfc2104 | sampleta/platform/isee/isee.c:76-90 | section 2 of RFC 2104, for every hash whose digests fit 64 bytes: the key, or its digest if it is longer than 64 bytes, followed by zeros, is xored with 0x36 for the inner block and with 0x5c for the outer one; the MAC is the digest of the outer block followed by the digest of the inner block and the message |
| Mac.HmacByteByByte | sampleta/platform/qsee.c:85 | for the hash that is its input, every byte of the MAC under a key that fits a block |
| Mac.AbsorbInOrder | sampleta/platform/isee/isee.c:81-89 | the hash takes up its input in order, one byte at a time |
| Mac.AbsorbConcat | sampleta/platform/isee/isee.c:81-89 | feeding a hash in pieces or at once gives the same state |
| Mac.MacDevice.IseeCompute | sampleta/platform/isee/isee.c:76-91 | the part between open and close, with the number of calls made before a failure |
| Mac.MacDevice.IseeFeed | sampleta/platform/isee/isee.c:81-89 | the update loop and the rest: either the whole message was fed, or the loop stopped right after the first failing update |
| Mac.MacDevice.QseeGetHmac | sampleta/platform/qsee.c:84-87 | one-shot MAC or error, sticky status |
| Mac.MacDevice.KinibiGetHmac | sampleta/platform/kinibi/Locals/Code/kinibi.c:76-88 | the same in two calls |
| Mac.MacDevice.TrustyGetHmac | sampleta/platform/trusty/trusty.c:62-67 | the same, with the error code left as it was |
| Mac.MacDevice.Compare | sampleta/platform/qsee.c:94-96 | the byte loop keeps OK if and only if it was OK and all 32 bytes agree |
| Mac.MacDevice.QseeVerify | sampleta/platform/qsee.c:89-97 | OK is left if and only if it was before, the computation succeeded and the given MAC is the HMAC |
| Mac.MacDevice.IseeVerify | sampleta/platform/isee/isee.c:96-105 | the same condition, with all chunked calls having to succeed |
| Mac.MacDevice.KinibiVerify | sampleta/platform/kinibi/Locals/Code/kinibi.c:90-99 | the same condition |
| Mac.MacDevice.TrustyVerify | sampleta/platform/trusty/trusty.c:69-78 | OK is left if and only if it was before, the computation succeeded, sys_err was zero beforehand and the given MAC is the HMAC |
| Mac.MacDevice.WrongMacRefused | sampleta/platform/trusty/trusty.c:75-77 | a MAC that differs from the HMAC in any byte is refused by all four verifications, whatever the vendor returns |
| Mac.MacDevice.ComputeThenVerify | sampleta/platform/isee/isee.c:68-105 | a MAC computed in pieces is accepted by all four verifications when nothing fails |
| Mac.VerifyAfterWrite | sampleta/platform/trusty/trusty.c:74 | the verification run after a Trusty write that reported OK and moved data rejects every MAC, the right one included |
| Mac.TrustyWriteLeavesCount | sampleta/platform/trusty/trusty.c:108-109 | because such a write leaves its byte count in sys_err |
| Token.QseeToken | sampleta/platform/qsee.c:71-82 | the token is the first of ten draws that returned 8 bytes, and the draws used are counted; ERR if and only if none of the ten did |
| Token.KinibiToken | sampleta/platform/kinibi/Locals/Code/kinibi.c:62-74 | the same, also refusing zero, so a token delivered is not zero |
| Token.UncountedLoop | sampleta/platform/isee/isee.c:54-66 | the loop of iSee and Trusty after any number of steps: returned with the first good draw, else still trying; it never reaches its error exit |
| Token.CountedLoop | sampleta/platform/qsee.c:74-81 | the counting loop ends within eleven tests of its guard |
| Token.LoopsAgreeExactly | sampleta/platform/trusty/trusty.c:48-60 | the two loops come to the same end if and only if one of the first ten draws is good |
| Token.UncountedLoopHangs | sampleta/platform/trusty/trusty.c:52-58 | with a dead generator the one is still trying after any number of steps while the other has given up |
| Driver.MeasuredExactly | sample_hal/tee_test.c:102-105 | for a clock that does not run backwards, the measured time is the elapsed time if and only if both readings fall in the same second; it is the difference of the microseconds, and if they run backwards 2 to the 32 less what they lack |
| Driver.PayloadLenExactly | sample_hal/tee_test.c:69 | the generated lengths are exactly the multiples of 32 up to 32736 |
| Driver.TestDriver.RandomCmdBuf | sample_hal/tee_test.c:59-76 | the request generated from the random numbers, field by field; its command is below RELEASE, its name reads test.txt, and the state invariant (length bounds, terminated name) is kept |
| Driver.PacketExactly | sample_hal/tee_test.c:61-75 | the request a round hands over, from the numbers drawn: command, the name test.txt, numbers, length, and each word of the payload as its four bytes, the last draw first |
| Driver.BytesExactly | sample_hal/tee_test.c:63 | an array of words as bytes: word j at offset 4j |
| Driver.TestDriver.Call | sample_hal/tee_test.c:101-103 | what is handed over is what the request buffer holds; its payload is the array data word by word; the status is that of the reply, or the former one if none came |
| Driver.NameIsTerminated | sample_hal/tee_test.c:70 | copying the name without its terminator into a zeroed array leaves a terminated name |
| Driver.TestDriver.CollectPerformanceData | sample_hal/tee_test.c:78-84 | exactly the current command's entry is updated, in machine words |
| Driver.TestDriver.Collect | sample_hal/tee_test.c:105-107 | recording a round turns the statistics of the rounds before it into those of the rounds up to it; no word overflows |
| Driver.StatsExactly | sample_hal/tee_test.c:78-84 | one more round changes the statistics of its own command alone: one run more, and its cost in the maximum and the total |
| Driver.CostExactly | sample_hal/tee_test.c:105 | the statistics start at zero, and that cost is the difference of the microseconds modulo 2 to the 32 |
| Driver.SumExactly | sample_hal/tee_test.c:83 | a total adds up: sums of parts add |
| Driver.StatisticsFit | sample_hal/tee_test.c:86-94 | for every iteration count an int holds: counters fit 32 bits, totals are at most count times maximum and fit 64, and the average never exceeds the maximum |
| Driver.SamplesPartition | sample_hal/tee_test.c:96-110 | the five counts sum to the number of recorded rounds |
| Driver.KeptExactly | sample_hal/tee_test.c:106 | the number of recorded rounds is characterised as the length of the OK prefix, a call without a reply leaving the old status |
| Driver.TestDriver.PrintData | sample_hal/tee_test.c:86-94 | averages are produced if and only if every counter is nonzero, and are the quotients; else the division faults at an unused command |
| Driver.TestDriver.RunRounds | sample_hal/tee_test.c:100-108 | the loop records exactly the OK prefix and issues exactly one more command if a bad status ended it; without a table it issues one command and stops |
| Driver.TestDriver.RandomTest | sample_hal/tee_test.c:96-110 | with the table bound: per-command count, maximum and sum are those of that command's samples, and it ends properly if and only if every command occurred; unbound it always faults |
| Driver.TestDriver.Session | sample_hal/tee_test.c:130-134 | RELEASE is sent exactly once and last when the test ends properly, and otherwise never |
| Driver.TooFewRounds | sample_hal/tee_test.c:86-94 | fewer than five rounds can never end properly |
| Driver.MainAsWritten | sample_hal/tee_test.c:122-138 | the program as it stands faults after a single command, its first, and never releases |
| Driver.MainCorrected | sample_hal/tee_test.c:122-138 | with the table bound, the complete account of statistics, ending and commands sent |
| DriverSession.LiveAtEveryCall | sampleta/src/hw_core.c:47-69 | the structure is live at every router call of a run if and only if it was at the start and RELEASE comes last or not at all |
| DriverSession.FilesStayBounded | sampleta/src/hw_core.c:32-40 | no file ever outgrows the longest payload offered, or what the store held at the start |
| DriverSession.DriverSessionIsSafe | sample_hal/tee_test.c:49-76 | the driver's session behind the router, whichever calls get through: live at every call, freed exactly if a RELEASE got through, and every file of an initially empty store within 32736 bytes |
| DriverSession.FirstReadExactly | sampleta/src/hw_core.c:37-40 | whatever the reply buffer holds at the start, the first read of a run succeeds if and only if the vendor performs it and the file is no longer than the initial reply length, or size_t has 64 bits and the payload's first four bytes, as the latest SPI transfer left them, are not all zero |
| DriverSession.FirstReadKeptExactly | sample_hal/tee_test.c:100-108 | the test loop gets past its first answered read under exactly that condition |
| DriverSession.NarrowSessionNeverEnds | sample_hal/tee_test.c:96-110 | with a 32-bit size_t, a zero reply length and answered reads, no read is ever recorded, so some command never occurs, on every platform and whatever the vendor does |
| DriverSession.DeadTransportPasses | sample_hal/tee_test.c:103-107 | the proviso is needed: if nothing gets through, every round is recorded as good |
| DriverSession.SessionCanEndExactly | sample_hal/tee_test.c:96-110 | from an empty store, on each platform: some session with answered reads records every command if and only if size_t has 64 bits or the initial reply length is not zero |
| DriverSession.SessionReached | sample_hal/tee_test.c:49-57 | the requests the router serves, names, lengths and payloads included, are, in order, those of the requests sent that got through |
| DriverSession.ServedWriteExactly | sample_hal/tee_test.c:59-76 | each request served in a round carries what that round drew: command, the name test.txt, length, and every word of the payload |
| DriverSession.MainAgainstRouter | sample_hal/tee_test.c:122-138 | the program with the table bound, against the router: what it sends and, from that, what is served; each served WRITE carries the words its round drew; the structure is safe throughout; RELEASE is sent if and only if every command occurred, and never under the conditions of NarrowSessionNeverEnds |
| TrustyEvents.EachMessageAnsweredOnce | sampleta/platform/trusty/trusty.c:170-223 | in the intended program, over every event sequence, each correctly sized message got, read and put back after an accepted connection gets exactly one reply attempt, in order, with the router's result for it; no other event does |
| TrustyEvents.RequestsExactly | sampleta/platform/trusty/trusty.c:181-223 | which those messages are, event by event: ones that were got, read with 32816 bytes and put back after an event whose accept returned a channel |
| TrustyEvents.AsWrittenServesNothing | sampleta/platform/trusty/trusty.c:208-223 | the program as it stands never leaves the accepting handler and never replies |
| TrustyEvents.AsWrittenAnswersExactly | sampleta/platform/trusty/trusty.c:219 | it replies as intended if and only if there was nothing to serve |
| TrustyEvents.MessagesHeldExactly | sampleta/platform/trusty/trusty.c:181-197 | the messages never put back are exactly those of a wrong size and those whose put failed |
| TrustyEvents.TrustyTa.TrustyRouter | sampleta/platform/trusty/trusty.c:170-206 | one event changes buffers, device, replies and held messages as specified, on every exit |
| TrustyEvents.TrustyTa.MainLoop | sampleta/src/app_main.c:146-158 | the loop refines the run specification up to the first failing wait |
| Layout.InRoundTrip | sample_hal/inc/platform_common.h:24-32 | decoding an encoded request gives it back |
| Layout.InBytesRoundTrip | sample_hal/inc/platform_common.h:24-32 | encoding a decoded request gives its bytes back |
| Layout.OutRoundTrip | sample_hal/inc/platform_common.h:34-43 | decoding an encoded reply gives it back |
| Layout.OutBytesRoundTrip | sample_hal/inc/platform_common.h:34-43 | encoding a decoded reply gives its bytes back |
| Layout.InOffsets | sample_hal/inc/platform_common.h:24-32 | where each field of a request lies, as four little-endian bytes or as it is |
| Layout.OutOffsets | sample_hal/inc/platform_common.h:34-43 | where each field of a reply lies |
| Layout.ViewExactly | sample_hal/inc/platform_common.h:36-37 | how the status and code words read: OK exactly for zero, the code in two's complement |
| Layout.StoreExactly | sampleta/inc/platform_device.h:18 | every byte of a reply after a command: status 0 or four bytes 0xff, the code, the error line rewritten exactly on ERR, length and payload; everything else as it was |
| Layout.SizeLoad | sampleta/src/hw_core.c:39 | reading the length word through a size_t pointer, on the bytes, for both widths |
| Layout.SizeStore | sampleta/src/hw_core.c:39 | writing it, for both widths: eight bytes change the length and clear four payload bytes, four change the length only |
| Wire.WireAgrees | sampleta/src/hw_core.c:61-69 | routing encoded structures is routing fields, seen through the two layouts |
| Wire.NameOfExactly | sampleta/src/hw_core.c:34 | the name a request means: the bytes before the first zero, or the whole array, one character each |
| Wire.SameNameExactly | sampleta/src/hw_core.c:39 | two requests mean the same file if and only if their bytes before the first zero are the same |
| Wire.RequestOnWire | sample_hal/inc/platform_common.h:24-32 | the request the router acts on, read off the bytes by offset |
| Wire.ReplyOnWire | sampleta/src/hw_core.c:61-69 | every byte of the reply the router leaves for a request in bytes |
| Wire.ServeBytesIsRun | sampleta/src/app_main.c:26-39 | serving any number of requests as bytes leaves the state and the reply fields of the run of the commands |
| EndToEnd.TrustyAnswersFromStore | sampleta/platform/trusty/trusty.c:98-223 | from messages to files: the k-th message served by the intended Trusty program is answered with the reply that running the first k + 1 commands on the store specifies, whatever other events occur and whatever fails |
| EndToEnd.QseeCommand | sample_hal/platform/qsee.c:29-36 | one qsee_cmd call changes device and reply as the router's specification says, from bytes in client memory to fields |
| EndToEnd.WriteThenReadTwice | sampleta/platform/qsee.c:132-165 | a full write and two reads of it on QSEE end with the file in the reply, whether or not the first read was refused |
| EndToEnd.QseeStoreAndFetch | sample_hal/platform/qsee.c:29-36 | a client that writes and reads twice through qsee_cmd, the vendor performing the write and the last read in full, finds in its buffer the bytes it wrote, followed by what the file held beyond them, under the size_t condition |
| EndToEnd.Connect | sample_hal/tee_test.c:32-47 | after a successful init on QSEE such a client exists, with the router on the wire behind it and a zero reply length |
| EndToEnd.PacketCrosses | sample_hal/tee_test.c:101-103 | a request of the driver, put into bytes and read by the router, arrives with its command, name, length and payload |
| EndToEnd.DriverNameCrosses | sample_hal/tee_test.c:70 | the name the router sees in a driver request is test.txt |

## Left out

- Vendor internals (storage back end, SPI, I2C, random numbers, keymaster, encryption, the hash function): operations with arbitrary outcomes and small specifications; a failed read or MAC call is taken to leave its buffer alone, and a new descriptor not to be one already open.
- Loading of vendor libraries and symbols, logging, argument parsing, help output, build scripts, manifests and UUIDs: no lasting state.
- Transports.Client.KinibiCmd: one thread's view; replies when a wait has expired earlier are claimed only in KinibiProtocol, where they can be wrong.
- TrustyProtocol.StepKeepsInv: the application handles a message in one step; its separate calls are in TrustyEvents.
- Transports.Client.QseeCmd: the reply window QSEE is told of reaches 12 bytes past the driver's buffer, into padding and the first entry of `perf` (sample_hal/inc/platform_hal.h:50-59); that the vendor's library leaves those bytes alone is assumed.
- SynchronousTransports.SendsAreAtomic: `QSEECom_send_cmd` is one step; what the vendor does inside it is not modelled.
- DriverSession.MainAgainstRouter: a reply that comes back is the router's to that call; wrong replies after a failed wait or read are the subject of the two protocols.
- KinibiProtocol.Linearizable: the router is one step, and runs with an expired wait are excluded, because the claim is false for them.
- Inside the transports' own init and exit functions (`gp_init`, `kinibi_init` and the like), and the teardown after RELEASE (sample_hal/tee_test.c:53-56): not modelled.
- Declared memory limits below the structure sizes (sampleta/inc/platform_tee.h:90): the transport is taken to accept whole structures.
- TrustedApp.Ta.TaRouter: requests longer than the payload array are outside its precondition, because the code then reads past its buffer; the reply is a value rather than shared memory (Transports and Wire have it as bytes).
- TrustyEvents.TrustyTa.TrustyRouter: messages longer than the request buffer are outside its precondition, because the code then writes past the buffer.
- EndToEnd.TrustyAnswersFromStore: the reply to RELEASE is the router's result, although the code sends it from the structure it has just freed.
- Token.UncountedLoop: the loop of iSee and Trusty is a step function rather than a method, because it may never end; time stamps of tokens are not modelled.
- Kinibi persistent objects, GlobalPlatform device functions: the router's `sfs_read` and `sfs_write` are never set there.
- Key derivation, message encapsulation, encryption wrappers, `hw_sleep`, `hw_wakeup`, chip configurations: one-line calls.
- The text of `err_line`: kept as opaque bytes.
- Names that are not NUL-terminated: read as ending at the array's end.
