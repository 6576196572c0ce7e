# Classics Live 64: a verified model

This project models, in Dafny, the parts of the Classics Live 64 payload and host that
keep state, and proves what they promise.

* **The file layer** (`payload/system.c`). File descriptors are 15-bit packed fields that
  name a filesystem, a bucket and a position. Open handles live in buckets of 32 slots; a
  bucket is added when the load asks for one, and a free slot is found by probing
  cyclically from a pseudo-random start. Filesystems are mounted under prefixes, and path
  names are resolved through them.
* **The mailbox** (`payload/usb_summercart.c`, `payload/main.c`, `host/main.c`). The N64
  and the PC share one 8 KB buffer on the cart. A magic word at its start says which side
  wrote last. The N64 sends log messages and requests; the host answers requests.
* **The HTTP relay** (`host/main.c`). A response buffer grown chunk by chunk, inside a loop
  that retries transient failures.
* **The payload driver** (`payload/main.c`). The per-frame entry point and the assembly
  trampoline around it.

## How it is built

Code that updates state in place is a class or a method: `FileLayer.FileLayer` (bucket
array, mount array, counters), `Bram.Buffer`, `HttpRelay.Response`,
`PayloadDriver.Payload`, `Trampoline.Machine`, and the string scanners in `CStrings`. Each
method's `ensures` equates the new state and the result with a function on values, and the
properties are lemmas about those functions. The mailbox is a state machine in which each
step is one access to the shared buffer, one register write, or one USB transfer; N64, cart
and host take their steps in any order.

| file | contents |
|---|---|
| `Bits.dfy`, `Fileno.dfy` | 32-bit shifts and or; the descriptor codec |
| `Xorshift.dfy` | the generator behind the probe start |
| `HandleTable.dfy` | buckets, growth, probing, allocation, release |
| `HandleMap.dfy` | the table refines a map from descriptors to handles |
| `CStrings.dfy`, `Mounts.dfy` | string scanning; mounts and name resolution |
| `Syscalls.dfy` | the file calls as transitions, and every run of them |
| `CallReports.dfy` | what each call answers, by mounts, live descriptors and arithmetic |
| `FileLayer.dfy` | the arrays and counters, updated in place |
| `Wire.dfy`, `Bram.dfy` | byte order and headers; the N64's word copies |
| `HostLink.dfy`, `PostMessage.dfy` | the host's packets, both round trips; url and post data |
| `Mailbox.dfy`, `MailboxSafety.dfy` | the protocol, and its invariant over all interleavings |
| `MailboxFlow.dfy` | what becomes of every transmit, log messages included |
| `HttpRelay.dfy` | the response buffer and the retry loop |
| `PayloadDriver.dfy`, `Trampoline.dfy` | the per-frame driver; the context switch |

## Assumptions

* `MAX_FILESYSTEMS` is any number from 1 to 15; the header that defines it is not part of
  this model. `malloc` in `__strdup` succeeds; `calloc` may fail.
* Filesystem callbacks return anything and leave anything in `errno`, but do not call back
  into the file layer. The numeric `errno` values are newlib's.
* `__randn` uses the remainder for the constant bound 32 and the multiply-shift form for
  the bucket count. Both forms are proved in range, and the probing theorems hold for every
  start.
* The cart is busy while it captures an outgoing packet and while it stores a packet from
  the PC, and does one thing at a time. Its USB packet carries ten bytes of its own before
  the type byte, which is where the host looks for it.
* The N64 is big-endian and the PC little-endian.

## What turned out otherwise than the comments say

* The comment at `payload/system.c:406` speaks of 75%. The test at line 410 is
  `n + n/4 > 32*B`, about 80%; the model follows the code.
* `close` does not compare the filesystem bits of a descriptor with the slot's owner.
  `Syscalls.CloseOtherFileno` says exactly when a descriptor that is not live closes
  another one, and `Syscalls.CloseThroughAnyMount` gives the family of such descriptors.
* `open` does not hand a handle back to its filesystem when no descriptor can be allocated
  for it (`Syscalls.OpenBinds`, the `dropped` handles).
* `stat` and `truncate` on a filesystem that opens but cannot close keep a descriptor open
  for good; that is the only case in which they change the handle map
  (`Syscalls.StatKeepsHandles`, `Syscalls.TruncateKeepsHandles`).
* The decoded length on the host is the payload length plus eight
  (`HostLink.N64ToPcRoundTrip`), and a buffer write of more than 8184 bytes runs past the
  8 KB buffer although lengths up to 8192 are accepted (`Bram.Buffer.Write`).

## Model

| member | source | states |
|---|---|---|
| Bits.FieldIsDivMod | payload/system.c:105 | the shift-left-then-right macro extracts exactly bits b to e, for every word and every pair of positions |
| Bits.OrDisjoint | payload/system.c:139 | or-ing a field below a shifted one adds them, in either order |
| Fileno.ExtractUndoesMake | payload/system.c:121-146 | packing any filesystem up to 14, bucket below 64 and position below 32 gives a number from 2048 to 32767, from which the three extractors recover the fields; so no descriptor is 0, 1 or 2 or needs a 16th bit |
| Fileno.MakeUndoesExtract | payload/system.c:139-146 | every number from 2048 to 32767 is the packing of its own fields, so the codec is a bijection and different slots have different descriptors |
| Xorshift.RandIsPermutation | payload/system.c:283-290 | the generator permutes the 32-bit words and maps no other word to zero |
| Xorshift.RandIsSumOfShifts | payload/system.c:283-290 | a draw is the exclusive or of eight shifts of the state |
| Xorshift.RandOfOneBit | payload/system.c:283-290 | the draw for each of the 32 one-bit words |
| Xorshift.RandnConst | payload/system.c:299-303 | the remainder form lands in [0, n) for every state |
| Xorshift.RandnConstIsRemainder | payload/system.c:299-303 | and is the remainder of the draw |
| Xorshift.Randn | payload/system.c:299-303 | the multiply-shift form gives the r with r * 2^32 <= draw * n < (r + 1) * 2^32, which is in [0, n) |
| HandleTable.Start | payload/system.c:421-427 | the probe starts at an existing bucket and a position inside it |
| HandleTable.StartDraws | payload/system.c:421-427 | the bucket is the high word of the first draw times the bucket count, the position the low five bits of the next draw; with one bucket the position takes the first draw |
| HandleTable.VisitReachesEverySlot | payload/system.c:429-446 | from any start, every slot is reached, within as many steps as there are slots |
| HandleTable.VisitsAreDistinct | payload/system.c:429-446 | no slot is looked at twice in a round |
| HandleTable.ProbeTakesFirstFree | payload/system.c:429-450 | probing takes the free slot that comes first in cyclic order and fails only if no slot is free |
| HandleTable.GrowKeepsHandles | payload/system.c:412-418 | a new bucket adds free slots only: the handles and their number stay |
| HandleTable.GrowthKeepsValid | payload/system.c:406-419 | growth keeps the counter equal to the used slots and the load below its bound |
| HandleTable.RoomAfterGrowth | payload/system.c:406-419 | after the growth test a slot is free, unless all 32 buckets exist and are full |
| HandleTable.AllocOutcomes | payload/system.c:404-451 | with n handles open in B buckets, allocation fails for want of a slot exactly when n = 1024, and for want of memory exactly when calloc fails, B < 32 and n + n/4 > 32B; a bucket is added exactly when that arithmetic holds and calloc succeeds |
| HandleTable.AllocKeepsValid | payload/system.c:404-451 | allocation, failed calloc included, keeps the counter, the bucket count and the load bound n + n/4 <= 32B + 2 |
| HandleTable.ReleaseKeepsValid | payload/system.c:618-623 | closing keeps them too, for any descriptor |
| HandleMap.LookupLive | payload/system.c:544-562 | looking up any live descriptor gives the handle it was bound to |
| HandleMap.AllocRefines | payload/system.c:404-451 | a successful allocation adds one binding, for a descriptor that was not live, and a failed one adds none |
| HandleMap.ReleaseUndoesAlloc | payload/system.c:404-451 | closing what was just allocated leaves the table as growth alone would have left it |
| HandleMap.ReleaseRefines | payload/system.c:610-623 | emptying a slot unbinds the descriptor that owned it and keeps the refinement |
| HandleMap.CloseLive | payload/system.c:610-623 | among live descriptors only the closed one shares its slot |
| HandleMap.CloseNotLive | payload/system.c:544-562 | a descriptor that is not live either decodes to an empty slot and changes nothing, or unbinds the one live descriptor with the same bucket and position bits |
| HandleMap.AllocConserves | payload/system.c:434-438 | the multiset of stored handles gains the new handle exactly when allocation succeeds |
| HandleMap.ReleaseConserves | payload/system.c:619-623 | and loses exactly the closed one |
| CStrings.StrLen | payload/system.c:169-180 | the length of the string, 0 for NULL, reading no byte past the terminator |
| CStrings.StrNCmp | payload/system.c:238-256 | zero exactly when the two strings agree on the compared part (all of them for a negative bound), reading no byte past either terminator |
| Mounts.AttachOutcomes | payload/system.c:305-364 | which prefixes are refused and why; an accepted one takes the lowest free entry and changes no other |
| Mounts.DetachOutcomes | payload/system.c:366-395 | detaching frees the entry with that prefix and no other, and succeeds exactly when there is one |
| Mounts.AttachKeepsValid | payload/system.c:305-364 | prefixes stay different, at least 3 long and ending in ":/", set exactly when a filesystem is; a new prefix is refused as full exactly when every entry is used |
| Mounts.DetachKeepsValid | payload/system.c:366-395 | the same invariant, and no entry keeps the detached prefix |
| Mounts.DetachUndoesAttach | payload/system.c:305-395 | attach followed by detach of the same prefix restores the table entry for entry |
| Mounts.Resolve | payload/system.c:489-512 | the lowest-numbered mount whose prefix begins the name, or -1 when there is none or the name is NULL |
| Mounts.AtMostOneMatch | payload/system.c:489-512 | no name matches two mounts, exactly when no mounted prefix begins another |
| Mounts.PlainPrefixesDoNotOverlap | payload/system.c:489-512 | prefixes with no ":/" before their end never begin one another |
| Mounts.OrderIndependence | payload/system.c:489-512 | resolution gives the same mount for every order of mounting, exactly when no mounted prefix begins another |
| Syscalls.OpenBinds | payload/system.c:874-929 | open adds exactly one fresh binding when the filesystem returns a handle and the table has room; otherwise it returns -1 and binds nothing, and a handle without room is dropped |
| Syscalls.OpenReportsReason | payload/system.c:874-929 | the errno of every open: EINVAL for an unresolved name, ENOSYS without an open callback, the filesystem's own or ENOENT for no handle, ENFILE only for 1024 live descriptors, ENOMEM for a failed growth, and the filesystem's on success; unreached filesystems are not called |
| Syscalls.FilesystemSeesRestOfName | payload/system.c:917-917 | prefix and the path handed to the filesystem make up the name; a native stat gets that path with a slash in front |
| Syscalls.EnfileExactlyWhenFull | payload/system.c:448-450 | once a handle comes back, open reports ENFILE exactly when 1024 descriptors are live |
| Syscalls.CapacityIsReached | payload/system.c:404-451 | while memory lasts, opens succeed one after the other until 1024 descriptors are live |
| Syscalls.CloseLiveFileno | payload/system.c:593-627 | closing a live descriptor passes the filesystem the handle it was opened with and removes that binding only; it is refused exactly when the mount is gone or cannot close |
| Syscalls.CloseOtherFileno | payload/system.c:593-627 | closing a descriptor that is not live changes the map exactly when its filesystem bits name a mount that can close and its slot is used, and then it removes one other binding |
| Syscalls.CloseThroughAnyMount | payload/system.c:593-627 | a live descriptor with the bits of any other mount that can close put in still closes the live one |
| Syscalls.LiveFilenoReachesItsHandle | payload/system.c:689-721 | fstat and ftruncate on a live descriptor call its filesystem with the handle it was opened with |
| Syscalls.StatKeepsHandles | payload/system.c:1065-1092 | stat leaves the handle map and, growth aside, the table as it found them, on every path, except exactly when it falls back on a filesystem that opens but cannot close |
| Syscalls.StatFallbackCalls | payload/system.c:1082-1091 | a stat that falls back makes one open, one fstat and one close, all with the same handle |
| Syscalls.TruncateKeepsHandles | payload/system.c:1306-1315 | the same for truncate |
| Syscalls.TruncateCalls | payload/system.c:1306-1315 | a truncate that gets a handle makes one open for writing, one ftruncate and one close, all with that handle, and returns what ftruncate did |
| Syscalls.DoKeepsInv | payload/system.c:112-119 | every call keeps the mount invariant, the counter, the load bound, the refinement and the conservation of handles |
| Syscalls.EveryRun | payload/system.c:112-119 | after any sequence of calls from start-up, with any filesystems and any calloc failures, the table refines the map, its counter is the number of live descriptors, and every handle a filesystem produced is in the table, given back by a close, or dropped by a failed open, once |
| CallReports.AttachReports | payload/system.c:305-364 | result and errno of every attach (0; -1 EINVAL; -2 EPERM; -3 ENOMEM) by prefix and mounts; success sets the lowest free mount and no other, failure sets none, and nothing else changes |
| CallReports.AttachedNamesResolve | payload/system.c:357-363 | after a successful attach every name under the prefix resolves, to that mount if no other prefix begins it |
| CallReports.DetachReports | payload/system.c:366-395 | result and errno of every detach (0; -1 EINVAL; -2 EPERM); success frees exactly the mount with the prefix, failure frees none, and nothing else changes |
| CallReports.CloseReports | payload/system.c:593-627 | result, errno and effect of every close, refused or not, by the mounts and the live descriptors |
| CallReports.SecondCloseFails | payload/system.c:612-616 | a second close of the same descriptor is refused with EINVAL and changes nothing else |
| CallReports.FstatReports | payload/system.c:689-721 | result, errno and calls of every fstat: EINVAL below 3, for a NULL buffer, an unmounted index or an empty slot, ENOSYS without a callback, else the filesystem's answer for the handle in the slot |
| CallReports.FtruncateReports | payload/system.c:1273-1292 | the same for ftruncate, a negative length among the refusals |
| CallReports.StatReports | payload/system.c:1065-1092 | result and errno of every stat: NULL buffer, native stat, an open that fails, and the fallback |
| CallReports.TruncateReports | payload/system.c:1306-1315 | the same for truncate |
| CallReports.OpensWithoutMemory | payload/system.c:404-451 | with no memory at all, n opens up to 27 all succeed in the one static bucket |
| CallReports.TwentySevenWithoutMemory | payload/system.c:404-451 | from start-up with one filesystem attached and no memory, the first 27 opens succeed and the 28th reports ENOMEM |
| CallReports.RunMakesEveryCall | payload/system.c:112-119 | a run of calls makes each of them, in order, on the state the ones before it left |
| FileLayer.FileLayer.constructor | payload/system.c:112-119 | start-up: one empty bucket, no mount, no live descriptor, and the invariant |
| FileLayer.FileLayer.AddBucket | payload/system.c:412-418 | a fresh bucket of free slots is appended; no other bucket is touched |
| FileLayer.FileLayer.FindFreeSlot | payload/system.c:429-446 | the two wrap-around loops find what the cyclic probe finds |
| FileLayer.FileLayer.MakeRoom | payload/system.c:406-419 | the growth test in place: memory is needed exactly when B < 32 and n + n/4 > 32B; the bucket count goes up by one exactly then, if calloc succeeds, and only errno and the dropped handle change if it fails |
| FileLayer.FileLayer.AllocateFileno | payload/system.c:404-451 | the arrays and counters end as the allocation on values says, with its descriptor or -1 |
| FileLayer.FileLayer.GetFsPointerByHandle | payload/system.c:463-479 | the mount a descriptor names, or none |
| FileLayer.FileLayer.GetFsHandle | payload/system.c:544-562 | the slot behind a descriptor, exactly when it holds a handle |
| FileLayer.FileLayer.GetFsLinkByName | payload/system.c:489-512 | the scanning loop computes name resolution |
| FileLayer.FileLayer.AttachFilesystem | payload/system.c:305-364 | the mount array, errno and result end as attach says, and the invariant holds |
| FileLayer.FileLayer.DetachFilesystem | payload/system.c:366-395 | the same for detach |
| FileLayer.FileLayer.Open | payload/system.c:874-929 | open in place computes the transition above, calls into the filesystem included, and keeps the invariant |
| FileLayer.FileLayer.Close | payload/system.c:593-627 | the same for close; no bucket is added or lost |
| FileLayer.FileLayer.Fstat | payload/system.c:689-721 | the same for fstat; only errno and the call history change |
| FileLayer.FileLayer.Ftruncate | payload/system.c:1273-1292 | the same for ftruncate |
| FileLayer.FileLayer.Stat | payload/system.c:1065-1092 | the same for stat |
| FileLayer.FileLayer.Truncate | payload/system.c:1306-1315 | the same for truncate |
| Wire.BytesRoundTrip | payload/usb_summercart.c:41-42 | reading a big-endian word and storing it keeps its four bytes |
| Wire.SwapChangesOrder | host/main.c:57-60 | a swapped word stored on the PC has the bytes the N64 would have stored |
| Wire.HeaderRoundTrip | host/main.c:271-272 | the host's shifts recover the type and every length below 2^24 from the word the N64 packs |
| Bram.Buffer.Read | payload/usb_summercart.c:26-46 | a receive fails with the right error or copies min(length, message length) bytes, rounded up to whole words, and nothing else of the destination changes |
| Bram.Buffer.Write | payload/usb_summercart.c:51-66 | a transmit overwrites exactly magic, length and the payload rounded up to whole words; all of it is inside the 8 KB buffer exactly up to length 8184 |
| HostLink.AuxWrite | host/main.c:47-67 | the packet structure filled field by field on a little-endian machine holds the command, the byte count and the framed message |
| HostLink.PcToN64RoundTrip | host/main.c:53-68 | any reply of up to 488 bytes, delivered and read with any limit up to 8192, arrives as its first min(limit, length) bytes; the words stored stay within a limit that is a multiple of four |
| HostLink.N64ToPcRoundTrip | payload/usb_summercart.c:122-129 | the host decodes the type and length of every transmit and finds the payload at offset 22, whole exactly up to 490 bytes |
| PostMessage.SplitUndoesJoin | host/main.c:112-118 | splitting at the first newline gives back url and post data exactly when the url has no newline |
| PostMessage.SplitWithoutNewline | host/main.c:112-118 | without a newline in the bytes searched, the text is the url and the post data is empty |
| PostMessage.SendBufferFits | payload/main.c:90-91 | the joined text fills at most 512 bytes, ends in a terminator and is cut only when url, newline and post data do not fit |
| PostMessage.PostReachesHost | payload/main.c:90-93 | through snprintf, transmit, cart and host, a message of up to 490 bytes arrives as the two strings it was made of |
| Mailbox.Next | payload/usb_summercart.c:103-132 | no step of N64, cart or host, a log message's included, changes the size of the shared memory, so all the accesses of the protocol are inside it |
| MailboxSafety.SendsWord | payload/usb_summercart.c:59-62 | storing the next word of a transmit keeps the invariant, in which the words sent so far are exactly the start of the message's frame |
| MailboxSafety.MagicsDiffer | payload/usb_summercart.c:71-78 | until the fourth byte of a reply is stored, the poll does not take the buffer for a reply |
| MailboxSafety.HostDecodesRequest | host/main.c:269-295 | the host decodes a captured request as the message that was transmitted |
| MailboxSafety.HostAnswers | host/main.c:278-320 | reading a request keeps the invariant, which has room for one answer, and a reply given is the one command packet on its way to the cart |
| MailboxSafety.ReadsReply | payload/usb_summercart.c:103-113 | with the reply in place, every step of the receive keeps the invariant: the words read are those of the reply, and what is returned is its first bytes |
| MailboxSafety.StepKeepsInv | payload/usb_summercart.c:103-132 | every step of any party keeps the protocol invariant |
| MailboxSafety.EveryReceiveGetsItsReply | payload/usb_summercart.c:103-132 | in every interleaving replies <= requests <= receives + 1, and the k-th receive returned the first bytes of the k-th reply, which the host gave to the k-th request as it was sent, whatever log messages are sent between them |
| MailboxSafety.CanFinish | payload/usb_summercart.c:103-113 | from every state with an outstanding request that the host has not given up, some run completes the receive: the protocol never deadlocks |
| MailboxSafety.RequestCompletes | payload/main.c:92-95 | from start-up, every request can be transmitted, answered and received: the states the invariant speaks of are reached |
| MailboxFlow.EveryTransmitIsDelivered | payload/usb_summercart.c:115-132 | in every interleaving, each transmit that has returned, of any type, has its packet read by the host, queued or being captured, in the order of the calls; the host finds its type, length and payload in the packet; and the requests sent are those among the messages |
| MailboxFlow.LogIsDelivered | payload/main.c:43-45 | whenever the N64 is idle, every message that is not a request can be sent: some run ends with the N64 idle again and the host's queue ending in a packet with the message's type, length and payload |
| MailboxFlow.StepKeepsFlow | payload/usb_summercart.c:115-132 | every step of any party keeps messages and packets in correspondence |
| MailboxFlow.CanCapture | payload/usb_summercart.c:126-130 | a capture under way can always be finished, adding one packet to the queue and touching nothing else |
| HttpRelay.ReplyIsLastAttempt | host/main.c:139-169 | a reply is sent exactly when some attempt succeeds after transient failures only, and is that attempt's body with a terminator, nothing of earlier attempts in it |
| HttpRelay.FirstAttemptDecides | host/main.c:139-169 | a timeout or a failure to connect or resolve leaves the reply to the later attempts; any other error, or a chunk for which there is no memory, gives no reply whatever follows; success gives its body and a terminator |
| HttpRelay.BodyJoins | host/main.c:94-108 | the body is the chunks in order, end to end |
| HttpRelay.Response.WriteCallback | host/main.c:94-108 | the chunk is appended and the terminator put back, with room for it; when memory is short nothing changes |
| HttpRelay.Response.Perform | host/main.c:145-145 | a transfer that succeeds leaves the concatenation of its chunks |
| HttpRelay.Response.NetworkPost | host/main.c:124-169 | the retry loop sends the reply defined above |
| PayloadDriver.LifeCycle | payload/main.c:159-215 | the whole life of the driver: 120 frames counted, one attempt at USB, ABI and login in that order up to the first failure, then for ever running, or for ever showing the error |
| PayloadDriver.WhatIsLogged | payload/main.c:159-215 | phase, result and every call made, by the three answers of frame 121: nothing for 120 frames, the attempts in order, then cl_run each frame, or the code 10, 20 + ABI error or 30 + login error modulo 2^16 shown each frame |
| PayloadDriver.RunCount | payload/main.c:159-215 | cl_run is called max(0, n - 121) times in n frames if frame 121 had CL_OK from USB, ABI and login, and never otherwise; each of the three is tried at most once, each only after the ones before it succeeded |
| PayloadDriver.Payload.ClnRun | payload/main.c:159-215 | the fields after one frame, and the calls made, are those of the step |
| Trampoline.RestoreUndoesSave | payload/main.c:231-295 | for any list of different registers and different offsets, and whatever runs in between, restoring gives every saved register its value, if the stack pointer and the frame were left alone |
| Trampoline.CallState | payload/main.c:223-264 | the driver is called on its own stack, 128 bytes below 0x80600000, with its own global pointer |
| Trampoline.EntryRestoresGame | payload/main.c:217-306 | the game gets back every register of the model but $at, stack and global pointer included, for any driver that respects the stack pointer, the frame and the two backup words |
| Trampoline.Machine.Execute | payload/main.c:217-306 | running the instructions one by one computes the program's effect |

## Left out

- MailboxSafety.EveryReceiveGetsItsReply: messages from the N64 are at most 490 bytes, because the host reads at most 512 bytes at a time, and how a longer USB packet is split depends on a USB stack that is not part of this model; replies are at most 488 bytes, the room in the host's packet structure, which `aux_write` does not check.
- MailboxFlow.EveryTransmitIsDelivered: the same bound of 490 bytes holds for log messages, whose buffer in `cln_abi_display_message` has room for 22 more.
- MailboxSafety.CanFinish: liveness is the existence of a run, not fairness; the host may give no reply after a lasting curl error, and then the N64 waits for ever.
- HostLink.AuxWrite: the 488-byte bound is a precondition, because the packet structure has no more room; the USB transfer itself and its error returns are not modelled.
- PostMessage.SplitUndoesJoin: the split is on values; the host's overwriting of the newline inside its buffer is not modelled as an update in place.
- Trampoline.EntryRestoresGame: $at (overwritten by the assembler before it is saved), $k0, $k1, hi, lo and the floating-point registers are not covered; word accesses are assumed aligned.
- PayloadDriver.LifeCycle: `result` is an unbounded integer; the code adds to it at most once, before it stops changing.
- HttpRelay.Response.NetworkPost: the endless loop is modelled over the finite list of attempts it gets to make; sleeping and printing are left out.
- Log messages whose level is above 3: `cln_abi_display_message` adds the level to 0xC0, so level 4 or 5 would be sent as a request without a receive; the levels are defined in a library that is not part of this model, and the protocol treats request types as requests.
- Hardware registers other than the type-and-length word and the busy flag, caches, timing, and the PI busy wait.
- Reuse of a mount entry while descriptors of its former filesystem are open: detaching does not close them, and the map keeps only the entry's index.
- `read`, `write`, `lseek`, `ioctl`, the directory calls, `mkdir` and `unlink`: their descriptor and name lookups are the ones proved here.
- `sbrk`, the stdio and time hooks, the unsupported system calls, `payload/usb.c`, `payload/usb_everdrivex7.c` and `injector/main.c`: nothing but straight-line code.
- libusb, curl, libc, `login.txt` and the JSON text: not part of this model.
