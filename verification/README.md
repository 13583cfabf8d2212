# Linux 0.11 block requests, process exit and signal bookkeeping in Dafny

This project models three table-driven parts of the Linux 0.11 kernel as pure
state transitions and proves properties of them.

- **The block request layer** (`kernel/blk_drv/ll_rw_blk.c`). It covers the
  pool of `NR_REQUEST` (32) request slots and the `NR_BLK_DEV` (7) entry device
  table with one request queue per major number. It also covers the buffer
  lock and the submission path `ll_rw_block` → `make_request` →
  `add_request`, including the elevator insertion. A request queue is the
  sequence of slot indices linked from the device, head first. `IN_ORDER`
  is an abstract order on requests passed as a parameter.
- **Process exit, kill and reaping** (`kernel/exit.c`). The task table is a
  `seq<Option<Task>>`, and the running task (`current`) is a slot index. A
  task pointer is the index of the slot that holds it. `send_sig`,
  `sys_kill`, `kill_session`, `release`, `tell_father`, `do_exit`,
  `sys_exit` and `sys_waitpid` are functions (one method) from a table to a
  new table plus an outcome.
- **Signal dispositions** (`kernel/signal.c`). These are the blocked mask,
  the 32 `sigaction` entries, `sys_sgetmask`, `sys_ssetmask`, `sys_signal`,
  `sys_sigaction` and the decision and stack frame of `do_signal`.

Modules:

| file | module | contents |
|---|---|---|
| common.dfy | `Common` | options, errno values, signal sets and their 32-bit words, the signal numbers from the headers |
| elevator.dfy | `Elevator` | the insertion scan of `add_request` over an abstract order, and the one-wrap-point invariant |
| blk.dfy | `Blk` | request pool, device table, buffer lock, `make_request`, `ll_rw_block`, the pool/queue invariant |
| exit.dfy | `Exit` | task table, `send_sig`, `sys_kill`, `kill_session`, `release`, `tell_father`, `do_exit`, `sys_waitpid` |
| signal.dfy | `Signal` | blocked mask, `sigaction` table, `sys_signal`, `sys_sigaction`, `do_signal` |

Representation choices:

- **Signal words.** A 32-bit signal word (`signal`, `blocked`, `sa_mask`) is
  the set of signal numbers 1..32 whose bit `sig - 1` is set.
  `Common.MaskWord` turns a set back into the word where the code stores one
  as a number. That happens in the frame of `do_signal`, and in the results
  of `sys_sgetmask` and `sys_ssetmask`, where the word is read as a signed
  `int` (`Common.Int32`).
- **32-bit integers.** `Common.Bits` and `Common.Int32` convert between a C
  `int`/`long` and its 32-bit pattern; `Common.Long` is the wrap-around of
  a 32-bit addition.
- **Header constants.** The numeric values of SIGHUP, SIGKILL and SIGCHLD
  come from headers that are not part of this model. They are a `Signals`
  record, constrained only to be distinct numbers in 1..32.
  `SA_NOMASK`/`SA_ONESHOT` and `WNOHANG`/`WUNTRACED` are enumerated flags.
  `NR_TASKS` is the length of the table, at least 2.
- **Blocking points.** `sleep_on`, `schedule` and the driver kick are outcome
  values: `SleepOnBuffer`, `SleepOnRequest`, `Sleep`, and `kicked`.
  `panic()` is the `Panic` / `BadCommand` outcome.

## Model

| member | source | states |
|---|---|---|
| Common.MaskOfWord | kernel/signal.c:122-123 | a signal is in the set read from a word exactly when it is in 1..32 and its bit is set |
| Common.WordFromBit | kernel/signal.c:122-123 | bit `sig - 1` of the word built from a signal set records whether `sig` is in the set |
| Common.MaskWordHas | kernel/signal.c:122-123 | bit `sig - 1` of a stored signal set is set exactly when `sig` is a member |
| Common.MaskWordRoundTrip | kernel/signal.c:122-123 | reading back the word a signal set is stored as gives the same set |
| Common.WordRoundTrip | kernel/signal.c:14-25 | reading a 32-bit word as a signal set and storing the set again gives the same word, so no bit of a mask is lost |
| Elevator.ScanFrom | kernel/blk_drv/ll_rw_blk.c:111-115 | the scan from node `j` links after the first node where it stops, or at the tail when it never stops |
| Elevator.InsertPos | kernel/blk_drv/ll_rw_blk.c:111-115 | the new request is linked after the first node where the elevator test holds, never before the head |
| Elevator.Insert | kernel/blk_drv/ll_rw_blk.c:116-117 | the queue grows by one, the head is kept, the new request sits at the insert position, and the old queue is what remains when it is removed |
| Elevator.PastWrap | kernel/blk_drv/ll_rw_blk.c:111-115 | when the scan runs to the tail past the wrap point, the new request follows every node after the wrap point |
| Elevator.InsertInside | kernel/blk_drv/ll_rw_blk.c:111-117 | a request linked where the scan stopped keeps the queue to at most one wrap point |
| Elevator.InsertAtTail | kernel/blk_drv/ll_rw_blk.c:111-117 | a request linked at the tail, where the scan never stopped, keeps the queue to at most one wrap point |
| Elevator.InsertKeepsOneWrap | kernel/blk_drv/ll_rw_blk.c:111-117 | with pairwise distinct keys, a queue with at most one out-of-order adjacent pair still has at most one after the insertion |
| Blk.FirstSector | kernel/blk_drv/ll_rw_blk.c:169 | the first sector is twice the block number, modulo 2^32 |
| Blk.BlkDevInit | kernel/blk_drv/ll_rw_blk.c:203-211 | `blk_dev_init` leaves all 32 slots free |
| Blk.InitCoherent | kernel/blk_drv/ll_rw_blk.c:65-73 | the initial pool with the static, queue-less device table satisfies the pool/queue invariant |
| Blk.LockBuffer | kernel/blk_drv/ll_rw_blk.c:75-82 | a locked buffer makes the caller sleep; an unlocked one is taken, and only its lock flag changes |
| Blk.UnlockBuffer | kernel/blk_drv/ll_rw_blk.c:84-90 | the lock flag is cleared and nothing else changes; the message is printed exactly when the buffer was not locked |
| Blk.LockUnlockRoundTrip | kernel/blk_drv/ll_rw_blk.c:75-90 | locking a free buffer and unlocking it gives the buffer back, with no message |
| Blk.Major | kernel/blk_drv/ll_rw_blk.c:190 | the major number is the high byte of the device number: `dev` lies in `[256 * major, 256 * major + 256)` |
| Blk.AlreadyDone | kernel/blk_drv/ll_rw_blk.c:139 | a write of a clean buffer or a read of an up-to-date one needs no transfer |
| Blk.FindFree | kernel/blk_drv/ll_rw_blk.c:152-155 | the chosen slot is the highest-index free slot below the limit, and there is none exactly when no slot below the limit is free |
| Blk.SlotLimit | kernel/blk_drv/ll_rw_blk.c:144-151 | a read searches all 32 slots, a write only the lowest 21 |
| Blk.AddRequest | kernel/blk_drv/ll_rw_blk.c:97-119 | the driver is kicked exactly when the queue was empty; otherwise the head stays, and the new slot is linked at the elevator position with the other slots in their old order |
| Blk.AddRequestKeepsOneWrap | kernel/blk_drv/ll_rw_blk.c:111-117 | `add_request` keeps a device queue to at most one wrap point |
| Blk.NewRequest | kernel/blk_drv/ll_rw_blk.c:165-174 | the filled request has the buffer's device, the command, no errors, sector `2 * blocknr`, two sectors, and refers back to the buffer |
| Blk.Enqueue | kernel/blk_drv/ll_rw_blk.c:165-175 | the filled request goes into the given slot, the queue of its device is the one `add_request` builds, and no other slot or queue changes |
| Blk.FromRepeat | kernel/blk_drv/ll_rw_blk.c:143-176 | a request is queued exactly when a free slot is in range, in the highest such slot, and only that slot and that device's queue change; otherwise an ahead request unlocks and gives up, and a normal one sleeps holding the lock |
| Blk.MakeRequest | kernel/blk_drv/ll_rw_blk.c:121-142 | an ahead request on a locked buffer is dropped; other commands panic; READ/WRITE on a locked buffer sleeps; a clean write or up-to-date read is satisfied without a slot, the buffer unlocked again |
| Blk.LlRwBlock | kernel/blk_drv/ll_rw_blk.c:180-196 | the request is refused with the message (`NoDevice`) exactly when the major number is 7 or more or the device has no driver; otherwise it goes to `make_request` |
| Blk.QueuedSlotsUpdate | kernel/blk_drv/ll_rw_blk.c:116-117 | linking one slot into one device queue adds exactly that slot to the slots queued over all devices |
| Blk.UnqueuedSlot | kernel/blk_drv/ll_rw_blk.c:166 | a slot on no queue is counted zero times among the queued slots |
| Blk.LinkKeepsCoherent | kernel/blk_drv/ll_rw_blk.c:166-175 | filling a free slot for a device and linking it into that device's queue keeps every queued slot serving its device and no slot queued twice |
| Blk.LlRwBlockKeepsCoherent | kernel/blk_drv/ll_rw_blk.c:180-196 | every submission that queues a request keeps the pool/queue invariant |
| Blk.ReadReserve | kernel/blk_drv/ll_rw_blk.c:144-164 | when the write range is full but the last third has a free slot, a read is queued there while a write sleeps and a write-ahead gives up |
| Blk.LockedBufferNotQueued | kernel/blk_drv/ll_rw_blk.c:128-138 | a submission against a locked buffer never takes a slot |
| Blk.QueuedLeavesBufferLocked | kernel/blk_drv/ll_rw_blk.c:103-104 | a queued transfer leaves its buffer locked with the dirty flag cleared, a write only in the write range, and an ahead request never sleeps on the pool |
| Exit.Signalled | kernel/exit.c:100 | exactly signal `sig` is added to the task's pending set, and no other field changes |
| Exit.SendSig | kernel/exit.c:35-44 | a null target or a number outside 1..32 gives EINVAL and no change; with privilege, the same euid or root, exactly bit `sig` is set; otherwise EPERM and no change |
| Exit.Suser | kernel/exit.c:39 | `suser()`, taken as an effective user id of 0 |
| Exit.KillSelects | kernel/exit.c:67-86 | the four-way selector: the caller's pid as process group for 0, that pid for a positive pid, every slot (empty ones too) for -1, process group `-pid` otherwise |
| Exit.KillSlot | kernel/exit.c:67-86 | a selected slot gets `send_sig`, privileged only for `pid == 0`; an unselected slot is left alone with no error |
| Exit.SysKill | kernel/exit.c:60-88 | each slot 1.. gets the send its selector picks, and slot 0 is untouched; the result is the error of the lowest failing slot, or 0; `pid == 0` signals the caller's pid group with privilege; for `pid == -1` an empty slot forces an error while every permitted task is still signalled |
| Exit.KillSessionBelow | kernel/exit.c:46-54 | SIGHUP is added to exactly the tasks of the session in slots 1 to `i - 1` |
| Exit.KillSession | kernel/exit.c:46-54 | every task of the session in slots 1.. gets SIGHUP; no other slot, and no other field, changes |
| Exit.Release | kernel/exit.c:19-33 | a null pointer does nothing; otherwise only the task's slot is emptied, and a task not in slots 1.. panics |
| Exit.FindPid | kernel/exit.c:94-99 | the first slot in index order holding the pid, or none when no slot holds it |
| Exit.TellFather | kernel/exit.c:90-109 | SIGCHLD goes to the first task with the father's pid, slot 0 included, with nothing else changed; with father 0 or none found, the caller's own slot is released |
| Exit.ReparentFrom | kernel/exit.c:121-128 | every child of the caller in the scanned slots gets father 1; slot 1 gets SIGCHLD exactly when one of them is a zombie |
| Exit.ReparentPreservesZombies | kernel/exit.c:121-128 | one step of the loop does not change which later slots hold zombie children |
| Exit.ReparentAll | kernel/exit.c:121-128 | over the whole table, children get father 1 and no other father changes; init gets SIGCHLD exactly when a child was a zombie |
| Exit.HangUpAll | kernel/exit.c:160-161 | `kill_session` as a per-slot signal update: SIGHUP for slots 1.. of the session, nothing else |
| Exit.ZombieSlot | kernel/exit.c:121-164 | composing the reparent, hang-up and zombie steps on one task gives the combined field update |
| Exit.FatherAtExit | kernel/exit.c:121-123 | the caller's father after the reparent loop: 1 if it was its own father, unchanged otherwise |
| Exit.FatherAfterReparent | kernel/exit.c:165 | the father `tell_father` is called with is the caller's father field after the reparent loop has run |
| Exit.ZombieTable | kernel/exit.c:121-164 | before `tell_father`, no slot is emptied or filled; children have father 1, init has SIGCHLD if a child was a zombie, and the leader's session has SIGHUP; the caller alone is a zombie with the exit code |
| Exit.SamePidsFindPid | kernel/exit.c:94-99 | tables with the same pids in the same slots give the same father lookup |
| Exit.DoExit | kernel/exit.c:111-169 | panics exactly for slot 0 without a father; clears the tty pgrp only for a leader with a tty, and drops the coprocessor owner only when it was the caller; the father found gets SIGCHLD in the zombie table, otherwise the caller's slot is released |
| Exit.SysExitCode | kernel/exit.c:171-174 | the status holds the low byte of the argument in its high byte, and its low byte is zero |
| Exit.SysExit | kernel/exit.c:171-174 | with a father, the caller is left a zombie whose status has the argument's low byte as its high byte |
| Exit.WaitSelects | kernel/exit.c:192-203 | the waitpid selector: that pid, the caller's process group, process group `-pid`, or any child for -1 |
| Exit.WaitMatch | kernel/exit.c:184-203 | a slot the scan considers: slots 1.. other than the caller's, holding a child of the caller that the selector picks |
| Exit.WaitScan | kernel/exit.c:184-229 | the scan stops at the highest slot holding a matching zombie, or a matching stopped child under WUNTRACED; otherwise it reports whether a live match was seen |
| Exit.Charged | kernel/exit.c:213-216 | the reaped child's user and system times are added to the caller's children times with 32-bit `long` wrap-around, exactly when no overflow occurs the plain sums, and nothing else changes |
| Common.Long | kernel/exit.c:214-216 | a sum stored in a 32-bit `long` keeps the bit pattern of the exact sum, in the signed range, and equals it when it fits |
| Exit.SysWaitpid | kernel/exit.c:176-241 | reaps the highest reportable zombie match, charging its times and releasing its slot, with status its exit code; reports a stopped match with 0x7f only under WUNTRACED; returns 0 under WNOHANG or sleeps interruptibly exactly when only live matches exist; ECHILD exactly when none is reportable or live |
| Exit.WaitWake | kernel/exit.c:233-238 | after waking, SIGCHLD is cleared and nothing else changes; the scan repeats exactly when no other signal is pending |
| Exit.WaitReapsZombie | kernel/exit.c:211-223 | waiting on the pid of a zombie child no other slot shares reaps it with its exit code |
| Exit.ExitSignalsFather | kernel/exit.c:90-109 | when the father is found in slot `p`, `sys_exit` completes and its table is the zombie table with SIGCHLD added in slot `p` |
| Exit.ZombiePids | kernel/exit.c:121-164 | the zombie table keeps every task in its slot with its pid, and the caller is a zombie holding the code with its father as read at exit |
| Exit.ExitLeavesZombie | kernel/exit.c:163-174 | after `sys_exit(e)` with a father present, the task is a zombie with status `(e & 0xff) << 8`, the father has SIGCHLD, and every pid is where it was |
| Exit.ExitThenWaitReaps | kernel/exit.c:171-224 | a child's `sys_exit(e)` followed by its father's `waitpid` on its pid returns the child's pid with status `(e & 0xff) << 8` |
| Common.Bits | kernel/signal.c:24 | the bit pattern of an `int` is the 32-bit word congruent to it modulo 2^32, the number itself when it is a non-negative word |
| Common.Int32 | kernel/signal.c:110 | the `int` with a given 32-bit pattern is in the signed 32-bit range |
| Signal.Pow2Bit | kernel/signal.c:110 | `1 << n` has bit `n` set and no other |
| Common.Pow2Below | kernel/signal.c:110 | `1 << n` is below 2^31 for `n < 31` and equals 2^31 for `n == 31` |
| Signal.SysSgetmask | kernel/signal.c:15-18 | the returned `int` has the bit pattern of the blocked set, and is negative exactly when signal 32 is blocked |
| Signal.SysSsetmask | kernel/signal.c:20-26 | `blocked` becomes the signals of `newmask` minus SIGKILL, so SIGKILL is never blocked; the old mask is returned as a signed `int` whose bits are the old blocked set, negative exactly when signal 32 was blocked |
| Signal.SignedMaskUnique | kernel/signal.c:14-25 | only one `int` in the signed range has a given blocked set as its bits, the one `sys_sgetmask` returns, so `sys_ssetmask`'s old mask is that value |
| Signal.SetThenGetMask | kernel/signal.c:15-26 | after `sys_ssetmask(newmask)`, `sys_sgetmask` reports exactly the signals of `newmask` other than SIGKILL |
| Signal.Settable | kernel/signal.c:52 | the signal numbers `sys_signal` and `sys_sigaction` accept: 1..32 except SIGKILL (also line 68) |
| Signal.SysSignal | kernel/signal.c:48-61 | a number outside 1..32 or SIGKILL gives -1 and no change; otherwise only entry `signum - 1` changes, to the handler with empty mask, ONESHOT and NOMASK and the restorer, and the old handler is returned |
| Signal.SignalRestoresHandler | kernel/signal.c:54-60 | passing the handler `sys_signal` returned back to it restores the previous handler |
| Signal.Normalised | kernel/signal.c:75-78 | with SA_NOMASK the mask is emptied; otherwise the signal itself is added and the rest of the mask and the action are kept |
| Signal.SysSigaction | kernel/signal.c:63-80 | same rejection as `sys_signal`; otherwise only entry `signum - 1` changes, to the new action with its mask normalised, and the previous action is handed back |
| Signal.SigactionIdempotent | kernel/signal.c:70-78 | installing again the action `sys_sigaction` stored changes nothing and hands that action back |
| Signal.DefaultCode | kernel/signal.c:110 | the default exit code is an `int` in the signed 32-bit range with only bit `signr - 1` set, negative for signal 32 |
| Signal.FrameWords | kernel/signal.c:116-128 | the frame is 7 words with SA_NOMASK and 8 without |
| Signal.DoSignal | kernel/signal.c:86-130 | SIG_IGN, or SIG_DFL for SIGCHLD, does nothing; SIG_DFL otherwise exits with `1 << (signr - 1)`; a handler gets the frame with eip set to the handler and esp lowered by the frame, blocked widened by `sa_mask`, and a one-shot entry reset to SIG_DFL with the other entries unchanged |
| Signal.DecodeFrame | kernel/signal.c:119-128 | a 7-word frame, or an 8-word frame with a word mask, decodes |
| Signal.FrameRoundTrip | kernel/signal.c:115-129 | the frame gives back the restorer, the signal, the registers and eip, and the blocked mask from before `sa_mask` was added; popping it restores esp |
| Signal.OneShotThenDefault | kernel/signal.c:113-114 | after a one-shot handler runs, the next delivery of that signal takes the default action |
| Signal.KillBlockedThroughSaMask | kernel/signal.c:68-78 | a handler installed by `sys_sigaction` with SIGKILL in `sa_mask` runs with SIGKILL blocked, unlike after `sys_ssetmask` |

## Left out

- The bodies of `cli`/`sti`, `sleep_on`, `wake_up` and `schedule`. They are
  interrupt masking and scheduling. Each blocking point is an outcome
  value, and the caller re-enters the model after waking:
  - `FromRepeat` after `SleepOnRequest`.
  - `MakeRequest` after `SleepOnBuffer`.
  - `WaitWake` then `SysWaitpid` after `Sleep`.
- The driver `request_fn` bodies and the completion path, which frees
  slots, advances queues and unlocks buffers. They are not part of this
  model; the kick is the boolean `kicked`.
- `IN_ORDER` and `MAJOR` are macros defined outside the modelled files:
  - `IN_ORDER` is an abstract parameter.
  - `MAJOR(dev)` is taken as `dev / 256`, as the comment at
    ll_rw_blk.c:185-188 describes it.
- The request fields `buffer`, `waiting` and `next`:
  - The queue order stands for `next`.
  - `buffer` is `bh->b_data` (ll_rw_blk.c:171), derivable from the buffer
    the request refers back to.
  - `waiting` is set to null (ll_rw_blk.c:172).
- `free_page_tables`, `free_page`, `iput`, `sys_close` and the `tty_table`
  contents are memory and file-system collaborators. `do_exit` reports the
  tty whose `pgrp` it clears instead.
- `last_task_used_math` is tracked only as a slot reference that is
  cleared.
- `verify_area`, `put_fs_long`, `get_fs_byte`, `save_old` and `get_new`
  copy to and from user space:
  - the new `sigaction` is an input;
  - the old one, the status word and the frame are returned values.
- A non-null `oldaction` is not distinguished from a null one; the previous
  action is always returned.
- `printk` has no effect in the model. `UnlockBuffer` returns whether it
  would print, and `release` of an unknown task is `Panic`.
- The numeric values of the signal, `SA_*` and `W*` constants and of the
  errno values, which come from headers that are not part of this model.
- `suser()` is defined in a header that is not part of this model; it is
  taken as `euid == 0`.
- Blk.FirstSector: the buffer's block number is an unbounded `nat`; the
  shift is kept modulo 2^32, like the 32-bit `sector` field it is stored
  in.
- Signal.DoSignal: `esp` and the saved words are unbounded integers. The
  32-bit wrap of the stack pointer and of the stored registers is not
  modelled.
- Exit.SysExit: it is `do_exit` with the computed status, so its contract
  covers only the panic condition and the stored status.
- `sa_flags` bits other than SA_NOMASK and SA_ONESHOT (SA_NOCLDSTOP, for
  instance): `SigAction.flags` holds only the two bits the modelled code
  tests. Any other bit that `sys_sigaction` copies in and hands back
  (signal.c:70-74) is not represented.
- The other time fields of a task (`utime`, `stime`) are inputs; only the
  two sums `sys_waitpid` stores are wrapped to 32 bits.
