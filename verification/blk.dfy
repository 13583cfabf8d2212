/** The block request layer of kernel/blk_drv/ll_rw_blk.c: the fixed pool of
    request slots, the per-major device table with its request queues, the
    buffer lock, and the submission path `ll_rw_block` / `make_request` /
    `add_request`. Sleeping and driver kicks are outcome values. */
module Blk {
  import opened Common
  import Elevator

  /** Size of the request pool. */
  const NR_REQUEST: nat := 32
  /** Number of entries of the block device table (major numbers 0..6). */
  const NR_BLK_DEV: nat := 7
  /** Writes may only take request slots below this index: the last third of
      the pool is kept for reads. */
  const WRITE_LIMIT: nat := (NR_REQUEST * 2) / 3

  /** Block commands. */
  const READ: int := 0
  const WRITE: int := 1
  const READA: int := 2
  const WRITEA: int := 3

  /** The fields of a buffer head the request layer looks at. `id` stands for
      the buffer head's address, the identity a request refers back to. */
  datatype Buffer = Buffer(id: nat, dev: nat, blocknr: nat, lock: bool, dirt: bool, uptodate: bool)

  /** A request slot. The slot is free iff `dev < 0`; `bh` is the buffer the
      transfer reads into or writes from. */
  datatype Request = Request(dev: int, cmd: int, errors: int, sector: nat, nrSectors: nat, bh: Option<nat>)

  /** An entry of the block device table: whether a driver registered its
      `request_fn`, and the device's request queue as slot indices, the head
      (the request the driver is serving) first. */
  datatype BlkDev = BlkDev(hasRequestFn: bool, queue: seq<nat>)

  /** The request pool and the device table. */
  datatype BlkState = BlkState(pool: seq<Request>, devs: seq<BlkDev>)

  predicate Free(r: Request) {
    r.dev < 0
  }

  predicate WellSized(st: BlkState) {
    |st.pool| == NR_REQUEST && |st.devs| == NR_BLK_DEV
  }

  /** Major device number: the high byte of the device number. */
  function Major(dev: nat): (m: nat)
    ensures m * 256 <= dev < m * 256 + 256
  {
    dev / 256
  }

  /** The first sector of a block of two 512-byte sectors, in the request's
      32-bit unsigned sector field. */
  function FirstSector(blocknr: nat): (s: nat)
    ensures s < 0x1_0000_0000
    ensures (2 * blocknr - s) % 0x1_0000_0000 == 0
    ensures blocknr < 0x8000_0000 ==> s == 2 * blocknr
  {
    (2 * blocknr) % 0x1_0000_0000
  }

  /** Slot `e` holds a request for a device of major `d`. */
  predicate Serves(pool: seq<Request>, d: nat, e: nat) {
    e < |pool| && !Free(pool[e]) && Major(pool[e].dev as nat) == d
  }

  /** The slots linked into the queues of the first `n` devices, with multiplicity. */
  function QueuedSlots(devs: seq<BlkDev>, n: nat): multiset<nat>
    requires n <= |devs|
  {
    if n == 0 then multiset{} else QueuedSlots(devs, n - 1) + multiset(devs[n - 1].queue)
  }

  /** The state invariant the submission path keeps: every queued slot holds a
      request for its queue's device, and no slot is linked twice. */
  ghost predicate Coherent(st: BlkState) {
    && WellSized(st)
    && (forall d: nat, e :: d < |st.devs| && e in st.devs[d].queue ==> Serves(st.pool, d, e))
    && (forall e :: QueuedSlots(st.devs, |st.devs|)[e] <= 1)
  }

  /** `blk_dev_init`: the request pool with every slot free. */
  function BlkDevInit(): (pool: seq<Request>)
    ensures |pool| == NR_REQUEST
    ensures forall i :: 0 <= i < |pool| ==> Free(pool[i])
  {
    seq(NR_REQUEST, _ => Request(-1, READ, 0, 0, 0, None))
  }

  /** The pool of `blk_dev_init` with the static device table, whose queues are
      empty, satisfies the invariant. */
  lemma InitCoherent(fns: seq<bool>)
    requires |fns| == NR_BLK_DEV
    ensures Coherent(BlkState(BlkDevInit(), seq(NR_BLK_DEV, d requires 0 <= d < NR_BLK_DEV => BlkDev(fns[d], []))))
  {
    var devs := seq(NR_BLK_DEV, d requires 0 <= d < NR_BLK_DEV => BlkDev(fns[d], []));
    EmptyQueues(devs, |devs|);
  }

  lemma {:induction false} EmptyQueues(devs: seq<BlkDev>, n: nat)
    requires n <= |devs|
    requires forall d :: 0 <= d < |devs| ==> devs[d].queue == []
    ensures QueuedSlots(devs, n) == multiset{}
  {
    if n > 0 {
      EmptyQueues(devs, n - 1);
    }
  }

  /** What `lock_buffer` does: sleep while the buffer is locked, else take it. */
  datatype LockStep = MustSleep | Acquired(bh: Buffer)

  function LockBuffer(bh: Buffer): (r: LockStep)
    ensures r.MustSleep? <==> bh.lock
    ensures r.Acquired? ==> r.bh.lock && r.bh.(lock := false) == bh
  {
    if bh.lock then MustSleep else Acquired(bh.(lock := true))
  }

  /** `unlock_buffer`: the buffer afterwards, and whether the "buffer not
      locked" message was printed. Waking the waiters is left to the caller. */
  function UnlockBuffer(bh: Buffer): (r: (Buffer, bool))
    ensures !r.0.lock && r.0.(lock := bh.lock) == bh
    ensures r.1 <==> !bh.lock
  {
    (bh.(lock := false), !bh.lock)
  }

  /** Locking a free buffer and unlocking it again gives back the same buffer,
      with no message. */
  lemma LockUnlockRoundTrip(bh: Buffer)
    requires !bh.lock
    ensures LockBuffer(bh).Acquired?
    ensures UnlockBuffer(LockBuffer(bh).bh) == (bh, false)
  {
  }

  /** Slot `i` is free and no slot above it below `limit` is. */
  predicate HighestFree(pool: seq<Request>, limit: nat, i: nat)
    requires limit <= |pool|
  {
    i < limit && Free(pool[i]) && forall j :: i < j < limit ==> !Free(pool[j])
  }

  /** No slot below `limit` is free. */
  predicate NoneFree(pool: seq<Request>, limit: nat)
    requires limit <= |pool|
  {
    forall j :: 0 <= j < limit ==> !Free(pool[j])
  }

  /** The slot search of `make_request`: the highest-index free slot below `limit`. */
  function FindFree(pool: seq<Request>, limit: nat): (r: Option<nat>)
    requires limit <= |pool|
    ensures r.Some? ==> HighestFree(pool, limit, r.value)
    ensures r.None? <==> NoneFree(pool, limit)
    decreases limit
  {
    if limit == 0 then None
    else if Free(pool[limit - 1]) then Some(limit - 1)
    else FindFree(pool, limit - 1)
  }

  /** How many slots a command may search: all of them for a read, the lower
      two thirds for a write. */
  function SlotLimit(rw: int): (n: nat)
    requires rw == READ || rw == WRITE
    ensures n <= NR_REQUEST
    ensures rw == READ ==> n == NR_REQUEST
    ensures rw == WRITE ==> n == 21
  {
    if rw == READ then NR_REQUEST else WRITE_LIMIT
  }

  /** `IN_ORDER` lifted to slot indices of `pool`. */
  function SlotOrder(pool: seq<Request>, inOrder: (Request, Request) -> bool): (nat, nat) -> bool {
    (a: nat, b: nat) => a < |pool| && b < |pool| && inOrder(pool[a], pool[b])
  }

  /** The queue after `add_request`, and whether the driver's `request_fn` was called. */
  datatype Added = Added(queue: seq<nat>, kicked: bool)

  /** `add_request`: a request on an idle device becomes the head and kicks the
      driver; otherwise it is linked in by the elevator scan, the head stays,
      and the driver is not called. */
  function AddRequest(q: seq<nat>, slot: nat, pool: seq<Request>, inOrder: (Request, Request) -> bool): (r: Added)
    ensures r.kicked <==> |q| == 0
    ensures |q| == 0 ==> r.queue == [slot]
    ensures |r.queue| == |q| + 1
    ensures multiset(r.queue) == multiset(q) + multiset{slot}
    ensures |q| > 0 ==> r.queue[0] == q[0]
    ensures |q| > 0 ==>
      var p := Elevator.InsertPos(q, slot, SlotOrder(pool, inOrder));
      r.queue[p] == slot && r.queue[..p] + r.queue[p + 1..] == q
  {
    if |q| == 0 then Added([slot], true)
    else Added(Elevator.Insert(q, slot, SlotOrder(pool, inOrder)), false)
  }

  /** The elevator property of a device queue: with pairwise distinct keys, a
      queue with at most one wrap point keeps at most one after `add_request`. */
  lemma AddRequestKeepsOneWrap(q: seq<nat>, slot: nat, pool: seq<Request>, inOrder: (Request, Request) -> bool)
    requires Elevator.AtMostOneWrap(q, SlotOrder(pool, inOrder))
    requires Elevator.StrictTotalOn(q + [slot], SlotOrder(pool, inOrder))
    ensures Elevator.AtMostOneWrap(AddRequest(q, slot, pool, inOrder).queue, SlotOrder(pool, inOrder))
  {
    if |q| > 0 {
      Elevator.InsertKeepsOneWrap(q, slot, SlotOrder(pool, inOrder));
    }
  }

  /** The outcome of a block submission. Outcomes without a state leave the
      pool, the queues and the buffer as they were. */
  datatype Submit =
    | NoDevice                        // bad major or no driver: message only
    | Dropped                         // read/write-ahead on a locked buffer
    | BadCommand                      // panic: not READ, WRITE, READA or WRITEA
    | SleepOnBuffer                   // lock_buffer sleeps until the buffer is unlocked
    | Satisfied(bh: Buffer)           // nothing to transfer; the buffer is unlocked again
    | AheadNoSlot(bh: Buffer)         // no free slot for a read/write-ahead; unlocked, given up
    | SleepOnRequest(bh: Buffer)      // no free slot: sleep on wait_for_request, then retry
    | Queued(st: BlkState, bh: Buffer, slot: nat, kicked: bool)

  /** The request `make_request` fills in for a transfer of `bh`. */
  function NewRequest(rw: int, bh: Buffer): (r: Request)
    ensures !Free(r) && r.dev == bh.dev && Major(r.dev as nat) == Major(bh.dev)
    ensures r.cmd == rw && r.errors == 0 && r.nrSectors == 2
    ensures r.sector == FirstSector(bh.blocknr) && r.bh == Some(bh.id)
  {
    Request(bh.dev, rw, 0, FirstSector(bh.blocknr), 2, Some(bh.id))
  }

  /** The part of `make_request` from the label `repeat`: find a slot, fill it
      and queue it. This is also where a caller woken from `SleepOnRequest`
      resumes, with the buffer still locked. */
  function FromRepeat(st: BlkState, major: nat, rw: int, ahead: bool, bh: Buffer,
                      inOrder: (Request, Request) -> bool): (r: Submit)
    requires WellSized(st) && major < NR_BLK_DEV
    requires rw == READ || rw == WRITE
    requires bh.lock
    ensures r.Queued? || r.AheadNoSlot? || r.SleepOnRequest?
    ensures !r.Queued? <==> NoneFree(st.pool, SlotLimit(rw))
    ensures r.AheadNoSlot? ==> ahead && r.bh == bh.(lock := false)
    ensures r.SleepOnRequest? ==> !ahead && r.bh == bh
    ensures r.Queued? ==>
      && HighestFree(st.pool, SlotLimit(rw), r.slot)
      && Linked(st, major, rw, bh, r, inOrder)
  {
    match FindFree(st.pool, SlotLimit(rw))
    case None =>
      if ahead then AheadNoSlot(UnlockBuffer(bh).0) else SleepOnRequest(bh)
    case Some(i) => Enqueue(st, major, rw, bh, i, inOrder)
  }

  /** `r` queues the request for `bh` in slot `r.slot`: only that slot of
      the pool changes, to the request `make_request` fills in, and only the
      queue of device `major` changes, by `add_request`. */
  predicate Linked(st: BlkState, major: nat, rw: int, bh: Buffer, r: Submit,
                   inOrder: (Request, Request) -> bool)
    requires WellSized(st) && major < NR_BLK_DEV
  {
    && r.Queued? && r.slot < NR_REQUEST
    && |r.st.pool| == NR_REQUEST
    && r.st.pool[r.slot] == NewRequest(rw, bh)
    && (forall j :: 0 <= j < NR_REQUEST && j != r.slot ==> r.st.pool[j] == st.pool[j])
    && r.bh == bh.(dirt := false)
    && |r.st.devs| == NR_BLK_DEV
    && (forall d :: 0 <= d < NR_BLK_DEV && d != major ==> r.st.devs[d] == st.devs[d])
    && r.st.devs[major].hasRequestFn == st.devs[major].hasRequestFn
    && Added(r.st.devs[major].queue, r.kicked) == AddRequest(st.devs[major].queue, r.slot, r.st.pool, inOrder)
  }

  /** The request for `bh` filled into the free slot `i` and linked into the
      queue of device `major`. */
  function Enqueue(st: BlkState, major: nat, rw: int, bh: Buffer, i: nat,
                   inOrder: (Request, Request) -> bool): (r: Submit)
    requires WellSized(st) && major < NR_BLK_DEV && i < NR_REQUEST
    ensures Linked(st, major, rw, bh, r, inOrder) && r.slot == i
  {
    var pool := st.pool[i := NewRequest(rw, bh)];
    var dev := st.devs[major];
    var added := AddRequest(dev.queue, i, pool, inOrder);
    var devs := st.devs[major := BlkDev(dev.hasRequestFn, added.queue)];
    Queued(BlkState(pool, devs), bh.(dirt := false), i, added.kicked)
  }

  /** A transfer that is already satisfied: writing a clean buffer, or reading
      one that is up to date. */
  predicate AlreadyDone(rw: int, bh: Buffer) {
    (rw == WRITE && !bh.dirt) || (rw == READ && bh.uptodate)
  }

  /** `make_request` for a device whose driver is registered. */
  function MakeRequest(st: BlkState, major: nat, rw: int, bh: Buffer,
                       inOrder: (Request, Request) -> bool): (r: Submit)
    requires WellSized(st) && major < NR_BLK_DEV
    ensures (rw == READA || rw == WRITEA) && bh.lock ==> r == Dropped
    ensures !(READ <= rw <= WRITEA) ==> r == BadCommand
    ensures (rw == READ || rw == WRITE) && bh.lock ==> r == SleepOnBuffer
    ensures READ <= rw <= WRITEA && !bh.lock ==>
      var cmd := if rw == READA then READ else if rw == WRITEA then WRITE else rw;
      if AlreadyDone(cmd, bh) then r == Satisfied(bh)
      else r == FromRepeat(st, major, cmd, rw == READA || rw == WRITEA, bh.(lock := true), inOrder)
  {
    var ahead := rw == READA || rw == WRITEA;
    if ahead && bh.lock then Dropped
    else
      var cmd := if rw == READA then READ else if rw == WRITEA then WRITE else rw;
      if cmd != READ && cmd != WRITE then BadCommand
      else match LockBuffer(bh)
        case MustSleep => SleepOnBuffer
        case Acquired(locked) =>
          if AlreadyDone(cmd, locked) then Satisfied(UnlockBuffer(locked).0)
          else FromRepeat(st, major, cmd, ahead, locked, inOrder)
  }

  /** `ll_rw_block`: submit a transfer of `bh`, unless its major number is out
      of range or has no driver, in which case nothing changes. */
  function LlRwBlock(st: BlkState, rw: int, bh: Buffer, inOrder: (Request, Request) -> bool): (r: Submit)
    requires WellSized(st)
    ensures r.NoDevice? <==> Major(bh.dev) >= NR_BLK_DEV || !st.devs[Major(bh.dev)].hasRequestFn
    ensures !r.NoDevice? ==> r == MakeRequest(st, Major(bh.dev), rw, bh, inOrder)
  {
    var major := Major(bh.dev);
    if major >= NR_BLK_DEV || !st.devs[major].hasRequestFn then NoDevice
    else MakeRequest(st, major, rw, bh, inOrder)
  }

  lemma {:induction false} QueuedSlotsUpdate(devs: seq<BlkDev>, devs2: seq<BlkDev>, major: nat, x: nat, n: nat)
    requires |devs2| == |devs| && n <= |devs| && major < |devs|
    requires forall d :: 0 <= d < |devs| && d != major ==> devs2[d] == devs[d]
    requires multiset(devs2[major].queue) == multiset(devs[major].queue) + multiset{x}
    ensures QueuedSlots(devs2, n) == QueuedSlots(devs, n) + (if major < n then multiset{x} else multiset{})
  {
    if n > 0 {
      QueuedSlotsUpdate(devs, devs2, major, x, n - 1);
    }
  }

  lemma {:induction false} UnqueuedSlot(devs: seq<BlkDev>, n: nat, x: nat)
    requires n <= |devs|
    requires forall d :: 0 <= d < n ==> x !in devs[d].queue
    ensures QueuedSlots(devs, n)[x] == 0
  {
    if n > 0 {
      UnqueuedSlot(devs, n - 1, x);
    }
  }

  /** Filling a free slot `i` with a request for major `major` and linking it
      into that device's queue keeps the state invariant: the slot was free,
      so it was on no queue. */
  lemma LinkKeepsCoherent(st: BlkState, st2: BlkState, major: nat, i: nat)
    requires Coherent(st) && WellSized(st2)
    requires major < NR_BLK_DEV && i < NR_REQUEST
    requires Free(st.pool[i]) && Serves(st2.pool, major, i)
    requires forall j :: 0 <= j < NR_REQUEST && j != i ==> st2.pool[j] == st.pool[j]
    requires forall d :: 0 <= d < NR_BLK_DEV && d != major ==> st2.devs[d] == st.devs[d]
    requires multiset(st2.devs[major].queue) == multiset(st.devs[major].queue) + multiset{i}
    ensures Coherent(st2)
  {
    forall d: nat | d < |st.devs|
      ensures i !in st.devs[d].queue
    {
      assert !Serves(st.pool, d, i);
    }
    forall d: nat, e | d < |st2.devs| && e in st2.devs[d].queue
      ensures Serves(st2.pool, d, e)
    {
      if e != i {
        assert e in st.devs[d].queue by {
          if d == major {
            assert e in multiset(st2.devs[major].queue);
          }
        }
        assert Serves(st.pool, d, e);
        assert st2.pool[e] == st.pool[e];
      }
    }
    QueuedSlotsUpdate(st.devs, st2.devs, major, i, |st.devs|);
    UnqueuedSlot(st.devs, |st.devs|, i);
    forall e
      ensures QueuedSlots(st2.devs, |st2.devs|)[e] <= 1
    {
      assert QueuedSlots(st.devs, |st.devs|)[e] <= 1;
    }
  }

  /** A submission that queues a request keeps the state invariant. */
  lemma LlRwBlockKeepsCoherent(st: BlkState, rw: int, bh: Buffer, inOrder: (Request, Request) -> bool)
    requires Coherent(st)
    ensures LlRwBlock(st, rw, bh, inOrder).Queued? ==> Coherent(LlRwBlock(st, rw, bh, inOrder).st)
  {
    var r := LlRwBlock(st, rw, bh, inOrder);
    if r.Queued? {
      var major := Major(bh.dev);
      var cmd := if rw == READA then READ else if rw == WRITEA then WRITE else rw;
      assert r == FromRepeat(st, major, cmd, rw == READA || rw == WRITEA, bh.(lock := true), inOrder);
      assert Serves(r.st.pool, major, r.slot);
      LinkKeepsCoherent(st, r.st, major, r.slot);
    }
  }

  /** The read reserve: when every slot a write may use is taken but the last
      third of the pool has a free slot, a read is queued while a write must
      sleep (a write-ahead gives up). */
  lemma ReadReserve(st: BlkState, major: nat, bh: Buffer, inOrder: (Request, Request) -> bool)
    requires WellSized(st) && major < NR_BLK_DEV && bh.lock
    requires forall j :: 0 <= j < WRITE_LIMIT ==> !Free(st.pool[j])
    requires exists j :: WRITE_LIMIT <= j < NR_REQUEST && Free(st.pool[j])
    ensures FromRepeat(st, major, READ, false, bh, inOrder).Queued?
    ensures FromRepeat(st, major, READ, false, bh, inOrder).slot >= WRITE_LIMIT
    ensures FromRepeat(st, major, WRITE, false, bh, inOrder) == SleepOnRequest(bh)
    ensures FromRepeat(st, major, WRITE, true, bh, inOrder) == AheadNoSlot(bh.(lock := false))
  {
  }

  /** At most one transfer per buffer: a submission against a buffer that is
      locked (by a transfer in flight) never takes a request slot. */
  lemma LockedBufferNotQueued(st: BlkState, rw: int, bh: Buffer, inOrder: (Request, Request) -> bool)
    requires WellSized(st) && bh.lock
    ensures LlRwBlock(st, rw, bh, inOrder) in {NoDevice, Dropped, BadCommand, SleepOnBuffer}
  {
  }

  /** A queued transfer leaves its buffer locked and clean, in a slot a write
      may use when it is a write; an ahead request never sleeps on the pool. */
  lemma QueuedLeavesBufferLocked(st: BlkState, rw: int, bh: Buffer, inOrder: (Request, Request) -> bool)
    requires WellSized(st)
    ensures var r := LlRwBlock(st, rw, bh, inOrder);
      r.Queued? ==> r.bh.lock && !r.bh.dirt && (r.st.pool[r.slot].cmd == WRITE ==> r.slot < WRITE_LIMIT)
    ensures (rw == READA || rw == WRITEA) ==> !LlRwBlock(st, rw, bh, inOrder).SleepOnRequest?
  {
  }
}
