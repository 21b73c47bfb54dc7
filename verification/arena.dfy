/** The persistent pool as seen by the double-buffered command log: opaque
    object handles, the log node record, the pool root, and a bump allocator
    standing in for the transactional allocator of the persistent-memory
    library. */
module Arena {

  /** An object handle. The library pairs a pool identifier with an offset;
      there is a single pool here, so only the offset matters, and offset 0
      is the null handle. */
  type Handle = nat

  const Null: Handle := 0

  /** One buffered command (`struct persistent_aof_log`): the handle of its
      command payload, the next node of its chain, and a back-link to the
      node in front of it: null while the node is the head, and set to the
      newer node when one is pushed in front of it. */
  datatype LogNode = LogNode(cmd: Handle, next: Handle, prev: Handle)

  /** What a zero-initialising allocation leaves in a fresh node. */
  const Zeroed: LogNode := LogNode(Null, Null, Null)

  /** The pool root (`struct redis_pmem_root`, log part): two chain-head slots,
      the flag choosing which of them is current, and the log counter. */
  datatype Root = Root(firstHead: Handle, secondHead: Handle, currentHead: int, numLogs: int)

  /** The whole persistent state: the root, the live log nodes by handle, the
      live command payloads, and the allocator's break (every handle in use is
      below it). */
  datatype Pool = Pool(root: Root, logs: map<Handle, LogNode>, payloads: set<Handle>, brk: nat)

  /** The allocator's own bookkeeping holds: no live object sits at the null
      handle or at or above the break. */
  predicate HeapOk(p: Pool)
  {
    && 0 < p.brk
    && (forall h :: h in p.logs ==> 0 < h < p.brk)
    && (forall h :: h in p.payloads ==> 0 < h < p.brk)
  }

  /** Zero-initialised allocation: hands out a handle that is neither null nor
      in use, and changes nothing but the break. */
  function Alloc(p: Pool): (r: (Handle, Pool))
    requires HeapOk(p)
    ensures r.0 != Null && r.0 !in p.logs && r.0 !in p.payloads
    ensures r.1 == p.(brk := r.1.brk) && r.0 < r.1.brk
    ensures HeapOk(r.1)
  {
    (p.brk, p.(brk := p.brk + 1))
  }
}
