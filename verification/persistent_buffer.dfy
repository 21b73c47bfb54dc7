/** The double-buffered persistent command log: slot resolution, flag-directed
    slot writes, insertion at the head of the current chain, the buffer
    switch, the bulk clear of a chain and the startup drain. Each operation
    runs inside one allocator transaction in the C code, so each is one
    state transition here. */
module PersistentBuffer {
  import opened Arena
  import opened Chains

  /** Redis' success status. */
  const C_OK: int := 0

  /** The head slot the flag calls current: the first slot when the flag is
      0, the second slot for any other value. */
  function CurrentHead(r: Root): Handle
  {
    if r.currentHead == 0 then r.firstHead else r.secondHead
  }

  /** The head slot the flag does not call current. */
  function AnotherHead(r: Root): Handle
  {
    if r.currentHead == 0 then r.secondHead else r.firstHead
  }

  /** The two resolutions always name opposite slots: the current head is
      the first slot exactly when the other head is the second one, and
      together they are the two slots. */
  lemma HeadsResolveOpposite(r: Root)
    ensures multiset{CurrentHead(r), AnotherHead(r)} == multiset{r.firstHead, r.secondHead}
    ensures r.currentHead == 0 ==> CurrentHead(r) == r.firstHead && AnotherHead(r) == r.secondHead
    ensures r.currentHead != 0 ==> CurrentHead(r) == r.secondHead && AnotherHead(r) == r.firstHead
  {
  }

  /** Writes the slot the flag calls current; afterwards the current head is
      `h`, and the other resolution, the flag and the counter are as before. */
  function SetCurrentHead(r: Root, h: Handle): (r': Root)
    ensures CurrentHead(r') == h
    ensures AnotherHead(r') == AnotherHead(r)
    ensures r'.currentHead == r.currentHead && r'.numLogs == r.numLogs
    ensures r' == r.(firstHead := h) || r' == r.(secondHead := h)
  {
    if r.currentHead == 0 then r.(firstHead := h) else r.(secondHead := h)
  }

  /** Writes the slot the flag does not call current. */
  function SetAnotherHead(r: Root, h: Handle): (r': Root)
    ensures AnotherHead(r') == h
    ensures CurrentHead(r') == CurrentHead(r)
    ensures r'.currentHead == r.currentHead && r'.numLogs == r.numLogs
    ensures r' == r.(firstHead := h) || r' == r.(secondHead := h)
  {
    if r.currentHead == 0 then r.(secondHead := h) else r.(firstHead := h)
  }

  /** `pmemAddToPBList`: allocates a zeroed node carrying `cmd` whose `next`
      is the old current head, back-links the old head to it, makes it the
      current head and counts it. Returns the new node's handle. The old head
      must be null or a live node, since it is written through. */
  function AddToPBList(p: Pool, cmd: Handle): (r: (Pool, Handle))
    requires HeapOk(p)
    requires CurrentHead(p.root) == Null || CurrentHead(p.root) in p.logs
    ensures r.1 != Null && r.1 !in p.logs && r.1 !in p.payloads
    ensures r.0.logs.Keys == p.logs.Keys + {r.1}
    ensures r.0.logs[r.1] == LogNode(cmd, CurrentHead(p.root), Null)
    ensures CurrentHead(p.root) != Null ==>
              r.0.logs[CurrentHead(p.root)] == p.logs[CurrentHead(p.root)].(prev := r.1)
    ensures forall x :: x in p.logs && x != CurrentHead(p.root) ==> r.0.logs[x] == p.logs[x]
    ensures CurrentHead(r.0.root) == r.1 && AnotherHead(r.0.root) == AnotherHead(p.root)
    ensures r.0.root.currentHead == p.root.currentHead
    ensures r.0.root.numLogs == p.root.numLogs + 1
    ensures r.0.payloads == p.payloads
    ensures HeapOk(r.0)
  {
    var a := Alloc(p);
    var n := a.0;
    var head := CurrentHead(p.root);
    var logs := a.1.logs[n := Zeroed.(cmd := cmd, next := head)];
    var logs' := if head != Null then logs[head := logs[head].(prev := n)] else logs;
    var root := SetCurrentHead(p.root, n);
    (a.1.(logs := logs', root := root.(numLogs := root.numLogs + 1)), n)
  }

  /** `pmemSwitchDoubleBuffer`: the flag becomes its C negation, so the two
      resolutions trade places; nothing else in the pool changes. */
  function SwitchDoubleBuffer(p: Pool): (q: Pool)
    ensures CurrentHead(q.root) == AnotherHead(p.root)
    ensures AnotherHead(q.root) == CurrentHead(p.root)
    ensures (q.root.currentHead == 0) <==> (p.root.currentHead != 0)
    ensures q.root.currentHead == 0 || q.root.currentHead == 1
    ensures q == p.(root := p.root.(currentHead := q.root.currentHead))
  {
    p.(root := p.root.(currentHead := if p.root.currentHead == 0 then 1 else 0))
  }

  /** Declarative outcome of clearing the chain `c` that starts at `head`:
      its nodes and their payloads are freed, the counter drops by their
      number, and the current slot is nulled if `head` is the current head,
      the other slot otherwise. */
  ghost function Cleared(p: Pool, head: Handle, c: seq<Handle>): Pool
  {
    var root := if head == CurrentHead(p.root) then SetCurrentHead(p.root, Null)
                else SetAnotherHead(p.root, Null);
    Pool(root.(numLogs := root.numLogs - |c|), p.logs - Elems(c), p.payloads - Cmds(p.logs, c), p.brk)
  }

  /** `pmemClearPBList`: walks the acyclic chain `c` from `head`, freeing each
      node's payload and the node, then nulls a slot and subtracts the count
      of freed nodes. */
  method ClearPBList(p: Pool, head: Handle, ghost c: seq<Handle>) returns (q: Pool)
    requires IsChain(p.logs, head, c)
    ensures q == Cleared(p, head, c)
    ensures q.logs == p.logs - Elems(c)
    ensures q.payloads == p.payloads - Cmds(p.logs, c)
    ensures q.root.numLogs == p.root.numLogs - |c|
    ensures q.root.currentHead == p.root.currentHead
    ensures head == CurrentHead(p.root) ==>
              CurrentHead(q.root) == Null && AnotherHead(q.root) == AnotherHead(p.root)
    ensures head != CurrentHead(p.root) ==>
              AnotherHead(q.root) == Null && CurrentHead(q.root) == CurrentHead(p.root)
  {
    ChainShape(p.logs, head, c);
    var logs := p.logs;
    var payloads := p.payloads;
    var freed := 0;
    var t := head;
    while t != Null
      invariant 0 <= freed <= |c|
      invariant t == (if freed < |c| then c[freed] else Null)
      invariant logs == p.logs - Elems(c[..freed])
      invariant payloads == p.payloads - Cmds(p.logs, c[..freed])
      decreases |c| - freed
    {
      assert t !in Elems(c[..freed]);
      var next := logs[t].next;
      assert next == p.logs[c[freed]].next == (if freed + 1 < |c| then c[freed + 1] else Null);
      assert c[..freed + 1] == c[..freed] + [t];
      assert Elems(c[..freed + 1]) == Elems(c[..freed]) + {t};
      assert Cmds(p.logs, c[..freed + 1]) == Cmds(p.logs, c[..freed]) + {logs[t].cmd};
      payloads := payloads - {logs[t].cmd};
      logs := logs - {t};
      t := next;
      freed := freed + 1;
    }
    assert c[..freed] == c;
    var root := if head == CurrentHead(p.root) then SetCurrentHead(p.root, Null)
                else SetAnotherHead(p.root, Null);
    q := Pool(root.(numLogs := root.numLogs - freed), logs, payloads, p.brk);
  }

  /** Declarative outcome of the startup drain: the current chain is
      cleared, then whatever the other resolution names afterwards. */
  ghost function Reconstructed(p: Pool, cur: seq<Handle>, oth: seq<Handle>): Pool
  {
    var p1 := Cleared(p, CurrentHead(p.root), cur);
    Cleared(p1, AnotherHead(p1.root), oth)
  }

  /** `pmemReconstructPB`: clears the current chain, then the chain the other
      slot resolves to after that first clear. Both slots end null, exactly
      the nodes of both chains are freed, and the counter drops by both
      lengths. The two chains must be acyclic and share no node. */
  method ReconstructPB(p: Pool, ghost cur: seq<Handle>, ghost oth: seq<Handle>) returns (q: Pool, status: int)
    requires IsChain(p.logs, CurrentHead(p.root), cur)
    requires IsChain(p.logs, AnotherHead(p.root), oth)
    requires Disjoint(cur, oth)
    ensures status == C_OK
    ensures q == Reconstructed(p, cur, oth)
    ensures q.root.firstHead == Null && q.root.secondHead == Null
    ensures q.root.currentHead == p.root.currentHead
    ensures q.logs == p.logs - Elems(cur) - Elems(oth)
    ensures q.payloads == p.payloads - Cmds(p.logs, cur) - Cmds(p.logs, oth)
    ensures q.root.numLogs == p.root.numLogs - |cur| - |oth|
  {
    ChainShape(p.logs, CurrentHead(p.root), cur);
    ChainShape(p.logs, AnotherHead(p.root), oth);
    var p1 := ClearPBList(p, CurrentHead(p.root), cur);
    ChainFrame(p.logs, p1.logs, AnotherHead(p1.root), oth);
    assert Cmds(p1.logs, oth) == Cmds(p.logs, oth);
    q := ClearPBList(p1, AnotherHead(p1.root), oth);
    HeadsResolveOpposite(q.root);
    status := C_OK;
  }
}
