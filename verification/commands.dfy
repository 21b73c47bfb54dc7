/** The client commands that drive the log, reduced to their transaction
    behaviour: each runs one log operation inside a transaction; when the
    transaction aborts, the pool is rolled back and the client gets an error
    reply, otherwise the client gets OK. Whether a transaction aborts is
    decided by the allocator, so it is a parameter here. */
module PbCommands {
  import opened Arena
  import opened Chains
  import opened PersistentBuffer
  import opened BufferInvariant

  datatype Reply = Ok | Error(msg: string)

  /** `addPBListCommand`: copies the argument into a freshly allocated
      persistent payload and appends a log node carrying it. */
  function AddPBListCommand(p: Pool, aborted: bool): (r: (Pool, Reply))
    requires HeapOk(p)
    requires CurrentHead(p.root) == Null || CurrentHead(p.root) in p.logs
    ensures aborted ==> r == (p, Error("Add PB List in PM failed!"))
    ensures !aborted ==> r.1 == Ok
    ensures !aborted ==> r.0.root.numLogs == p.root.numLogs + 1
    ensures !aborted ==> AnotherHead(r.0.root) == AnotherHead(p.root)
    ensures !aborted ==>
              var n := CurrentHead(r.0.root);
              && n in r.0.logs && n !in p.logs
              && r.0.logs[n].next == CurrentHead(p.root)
              && r.0.logs[n].cmd in r.0.payloads && r.0.logs[n].cmd !in p.payloads
    ensures !aborted ==> r.0.root.currentHead == p.root.currentHead
    ensures !aborted ==> r.0.logs[CurrentHead(r.0.root)].prev == Null
    ensures !aborted ==> r.0.logs.Keys == p.logs.Keys + {CurrentHead(r.0.root)}
    ensures !aborted ==> r.0.payloads == p.payloads + {r.0.logs[CurrentHead(r.0.root)].cmd}
    ensures !aborted ==> CurrentHead(p.root) != Null ==>
              r.0.logs[CurrentHead(p.root)] == p.logs[CurrentHead(p.root)].(prev := CurrentHead(r.0.root))
    ensures !aborted ==>
              forall x :: x in p.logs && x != CurrentHead(p.root) ==> x in r.0.logs && r.0.logs[x] == p.logs[x]
  {
    if aborted then (p, Error("Add PB List in PM failed!"))
    else
      var a := Alloc(p);
      var withPayload := a.1.(payloads := a.1.payloads + {a.0});
      (AddToPBList(withPayload, a.0).0, Ok)
  }

  /** A committed add keeps the counter invariant, with the new node in
      front of the current chain; an aborted one leaves the pool as it was. */
  lemma AddCommandKeepsInvariant(p: Pool, aborted: bool, cur: seq<Handle>, oth: seq<Handle>)
    requires ValidByRole(p, cur, oth)
    ensures HeapOk(p) && (CurrentHead(p.root) == Null || CurrentHead(p.root) in p.logs)
    ensures var r := AddPBListCommand(p, aborted);
      if aborted then r.0 == p else ValidByRole(r.0, [CurrentHead(r.0.root)] + cur, oth)
  {
    RoleChains(p, cur, oth);
    ChainShape(p.logs, CurrentHead(p.root), cur);
    if !aborted {
      var a := Alloc(p);
      var withPayload := a.1.(payloads := a.1.payloads + {a.0});
      assert ValidByRole(withPayload, cur, oth);
      AppendKeepsInvariant(withPayload, a.0, cur, oth);
    }
  }

  /** `switchPBListCommand`. */
  function SwitchPBListCommand(p: Pool, aborted: bool): (r: (Pool, Reply))
    ensures aborted ==> r == (p, Error("Switch PB in PM failed!"))
    ensures !aborted ==> r.1 == Ok
    ensures !aborted ==>
              CurrentHead(r.0.root) == AnotherHead(p.root) && AnotherHead(r.0.root) == CurrentHead(p.root)
    ensures !aborted ==> ((r.0.root.currentHead == 0) <==> (p.root.currentHead != 0))
    ensures !aborted ==> r.0.root.currentHead == 0 || r.0.root.currentHead == 1
    ensures r.0.logs == p.logs && r.0.payloads == p.payloads && r.0.root.numLogs == p.root.numLogs
  {
    if aborted then (p, Error("Switch PB in PM failed!"))
    else (SwitchDoubleBuffer(p), Ok)
  }

  /** A committed switch keeps the counter invariant with the roles of the
      two chains exchanged; an aborted one leaves the pool as it was. */
  lemma SwitchCommandKeepsInvariant(p: Pool, aborted: bool, cur: seq<Handle>, oth: seq<Handle>)
    requires ValidByRole(p, cur, oth)
    ensures var r := SwitchPBListCommand(p, aborted);
      if aborted then r.0 == p else ValidByRole(r.0, oth, cur)
  {
    if !aborted {
      SwitchKeepsInvariant(p, cur, oth);
    }
  }

  /** `clearCurrentPBListCommand`: clears the chain of the current head. */
  method ClearCurrentPBListCommand(p: Pool, aborted: bool, ghost cur: seq<Handle>) returns (q: Pool, reply: Reply)
    requires IsChain(p.logs, CurrentHead(p.root), cur)
    ensures aborted ==> q == p && reply == Error("Clear current PB in PM failed!")
    ensures !aborted ==> reply == Ok
    ensures !aborted ==> CurrentHead(q.root) == Null && AnotherHead(q.root) == AnotherHead(p.root)
    ensures !aborted ==> q.logs == p.logs - Elems(cur) && q.root.numLogs == p.root.numLogs - |cur|
    ensures !aborted ==> q.payloads == p.payloads - Cmds(p.logs, cur)
    ensures !aborted ==> q.root.currentHead == p.root.currentHead
    ensures q.brk == p.brk
  {
    if aborted {
      q, reply := p, Error("Clear current PB in PM failed!");
    } else {
      q := ClearPBList(p, CurrentHead(p.root), cur);
      reply := Ok;
    }
  }

  /** A committed clear command keeps the counter invariant with an empty
      current chain and the other chain unchanged; an aborted one leaves the
      pool as it was. The command is a method, so this composes it through
      its contract alone. */
  method ClearCommandKeepsInvariant(p: Pool, aborted: bool, ghost cur: seq<Handle>, ghost oth: seq<Handle>)
    returns (q: Pool, reply: Reply)
    requires ValidByRole(p, cur, oth)
    ensures aborted ==> q == p
    ensures !aborted ==> reply == Ok && ValidByRole(q, [], oth)
  {
    RoleChains(p, cur, oth);
    ChainShape(p.logs, AnotherHead(p.root), oth);
    q, reply := ClearCurrentPBListCommand(p, aborted, cur);
    if !aborted {
      ChainFrame(p.logs, q.logs, AnotherHead(p.root), oth);
      assert q.logs.Keys == Elems(oth);
      RoleIntro(q, [], oth);
    }
  }
}
