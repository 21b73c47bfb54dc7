/** The log counter invariant: `num_logs` is the length of the first chain
    plus the length of the second, the two chains share no node, and they
    hold every live log node. Append, the switch, and a clear of either
    slot's own head preserve it, and the two round trips (append then
    clear, startup drain) follow from it. */
module BufferInvariant {
  import opened Arena
  import opened Chains
  import opened PersistentBuffer

  /** `c1` and `c2` are the chains of the first and second slot. */
  ghost predicate Valid(p: Pool, c1: seq<Handle>, c2: seq<Handle>)
  {
    && HeapOk(p)
    && IsChain(p.logs, p.root.firstHead, c1)
    && IsChain(p.logs, p.root.secondHead, c2)
    && Disjoint(c1, c2)
    && p.logs.Keys == Elems(c1) + Elems(c2)
    && p.root.numLogs == |c1| + |c2|
  }

  /** The same invariant with the chains named by role: `cur` hangs off the
      current head and `oth` off the other one. */
  ghost predicate ValidByRole(p: Pool, cur: seq<Handle>, oth: seq<Handle>)
  {
    if p.root.currentHead == 0 then Valid(p, cur, oth) else Valid(p, oth, cur)
  }

  /** What the role view says about the two resolutions. */
  lemma RoleChains(p: Pool, cur: seq<Handle>, oth: seq<Handle>)
    requires ValidByRole(p, cur, oth)
    ensures HeapOk(p)
    ensures IsChain(p.logs, CurrentHead(p.root), cur)
    ensures IsChain(p.logs, AnotherHead(p.root), oth)
    ensures Disjoint(cur, oth)
    ensures p.logs.Keys == Elems(cur) + Elems(oth)
    ensures p.root.numLogs == |cur| + |oth|
  {
  }

  /** The role view from facts about the two resolutions. */
  lemma RoleIntro(p: Pool, cur: seq<Handle>, oth: seq<Handle>)
    requires HeapOk(p)
    requires IsChain(p.logs, CurrentHead(p.root), cur)
    requires IsChain(p.logs, AnotherHead(p.root), oth)
    requires Disjoint(cur, oth)
    requires p.logs.Keys == Elems(cur) + Elems(oth)
    requires p.root.numLogs == |cur| + |oth|
    ensures ValidByRole(p, cur, oth)
  {
  }

  /** Under the invariant the counter is the number of live log nodes. */
  lemma CountIsLiveNodes(p: Pool, c1: seq<Handle>, c2: seq<Handle>)
    requires Valid(p, c1, c2)
    ensures p.root.numLogs == |p.logs|
  {
    ChainShape(p.logs, p.root.firstHead, c1);
    ChainShape(p.logs, p.root.secondHead, c2);
    DistinctCard(c1);
    DistinctCard(c2);
    assert |p.logs.Keys| == |Elems(c1)| + |Elems(c2)|;
  }

  /** Appending puts the new node in front of the current chain and leaves
      the other chain alone. */
  lemma AppendKeepsInvariant(p: Pool, cmd: Handle, cur: seq<Handle>, oth: seq<Handle>)
    requires ValidByRole(p, cur, oth)
    ensures HeapOk(p) && (CurrentHead(p.root) == Null || CurrentHead(p.root) in p.logs)
    ensures ValidByRole(AddToPBList(p, cmd).0, [AddToPBList(p, cmd).1] + cur, oth)
  {
    RoleChains(p, cur, oth);
    ChainShape(p.logs, CurrentHead(p.root), cur);
    ChainShape(p.logs, AnotherHead(p.root), oth);
    var r := AddToPBList(p, cmd);
    var q, n := r.0, r.1;
    ChainFrame(p.logs, q.logs, CurrentHead(p.root), cur);
    ChainFrame(p.logs, q.logs, AnotherHead(p.root), oth);
    ChainCons(q.logs, n, CurrentHead(p.root), cur);
    ElemsCons(n, cur);
    assert Disjoint([n] + cur, oth);
    assert q.logs.Keys == Elems([n] + cur) + Elems(oth);
    RoleIntro(q, [n] + cur, oth);
  }

  /** The slots determine their chains: two witnesses of the invariant for
      the same pool are the same. */
  lemma ChainsDeterminedByRoot(p: Pool, a1: seq<Handle>, a2: seq<Handle>, b1: seq<Handle>, b2: seq<Handle>)
    requires Valid(p, a1, a2) && Valid(p, b1, b2)
    ensures a1 == b1 && a2 == b2
  {
    ChainUnique(p.logs, p.root.firstHead, a1, b1);
    ChainUnique(p.logs, p.root.secondHead, a2, b2);
  }

  /** Appending keeps the back-links of the current chain: the new head's
      `prev` is null and the old head's `prev` is the new node. */
  lemma AppendKeepsBackLinks(p: Pool, cmd: Handle, cur: seq<Handle>)
    requires HeapOk(p)
    requires IsChain(p.logs, CurrentHead(p.root), cur)
    requires BackLinked(p.logs, cur)
    ensures CurrentHead(p.root) == Null || CurrentHead(p.root) in p.logs
    ensures BackLinked(AddToPBList(p, cmd).0.logs, [AddToPBList(p, cmd).1] + cur)
  {
  }

  /** Switching keeps the invariant and swaps the roles of the two chains. */
  lemma SwitchKeepsInvariant(p: Pool, cur: seq<Handle>, oth: seq<Handle>)
    requires ValidByRole(p, cur, oth)
    ensures ValidByRole(SwitchDoubleBuffer(p), oth, cur)
  {
  }

  /** Switching twice gives back both resolutions, the slots and the
      counter; the flag itself comes back only when it was 0 or 1. */
  lemma SwitchTwice(p: Pool)
    ensures var q := SwitchDoubleBuffer(SwitchDoubleBuffer(p));
      && CurrentHead(q.root) == CurrentHead(p.root)
      && AnotherHead(q.root) == AnotherHead(p.root)
      && q == p.(root := p.root.(currentHead := q.root.currentHead))
      && (q == p <==> p.root.currentHead == 0 || p.root.currentHead == 1)
  {
  }

  /** Clearing the current chain empties the current slot and keeps the
      other chain. */
  lemma ClearCurrentKeepsInvariant(p: Pool, cur: seq<Handle>, oth: seq<Handle>)
    requires ValidByRole(p, cur, oth)
    ensures ValidByRole(Cleared(p, CurrentHead(p.root), cur), [], oth)
  {
    RoleChains(p, cur, oth);
    ChainShape(p.logs, AnotherHead(p.root), oth);
    var q := Cleared(p, CurrentHead(p.root), cur);
    ChainFrame(p.logs, q.logs, AnotherHead(p.root), oth);
    assert q.logs.Keys == Elems(oth);
    HeadsResolveOpposite(q.root);
  }

  /** Clearing the other chain empties the other slot and keeps the current
      chain. When both heads are null the clear writes the current slot,
      which is harmless because both chains are then empty. */
  lemma ClearOtherKeepsInvariant(p: Pool, cur: seq<Handle>, oth: seq<Handle>)
    requires ValidByRole(p, cur, oth)
    ensures ValidByRole(Cleared(p, AnotherHead(p.root), oth), cur, [])
  {
    RoleChains(p, cur, oth);
    ChainShape(p.logs, CurrentHead(p.root), cur);
    ChainShape(p.logs, AnotherHead(p.root), oth);
    var q := Cleared(p, AnotherHead(p.root), oth);
    if AnotherHead(p.root) == CurrentHead(p.root) {
      assert CurrentHead(p.root) == Null;
    }
    ChainFrame(p.logs, q.logs, CurrentHead(p.root), cur);
    assert q.logs.Keys == Elems(cur);
    HeadsResolveOpposite(q.root);
  }

  /** Appends the commands in order; returns the new nodes in allocation
      order. The last one appended is the current head. */
  function AppendAll(p: Pool, cmds: seq<Handle>): (r: (Pool, seq<Handle>))
    requires HeapOk(p)
    requires CurrentHead(p.root) == Null || CurrentHead(p.root) in p.logs
    ensures HeapOk(r.0)
    ensures |r.1| == |cmds|
    ensures AnotherHead(r.0.root) == AnotherHead(p.root)
    ensures r.0.root.currentHead == p.root.currentHead
    ensures r.0.root.numLogs == p.root.numLogs + |cmds|
    ensures r.0.payloads == p.payloads
    decreases |cmds|
  {
    if |cmds| == 0 then (p, [])
    else
      var a := AddToPBList(p, cmds[0]);
      var rest := AppendAll(a.0, cmds[1..]);
      (rest.0, [a.1] + rest.1)
  }

  /** A run of appends adds exactly its new nodes, all fresh, and changes
      no old node except the old current head. */
  lemma {:induction false} AppendAllFrame(p: Pool, cmds: seq<Handle>)
    requires HeapOk(p)
    requires CurrentHead(p.root) == Null || CurrentHead(p.root) in p.logs
    ensures Elems(AppendAll(p, cmds).1) !! p.logs.Keys
    ensures AppendAll(p, cmds).0.logs.Keys == p.logs.Keys + Elems(AppendAll(p, cmds).1)
    ensures forall x :: x in p.logs && x != CurrentHead(p.root) ==> AppendAll(p, cmds).0.logs[x] == p.logs[x]
    decreases |cmds|
  {
    var r := AppendAll(p, cmds);
    if |cmds| == 0 {
      assert r == (p, []);
    } else {
      var a := AddToPBList(p, cmds[0]);
      AppendAllFrame(a.0, cmds[1..]);
      var rest := AppendAll(a.0, cmds[1..]);
      assert r == (rest.0, [a.1] + rest.1);
      ElemsCons(a.1, rest.1);
      calc {
        r.0.logs.Keys;
        a.0.logs.Keys + Elems(rest.1);
        p.logs.Keys + {a.1} + Elems(rest.1);
        p.logs.Keys + Elems(r.1);
      }
      forall x | x in p.logs && x != CurrentHead(p.root)
        ensures r.0.logs[x] == p.logs[x]
      {
        assert x != a.1 && a.0.logs[x] == p.logs[x];
      }
    }
  }

  function Reverse(s: seq<Handle>): (r: seq<Handle>)
    ensures |r| == |s|
    ensures forall i :: 0 <= i < |s| ==> r[i] == s[|s| - 1 - i]
  {
    if |s| == 0 then [] else Reverse(s[1..]) + [s[0]]
  }

  /** After appending a run of commands, the current chain is the new nodes
      newest first, followed by the old current chain. */
  lemma {:induction false} AppendAllKeepsInvariant(p: Pool, cmds: seq<Handle>, cur: seq<Handle>, oth: seq<Handle>)
    requires ValidByRole(p, cur, oth)
    ensures HeapOk(p) && (CurrentHead(p.root) == Null || CurrentHead(p.root) in p.logs)
    ensures ValidByRole(AppendAll(p, cmds).0, Reverse(AppendAll(p, cmds).1) + cur, oth)
    decreases |cmds|
  {
    if |cmds| == 0 {
      RoleChains(p, cur, oth);
      ChainShape(p.logs, CurrentHead(p.root), cur);
      assert AppendAll(p, cmds) == (p, []);
      assert Reverse([]) + cur == cur;
    } else {
      AppendKeepsInvariant(p, cmds[0], cur, oth);
      var a := AddToPBList(p, cmds[0]);
      AppendAllKeepsInvariant(a.0, cmds[1..], [a.1] + cur, oth);
      var rest := AppendAll(a.0, cmds[1..]);
      assert AppendAll(p, cmds) == (rest.0, [a.1] + rest.1);
      ReverseCons(a.1, rest.1, cur);
    }
  }

  lemma ReverseCons(x: Handle, s: seq<Handle>, t: seq<Handle>)
    ensures Reverse([x] + s) + t == Reverse(s) + ([x] + t)
  {
    assert ([x] + s)[1..] == s;
  }

  /** Appending commands to an empty current buffer and then clearing the
      current head gives back the counter, the live nodes and both slots. */
  lemma AppendThenClearRoundTrip(p: Pool, cmds: seq<Handle>, oth: seq<Handle>)
    requires ValidByRole(p, [], oth)
    ensures HeapOk(p) && CurrentHead(p.root) == Null
    ensures var a := AppendAll(p, cmds);
      var q := Cleared(a.0, CurrentHead(a.0.root), Reverse(a.1));
      && q.root.numLogs == p.root.numLogs
      && CurrentHead(q.root) == Null
      && AnotherHead(q.root) == AnotherHead(p.root)
      && q.logs == p.logs
      && ValidByRole(q, [], oth)
  {
    RoleChains(p, [], oth);
    ChainShape(p.logs, CurrentHead(p.root), []);
    ChainShape(p.logs, AnotherHead(p.root), oth);
    AppendAllKeepsInvariant(p, cmds, [], oth);
    var a := AppendAll(p, cmds);
    var newest := Reverse(a.1);
    assert newest + [] == newest;
    ClearCurrentKeepsInvariant(a.0, newest, oth);
    var q := Cleared(a.0, CurrentHead(a.0.root), newest);
    RoleChains(q, [], oth);
    ChainShape(q.logs, AnotherHead(q.root), oth);
    ReverseElems(a.1);
    AppendAllThenFree(p, cmds);
    assert q.logs == a.0.logs - Elems(a.1);
  }

  /** Freeing the nodes a run of appends created, starting from an empty
      current buffer, gives back the old heap. */
  lemma AppendAllThenFree(p: Pool, cmds: seq<Handle>)
    requires HeapOk(p) && CurrentHead(p.root) == Null
    ensures AppendAll(p, cmds).0.logs - Elems(AppendAll(p, cmds).1) == p.logs
  {
    var a := AppendAll(p, cmds);
    AppendAllFrame(p, cmds);
    var m := a.0.logs - Elems(a.1);
    assert m.Keys == p.logs.Keys;
    forall x | x in p.logs
      ensures m[x] == p.logs[x]
    {
      assert x != CurrentHead(p.root);
    }
  }

  lemma ReverseElems(s: seq<Handle>)
    ensures Elems(Reverse(s)) == Elems(s)
  {
    var r := Reverse(s);
    forall x | x in Elems(s) ensures x in Elems(r) {
      var i :| 0 <= i < |s| && s[i] == x;
      assert r[|s| - 1 - i] == x;
    }
  }

  /** The startup drain on a pool that satisfies the invariant leaves both
      slots null, no live log node and a zero counter. */
  lemma ReconstructEmpties(p: Pool, cur: seq<Handle>, oth: seq<Handle>)
    requires ValidByRole(p, cur, oth)
    ensures var q := Reconstructed(p, cur, oth);
      && Valid(q, [], [])
      && q.root.firstHead == Null && q.root.secondHead == Null
      && q.root.numLogs == 0
      && q.logs == map[]
  {
    ClearCurrentKeepsInvariant(p, cur, oth);
    var p1 := Cleared(p, CurrentHead(p.root), cur);
    ClearOtherKeepsInvariant(p1, [], oth);
    var q := Cleared(p1, AnotherHead(p1.root), oth);
    HeadsResolveOpposite(q.root);
  }
}
