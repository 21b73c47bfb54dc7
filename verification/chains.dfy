/** Log chains: the sequence of node handles met by following `next` from a
    head until the null handle. A chain is given as an explicit witness
    sequence, which makes acyclicity (no handle twice) part of the notion. */
module Chains {
  import opened Arena

  /** `c` is the acyclic chain of live nodes walked from `h`. */
  ghost predicate IsChain(logs: map<Handle, LogNode>, h: Handle, c: seq<Handle>)
    decreases |c|
  {
    if |c| == 0 then h == Null
    else
      && h != Null
      && h == c[0]
      && h in logs
      && h !in c[1..]
      && IsChain(logs, logs[h].next, c[1..])
  }

  ghost function Elems(c: seq<Handle>): set<Handle>
  {
    set x | x in c
  }

  ghost predicate Disjoint(a: seq<Handle>, b: seq<Handle>)
  {
    Elems(a) !! Elems(b)
  }

  /** The command payloads carried by the live nodes of `c`. */
  ghost function Cmds(logs: map<Handle, LogNode>, c: seq<Handle>): set<Handle>
  {
    set x | x in c && x in logs :: logs[x].cmd
  }

  /** The shape a chain has: it is empty exactly when its head is null, it
      starts at its head, every member is live and non-null, each member's
      `next` is its successor (null after the last), and no handle repeats. */
  lemma {:induction false} ChainShape(logs: map<Handle, LogNode>, h: Handle, c: seq<Handle>)
    requires IsChain(logs, h, c)
    ensures (h == Null) <==> (|c| == 0)
    ensures |c| > 0 ==> c[0] == h
    ensures Null !in c
    ensures forall x :: x in c ==> x in logs
    ensures forall i :: 0 <= i < |c| ==> logs[c[i]].next == (if i + 1 < |c| then c[i + 1] else Null)
    ensures forall i, j :: 0 <= i < j < |c| ==> c[i] != c[j]
    decreases |c|
  {
    if |c| > 0 {
      var t := c[1..];
      ChainShape(logs, logs[h].next, t);
      forall i | 0 <= i < |c|
        ensures logs[c[i]].next == (if i + 1 < |c| then c[i + 1] else Null)
      {
        if i > 0 {
          assert c[i] == t[i - 1];
          assert logs[t[i - 1]].next == (if i < |t| then t[i] else Null);
          if i + 1 < |c| {
            assert t[i] == c[i + 1];
          }
        } else if |c| > 1 {
          assert t[0] == c[1];
        }
      }
      forall i, j | 0 <= i < j < |c|
        ensures c[i] != c[j]
      {
        if i == 0 {
          assert c[j] == t[j - 1];
        } else {
          assert c[i] == t[i - 1] && c[j] == t[j - 1];
        }
      }
    }
  }

  /** A head determines its chain. */
  lemma {:induction false} ChainUnique(logs: map<Handle, LogNode>, h: Handle, a: seq<Handle>, b: seq<Handle>)
    requires IsChain(logs, h, a) && IsChain(logs, h, b)
    ensures a == b
    decreases |a|
  {
    if |a| > 0 {
      assert |b| > 0;
      ChainUnique(logs, logs[h].next, a[1..], b[1..]);
      assert a == [h] + a[1..];
      assert b == [h] + b[1..];
    }
  }

  /** A chain survives any heap change that keeps its members live with the
      same `next` fields. */
  lemma {:induction false} ChainFrame(logs: map<Handle, LogNode>, logs': map<Handle, LogNode>, h: Handle, c: seq<Handle>)
    requires IsChain(logs, h, c)
    requires forall x :: x in c ==> x in logs && x in logs' && logs'[x].next == logs[x].next
    ensures IsChain(logs', h, c)
    decreases |c|
  {
    if |c| > 0 {
      ChainFrame(logs, logs', logs[h].next, c[1..]);
    }
  }

  /** Prepending a fresh live node whose `next` is the old head. */
  lemma ChainCons(logs: map<Handle, LogNode>, n: Handle, h: Handle, c: seq<Handle>)
    requires IsChain(logs, h, c)
    requires n != Null && n in logs && n !in c && logs[n].next == h
    ensures IsChain(logs, n, [n] + c)
  {
    assert ([n] + c)[1..] == c;
  }

  /** The back-links of chain `c`: the head's `prev` is null and every other
      member's `prev` is the member in front of it. */
  ghost predicate BackLinked(logs: map<Handle, LogNode>, c: seq<Handle>)
  {
    && (forall x :: x in c ==> x in logs)
    && (|c| > 0 ==> logs[c[0]].prev == Null)
    && (forall i :: 0 < i < |c| ==> logs[c[i]].prev == c[i - 1])
  }

  /** A chain with no repeated handle has as many members as elements. */
  lemma {:induction false} DistinctCard(c: seq<Handle>)
    requires forall i, j :: 0 <= i < j < |c| ==> c[i] != c[j]
    ensures |Elems(c)| == |c|
    decreases |c|
  {
    if |c| > 0 {
      var t := c[1..];
      DistinctCard(t);
      assert Elems(c) == {c[0]} + Elems(t);
      assert c[0] !in Elems(t);
    }
  }

  lemma ElemsCons(n: Handle, c: seq<Handle>)
    ensures Elems([n] + c) == {n} + Elems(c)
  {
    assert forall x :: x in [n] + c <==> x == n || x in c;
  }
}
