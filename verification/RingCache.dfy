/** Api_pduReallocRbuild walks a singly linked list backwards through a ring of 50 slots: each
    pass over the list leaves its last 50 nodes in the ring, and they are built from last to
    first; while nodes remain in front of them another pass follows. */
module RingCache {
  import opened Bytes
  import opened Ber
  import opened ReverseBuffer
  import opened PduSpec
  import opened VarList
  import opened ReversePdu

  const VPCACHE_SIZE := 50

  /** The slot the t-th node of a pass is put into. */
  function Slot(t: nat): nat {
    VPCACHE_SIZE - 1 - t % VPCACHE_SIZE
  }

  /** The slot behind the one the last of m nodes went into; 50 when there was none. */
  function Final(m: nat): nat {
    if m == 0 then VPCACHE_SIZE else Slot(m - 1)
  }

  /** After a pass over m nodes: the ring holds the last 50 of them. */
  ghost predicate Filled(cache: array<VarNode?>, nodes: seq<VarNode>, m: nat)
    requires m <= |nodes|
    reads cache
  {
    && cache.Length == VPCACHE_SIZE
    && forall t :: 0 <= t < m && m - VPCACHE_SIZE <= t ==> cache[Slot(t)] == nodes[t]
  }

  lemma NextSlot(j: nat)
    ensures 0 <= Slot(j) < VPCACHE_SIZE
    ensures if Final(j) == 0 then j >= VPCACHE_SIZE && Slot(j) == VPCACHE_SIZE - 1 else Slot(j) == Final(j) - 1
    ensures j == VPCACHE_SIZE ==> Final(j) == 0
  {
  }

  lemma SlotsApart(j: nat)
    ensures forall t: nat :: j - VPCACHE_SIZE < t < j ==> Slot(t) != Slot(j)
  {
  }

  /** One pass: from the head of the list up to, and not including, `tmpvp`. */
  method FillCache(head: VarNode?, tmpvp: VarNode?, vpcache: array<VarNode?>, ghost nodes: seq<VarNode>, ghost m: nat)
      returns (final: nat, wrapped: bool)
    requires IsList(head, nodes) && m <= |nodes| && vpcache.Length == VPCACHE_SIZE
    requires tmpvp == if m < |nodes| then nodes[m] else null
    modifies vpcache
    ensures Filled(vpcache, nodes, m) && final == Final(m)
    ensures wrapped <==> m > VPCACHE_SIZE
  {
    hide Slot;
    var vp, i := head, VPCACHE_SIZE - 1;
    wrapped := false;
    ghost var j := 0;
    while vp != null && vp != tmpvp
      invariant 0 <= j <= m && vp == if j < |nodes| then nodes[j] else null
      invariant i == Final(j) - 1
      invariant wrapped <==> j > VPCACHE_SIZE
      invariant Filled(vpcache, nodes, j)
      decreases m - j
    {
      NextSlot(j);
      SlotsApart(j);
      if i < 0 {
        wrapped, i := true, VPCACHE_SIZE - 1;
      }
      vpcache[i] := vp;
      vp, i, j := vp.next, i - 1, j + 1;
    }
    final := i + 1;
  }

  // ----- emitting -----------------------------------------------------------------------

  /** Everything from node k on has been built, in list order, in front of `base`. */
  ghost predicate Emitted(p: Packet, vbs: seq<VarBind>, k: nat, base: seq<Byte>)
    requires k <= |vbs|
    reads p, p.pkt
  {
    && p.Valid()
    && AllBuildable(vbs[k..])
    && p.content == EncVarBinds(Minimal, vbs[k..]) + base
  }

  lemma EmittedStep(vbs: seq<VarBind>, k: nat, base: seq<Byte>)
    requires 0 < k <= |vbs| && AllBuildable(vbs[k..])
    ensures VarOpBuildable(vbs[k - 1]) <==> AllBuildable(vbs[k - 1..])
    ensures AllBuildable(vbs) ==> AllBuildable(vbs[k - 1..])
    ensures AllBuildable(vbs[k - 1..]) ==>
              EncVarOp(Minimal, vbs[k - 1]) + (EncVarBinds(Minimal, vbs[k..]) + base)
              == EncVarBinds(Minimal, vbs[k - 1..]) + base
  {
    hide VarOpBuildable, EncVarOp;
    var s := vbs[k - 1..];
    assert s[1..] == vbs[k..] && s[0] == vbs[k - 1];
    assert s == [vbs[k - 1]] + vbs[k..];
    if AllBuildable(s) {
      assert VarOpBuildable(s[0]);
      Assoc(EncVarOp(Minimal, vbs[k - 1]), EncVarBinds(Minimal, vbs[k..]), base);
    }
  }

  method EmitNode(p: Packet, vp: VarNode, ghost vbs: seq<VarBind>, ghost k: nat, ghost base: seq<Byte>)
      returns (ok: bool)
    requires 0 < k <= |vbs| && vp.vb == vbs[k - 1] && WellTyped(vp.vb.tag, vp.vb.value)
    requires Emitted(p, vbs, k, base)
    modifies p, p.pkt
    ensures ok ==> Emitted(p, vbs, k - 1, base) && (p.pkt == old(p.pkt) || fresh(p.pkt))
    ensures !ok ==> !AllBuildable(vbs)
  {
    hide EncVarOp, VarOpBuildable, EncVarBinds, WellTyped, AllBuildable;
    EmittedStep(vbs, k, base);
    ok := RbuildVarOp(p, true, vp.vb);
  }

  /** Builds the nodes the slots from..to hold, first slot first: from the node in front of
      node k backwards. */
  method EmitSlots(p: Packet, vpcache: array<VarNode?>, from: nat, to: nat,
                   ghost nodes: seq<VarNode>, ghost m: nat, ghost k: nat, ghost base: seq<Byte>)
      returns (ok: bool)
    requires k <= m <= |nodes| && from <= to <= VPCACHE_SIZE && to - from <= k && m - VPCACHE_SIZE <= k - (to - from)
    requires Filled(vpcache, nodes, m) && (from < to ==> Slot(k - 1) == from)
    requires Emitted(p, VarBinds(nodes), k, base) && AllTyped(nodes)
    modifies p, p.pkt
    ensures ok ==> Emitted(p, VarBinds(nodes), k - (to - from), base) && (p.pkt == old(p.pkt) || fresh(p.pkt))
    ensures !ok ==> !AllBuildable(VarBinds(nodes))
  {
    hide EncVarOp, VarOpBuildable, EncVarBinds, WellTyped, Emitted, AllBuildable, Slot;
    var i := from;
    ok := true;
    ghost var q := k;
    while i < to
      invariant from <= i <= to && q == k - (i - from) && (i < to ==> Slot(q - 1) == i)
      invariant p.pkt == old(p.pkt) || fresh(p.pkt)
      invariant Emitted(p, VarBinds(nodes), q, base)
      invariant ok
    {
      var vp := vpcache[i];
      assert vp == nodes[q - 1];
      ok := EmitNode(p, vp, VarBinds(nodes), q, base);
      if !ok {
        return;
      }
      SlotBefore(q - 1);
      i, q := i + 1, q - 1;
    }
  }

  ghost predicate AllTyped(nodes: seq<VarNode>) {
    forall i :: 0 <= i < |nodes| ==> WellTyped(nodes[i].vb.tag, nodes[i].vb.value)
  }

  lemma SlotBefore(t: nat)
    ensures t > 0 && Slot(t) < VPCACHE_SIZE - 1 ==> Slot(t - 1) == Slot(t) + 1
    ensures t > 0 && Slot(t) == VPCACHE_SIZE - 1 ==> Slot(t - 1) == 0
  {
  }

  /** What one pass emits: the slots from the newest node on, then, when the ring is full, those in
      front of it. */
  method EmitCached(p: Packet, vpcache: array<VarNode?>, final: nat, wrapped: bool,
                    ghost nodes: seq<VarNode>, ghost k: nat, ghost base: seq<Byte>)
      returns (ok: bool)
    requires k <= |nodes| && AllTyped(nodes) && Filled(vpcache, nodes, k)
    requires final == Final(k) && (wrapped <==> k > VPCACHE_SIZE)
    requires Emitted(p, VarBinds(nodes), k, base)
    modifies p, p.pkt
    ensures ok ==> Emitted(p, VarBinds(nodes), if wrapped then k - VPCACHE_SIZE else 0, base)
    ensures ok ==> p.pkt == old(p.pkt) || fresh(p.pkt)
    ensures !ok ==> !AllBuildable(VarBinds(nodes))
  {
    hide Filled, Emitted, AllTyped, AllBuildable, Slot, Final;
    FinalFacts(k);
    ok := EmitSlots(p, vpcache, final, VPCACHE_SIZE, nodes, k, k, base);
    if ok && wrapped {
      ok := EmitSlots(p, vpcache, 0, final, nodes, k, k - (VPCACHE_SIZE - final), base);
    }
  }

  /** The loop of Api_pduReallocRbuild over all passes. */
  method EmitAll(p: Packet, variables: VarNode?, ghost nodes: seq<VarNode>) returns (ok: bool)
    requires p.Valid() && IsList(variables, nodes) && AllTyped(nodes)
    modifies p, p.pkt
    ensures !AllBuildable(VarBinds(nodes)) ==> !ok
    ensures AllBuildable(VarBinds(nodes)) ==> p.Prepended(EncVarBinds(Minimal, VarBinds(nodes)), true, ok)
  {
    hide Filled, Emitted, AllTyped, AllBuildable, EncVarBinds, Slot;
    var vpcache := new VarNode?[VPCACHE_SIZE](_ => null);
    ghost var vbs, base := VarBinds(nodes), p.content;
    ghost var k: nat := |nodes|;
    var final, wrapped := FillCache(variables, null, vpcache, nodes, k);
    NothingEmitted(p, vbs);
    var notdone := true;
    ok := true;
    while notdone
      invariant k <= |nodes| && ok
      invariant p.pkt == old(p.pkt) || fresh(p.pkt)
      invariant Emitted(p, vbs, k, base)
      invariant if notdone then Filled(vpcache, nodes, k) && final == Final(k) && (wrapped <==> k > VPCACHE_SIZE)
                else k == 0
      decreases k, notdone
    {
      FinalFacts(k);
      ok := EmitCached(p, vpcache, final, wrapped, nodes, k, base);
      if !ok {
        return;
      }
      if wrapped {
        var tmpvp := if final == 0 then vpcache[VPCACHE_SIZE - 1] else vpcache[final - 1];
        OldestSlot(vpcache, nodes, k);
        k := k - VPCACHE_SIZE;
        final, wrapped := FillCache(variables, tmpvp, vpcache, nodes, k);
      } else {
        k, notdone := 0, false;
      }
    }
    EverythingEmitted(p, vbs, base);
  }

  lemma NothingEmitted(p: Packet, vbs: seq<VarBind>)
    requires p.Valid()
    ensures Emitted(p, vbs, |vbs|, p.content)
  {
    assert vbs[|vbs|..] == [];
    assert [] + p.content == p.content;
  }

  lemma EverythingEmitted(p: Packet, vbs: seq<VarBind>, base: seq<Byte>)
    requires Emitted(p, vbs, 0, base)
    ensures p.Valid() && AllBuildable(vbs) && p.content == EncVarBinds(Minimal, vbs) + base
  {
    assert vbs[0..] == vbs;
  }

  /** How the two emitting loops of a pass divide the nodes in the ring. */
  lemma FinalFacts(m: nat)
    ensures Final(m) <= VPCACHE_SIZE && VPCACHE_SIZE - Final(m) <= m
    ensures m <= VPCACHE_SIZE ==> VPCACHE_SIZE - Final(m) == m
    ensures m > 0 && Final(m) < VPCACHE_SIZE ==> Slot(m - 1) == Final(m)
    ensures var q := m - (VPCACHE_SIZE - Final(m)); q > 0 ==> Slot(q - 1) == 0
  {
  }

  lemma OldestSlot(cache: array<VarNode?>, nodes: seq<VarNode>, m: nat)
    requires VPCACHE_SIZE < m <= |nodes| && Filled(cache, nodes, m)
    ensures var f := Final(m);
            f <= VPCACHE_SIZE && cache.Length == VPCACHE_SIZE
            && cache[if f == 0 then VPCACHE_SIZE - 1 else f - 1] == nodes[m - VPCACHE_SIZE]
  {
    assert Slot(m - VPCACHE_SIZE) == if Final(m) == 0 then VPCACHE_SIZE - 1 else Final(m) - 1;
  }
}
