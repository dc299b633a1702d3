/** Copying varbind lists: cloning, splitting and repairing a PDU (Client.c). */
module VarClone {
  import opened Bytes
  import opened Tags
  import opened PduSpec
  import opened VarList

  const COPY_ALL := 10000
  const DEFAULT_ERRSTAT := -1
  const DEFAULT_ERRINDEX := -1
  const ERR_NOERROR := 0

  function FirstOf(vbs: seq<VarBind>, count: int): (m: seq<VarBind>)
    ensures |m| <= |vbs|
  {
    if count <= 0 then [] else if count < |vbs| then vbs[..count] else vbs
  }

  /** Without the varbind numbered `errindex`, counting from 1. */
  function Without(m: seq<VarBind>, errindex: int): seq<VarBind> {
    if 1 <= errindex <= |m| then m[..errindex - 1] + m[errindex..] else m
  }

  function Copied(vbs: seq<VarBind>, errindex: int, count: int): seq<VarBind> {
    Without(FirstOf(vbs, count), errindex)
  }

  method AppendCopy(newhead: VarNode?, oldvar: VarNode?, vb: VarBind, ghost copy: seq<VarNode>)
    returns (head: VarNode, newvar: VarNode)
    requires IsList(newhead, copy) && oldvar == if copy == [] then null else copy[|copy| - 1]
    modifies (if oldvar == null then {} else {oldvar})`next
    ensures fresh(newvar) && IsList(head, copy + [newvar]) && VarBinds(copy + [newvar]) == VarBinds(copy) + [vb]
  {
    newvar := new VarNode(vb);
    head := if newhead == null then newvar else newhead;
    if oldvar != null {
      oldvar.next := newvar;
    }
  }

  lemma WithoutAppend(m: seq<VarBind>, vb: VarBind, errindex: int)
    ensures Without(m + [vb], errindex) == if |m| + 1 == errindex then m else Without(m, errindex) + [vb]
  {
    var n := m + [vb];
    if 1 <= errindex <= |m| {
      assert n[..errindex - 1] == m[..errindex - 1] && n[errindex..] == m[errindex..] + [vb];
    }
  }

  /** What one more turn of the copying loop adds. */
  lemma CopiedStep(vbs: seq<VarBind>, errindex: int, i: nat)
    requires i < |vbs|
    ensures Copied(vbs, errindex, i + 1) == if i + 1 == errindex then Copied(vbs, errindex, i)
                                            else Copied(vbs, errindex, i) + [vbs[i]]
  {
    hide Without;
    assert FirstOf(vbs, i + 1) == FirstOf(vbs, i) + [vbs[i]];
    WithoutAppend(FirstOf(vbs, i), vbs[i], errindex);
    NotThere(FirstOf(vbs, i), errindex);
  }

  lemma NotThere(m: seq<VarBind>, errindex: int)
    ensures errindex > |m| ==> Without(m, errindex) == m
  {
  }

  lemma CopiedRest(vbs: seq<VarBind>, errindex: int, count: int, i: nat)
    requires i <= |vbs| && (if count <= 0 then i == 0 else i == count || (i == |vbs| && i < count))
    ensures Copied(vbs, errindex, i) == Copied(vbs, errindex, count)
  {
    assert vbs[..|vbs|] == vbs;
  }

  lemma NextNode(head: VarNode?, nodes: seq<VarNode>, i: nat)
    requires IsList(head, nodes) && i <= |nodes|
    ensures i == 0 ==> head == if nodes == [] then null else nodes[0]
    ensures i < |nodes| ==> nodes[i].next == if i + 1 < |nodes| then nodes[i + 1] else null
  {
  }

  /** _Client_copyVarlist */
  method CopyVarlist(varlist: VarNode?, errindex: int, copyCount: int, ghost nodes: seq<VarNode>)
    returns (newhead: VarNode?, ghost copy: seq<VarNode>)
    requires IsList(varlist, nodes)
    ensures fresh(copy) && IsList(newhead, copy)
    ensures VarBinds(copy) == Copied(VarBinds(nodes), errindex, copyCount)
  {
    hide Copied, IsList;
    newhead, copy := null, [];
    var v, oldvar: VarNode? := varlist, null;
    var ii, left := 0, copyCount;
    ghost var vbs := VarBinds(nodes);
    NextNode(varlist, nodes, 0);
    NothingCopied(vbs, errindex, copy);
    while v != null && left > 0
      invariant 0 <= ii <= |nodes| && v == if ii < |nodes| then nodes[ii] else null
      invariant left == copyCount - ii && (ii > 0 ==> left >= 0)
      invariant fresh(copy) && IsList(newhead, copy) && oldvar == if copy == [] then null else copy[|copy| - 1]
      invariant VarBinds(copy) == Copied(vbs, errindex, ii)
      decreases |nodes| - ii
    {
      CopiedStep(vbs, errindex, ii);
      NextNode(varlist, nodes, ii);
      left, ii := left - 1, ii + 1;
      if ii != errindex {
        newhead, oldvar := AppendCopy(newhead, oldvar, v.vb, copy);
        copy := copy + [oldvar];
      }
      v := v.next;
    }
    CopiedRest(vbs, errindex, copyCount, ii);
  }

  lemma NothingCopied(vbs: seq<VarBind>, errindex: int, copy: seq<VarNode>)
    requires copy == []
    ensures IsList(null, copy) && VarBinds(copy) == Copied(vbs, errindex, 0)
  {
  }

  /** _Client_copyPduVars: the varbinds behind the first `skipCount`. */
  method CopyPduVars(pdu: PduRecord, newpdu: PduRecord, dropErr: bool, skipCount: nat, copyCount: int,
          ghost nodes: seq<VarNode>)
    returns (ghost copy: seq<VarNode>)
    requires IsList(pdu.variables, nodes) && pdu != newpdu
    modifies newpdu`variables
    ensures fresh(copy) && IsList(newpdu.variables, copy)
    ensures var behind := VarBinds(nodes)[if skipCount < |nodes| then skipCount else |nodes|..];
            VarBinds(copy) == Copied(behind, if dropErr then pdu.errindex - skipCount else 0, copyCount)
  {
    hide Copied;
    var dropIdx := if dropErr then pdu.errindex - skipCount else 0;
    var v, skip := pdu.variables, skipCount;
    ghost var head, i := pdu.variables, 0;
    NextNode(head, nodes, 0);
    while v != null && skip > 0
      invariant 0 <= i <= |nodes| && v == if i < |nodes| then nodes[i] else null
      invariant 0 <= skip && skip + i == skipCount
      decreases |nodes| - i
    {
      NextNode(head, nodes, i);
      v, skip, i := v.next, skip - 1, i + 1;
    }
    RestIsList(head, nodes, i);
    newpdu.variables, copy := CopyVarlist(v, dropIdx, copyCount, nodes[i..]);
  }

  lemma RestIsList(head: VarNode?, nodes: seq<VarNode>, i: nat)
    requires IsList(head, nodes) && i <= |nodes|
    ensures IsList(if i < |nodes| then nodes[i] else null, nodes[i..])
    ensures VarBinds(nodes[i..]) == VarBinds(nodes)[i..]
  {
    ghost var rest := nodes[i..];
    forall k | 0 <= k < |rest|
      ensures rest[k].next == if k + 1 < |rest| then rest[k + 1] else null
    {
      assert nodes[i + k].next == if i + k + 1 < |nodes| then nodes[i + k + 1] else null;
    }
  }

  /** _Client_clonePdu */
  method ClonePdu(pdu: PduRecord, dropErr: bool, ghost nodes: seq<VarNode>)
    returns (newpdu: PduRecord, ghost copy: seq<VarNode>)
    requires IsList(pdu.variables, nodes)
    ensures fresh(newpdu) && fresh(copy) && IsList(newpdu.variables, copy) && newpdu.SameHeader(pdu)
    ensures VarBinds(copy) == Copied(VarBinds(nodes), if dropErr then pdu.errindex else 0, COPY_ALL)
  {
    hide Copied, IsList;
    newpdu := new PduRecord.CloneOf(pdu);
    assert VarBinds(nodes)[0..] == VarBinds(nodes);
    copy := CopyPduVars(pdu, newpdu, dropErr, 0, COPY_ALL, nodes);
  }

  /** Client_varbindLen */
  method VarbindLen(variables: VarNode?, ghost nodes: seq<VarNode>) returns (count: nat)
    requires IsList(variables, nodes)
    ensures count == |nodes|
  {
    hide IsList;
    var v := variables;
    count := 0;
    NextNode(variables, nodes, 0);
    while v != null
      invariant count <= |nodes| && v == if count < |nodes| then nodes[count] else null
      decreases |nodes| - count
    {
      NextNode(variables, nodes, count);
      v, count := v.next, count + 1;
    }
  }

  /** Client_fixPdu; `reqid` is what Api_getNextReqid gave. The clone lacks the varbind at fault, and
      there is one only for an error response that names one of at least two varbinds. */
  method FixPdu(pdu: PduRecord, command: Byte, reqid: Long, ghost nodes: seq<VarNode>)
    returns (newpdu: PduRecord?, ghost copy: seq<VarNode>)
    requires IsList(pdu.variables, nodes)
    ensures newpdu != null <==> pdu.command == MSG_RESPONSE && pdu.errstat != ERR_NOERROR
                                && 0 < pdu.errindex <= ToInt(|nodes|) && |nodes| >= 2
    ensures newpdu != null ==>
              && fresh(newpdu) && fresh(copy) && IsList(newpdu.variables, copy)
              && newpdu.command == command && newpdu.reqid == reqid
              && newpdu.errstat == DEFAULT_ERRSTAT && newpdu.errindex == DEFAULT_ERRINDEX
              && VarBinds(copy) == Copied(VarBinds(nodes), pdu.errindex, COPY_ALL)
              && newpdu.contextEngineID == pdu.contextEngineID && newpdu.contextName == pdu.contextName
  {
    hide Copied, IsList, ToInt;
    newpdu, copy := null, [];
    NextNode(pdu.variables, nodes, 0);
    var count := VarbindLen(pdu.variables, nodes);
    if pdu.command != MSG_RESPONSE || pdu.errstat == ERR_NOERROR || pdu.variables == null
       || pdu.errindex > ToInt(count) || pdu.errindex <= 0 {
      return;
    }
    var clone;
    clone, copy := ClonePdu(pdu, true, nodes);
    NextNode(clone.variables, copy, 0);
    LeftOver(VarBinds(nodes), pdu.errindex);
    if clone.variables == null {
      return;
    }
    ResetFields(clone, command, reqid);
    newpdu := clone;
  }

  method ResetFields(pdu: PduRecord, command: Byte, reqid: Long)
    modifies pdu`command, pdu`reqid, pdu`errstat, pdu`errindex
    ensures pdu.command == command && pdu.reqid == reqid
    ensures pdu.errstat == DEFAULT_ERRSTAT && pdu.errindex == DEFAULT_ERRINDEX
  {
    pdu.command, pdu.reqid, pdu.errstat, pdu.errindex := command, reqid, DEFAULT_ERRSTAT, DEFAULT_ERRINDEX;
  }

  lemma LeftOver(vbs: seq<VarBind>, errindex: int)
    requires 0 < errindex <= ToInt(|vbs|) && vbs != []
    ensures Copied(vbs, errindex, COPY_ALL) == [] <==> |vbs| == 1
  {
  }

  /** A clone has all the varbinds exactly when there are at most 10000 of them. */
  lemma CloneIsExact(vbs: seq<VarBind>)
    ensures Copied(vbs, 0, COPY_ALL) == vbs <==> |vbs| <= COPY_ALL
  {
  }

  /** Two parts split off behind one another make up the whole. */
  lemma SplitsJoin(vbs: seq<VarBind>, k: nat)
    requires k <= |vbs|
    ensures Copied(vbs, 0, k) + Copied(vbs[k..], 0, |vbs| - k) == vbs
  {
  }

  /** A repaired PDU lacks the varbind at fault and no other exactly when there are at most 10000,
      or one more and that is the one. */
  lemma FixDropsOne(vbs: seq<VarBind>, errindex: int)
    requires 1 <= errindex <= |vbs|
    ensures Copied(vbs, errindex, COPY_ALL) == vbs[..errindex - 1] + vbs[errindex..] <==>
              |vbs| <= COPY_ALL || errindex == |vbs| == COPY_ALL + 1
  {
    var c, whole := Copied(vbs, errindex, COPY_ALL), vbs[..errindex - 1] + vbs[errindex..];
    assert |whole| == |vbs| - 1;
    if errindex == |vbs| == COPY_ALL + 1 {
      assert c == vbs[..COPY_ALL] && vbs[errindex..] == [];
    }
  }
}
