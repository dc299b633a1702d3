/** Client_queryWalk against an agent that answers GetNext from a table in the order of names
    (section 4.2.2 of RFC 3416). */
module Walk {
  import opened Bytes
  import opened Tags
  import opened PduSpec
  import opened OidOrder
  import opened OidCompare
  import VarClone

  predicate IsException(tag: Byte) {
    tag == ENDOFMIBVIEW || tag == NOSUCHOBJECT || tag == NOSUCHINSTANCE
  }

  /** An agent's variables: names in strictly increasing order, with real values. */
  predicate IsTable(table: seq<VarBind>) {
    && (forall i, j :: 0 <= i < j < |table| ==> Less(table[i].name, table[j].name))
    && (forall i :: 0 <= i < |table| ==> !IsException(table[i].tag))
  }

  /** Index of the first variable behind `name`. */
  function After(table: seq<VarBind>, name: ObjectId): (i: nat)
    ensures i <= |table|
    ensures forall j :: 0 <= j < i ==> !Less(name, table[j].name)
    ensures i < |table| ==> Less(name, table[i].name)
  {
    if table == [] || Less(name, table[0].name) then 0 else 1 + After(table[1..], name)
  }

  /** The agent's answer to GetNext. */
  function Reply(table: seq<VarBind>, name: ObjectId): VarBind {
    var i := After(table, name);
    if i < |table| then table[i] else VarBind(name, ENDOFMIBVIEW, Nothing)
  }

  /** The variables strictly below a name, in the order of the table. */
  function Below(table: seq<VarBind>, root: ObjectId): seq<VarBind> {
    if table == [] then []
    else if root < table[0].name then [table[0]] + Below(table[1..], root)
    else Below(table[1..], root)
  }

  lemma {:induction false} NoneBelow(table: seq<VarBind>, root: ObjectId)
    requires forall i :: 0 <= i < |table| ==> !(root < table[i].name)
    ensures Below(table, root) == []
  {
    if table != [] {
      NoneBelow(table[1..], root);
    }
  }

  /** What lies strictly below a name is one stretch of the table. */
  lemma {:induction false} BelowIsStretch(table: seq<VarBind>, root: ObjectId, a: nat, b: nat)
    requires a <= b <= |table|
    requires forall i :: 0 <= i < a || b <= i < |table| ==> !(root < table[i].name)
    requires forall i :: a <= i < b ==> root < table[i].name
    ensures Below(table, root) == table[a..b]
    decreases |table|
  {
    if a == b {
      NoneBelow(table, root);
    } else {
      var c := if a == 0 then 0 else a - 1;
      BelowIsStretch(table[1..], root, c, b - 1);
      assert table[1..][c..b - 1] == table[c + 1..b];
      assert a == 0 ==> table[a..b] == [table[0]] + table[1..b];
    }
  }

  lemma NextAfter(table: seq<VarBind>, i: nat)
    requires IsTable(table) && i < |table|
    ensures After(table, table[i].name) == i + 1
  {
    hide After, Less, IsException;
    var j := After(table, table[i].name);
    LessIrreflexive(table[i].name);
    if j < i {
      LessTransitive(table[i].name, table[j].name, table[i].name);
    }
    assert i + 1 < |table| ==> Less(table[i].name, table[i + 1].name);
  }

  /** In front of the first variable behind the root, and from the first one on that is not below it,
      nothing is below it. */
  lemma Outside(table: seq<VarBind>, root: ObjectId, a: nat, b: nat)
    requires IsTable(table) && a == After(table, root) && a <= b <= |table|
    requires b < |table| ==> !(root <= table[b].name)
    ensures forall i :: 0 <= i < a || b <= i < |table| ==> !(root < table[i].name)
  {
    forall i | 0 <= i < a
      ensures !(root < table[i].name)
    {
      if root < table[i].name {
        ProperPrefixLess(root, table[i].name);
      }
    }
    forall i | b <= i < |table|
      ensures !(root < table[i].name)
    {
      if root < table[i].name {
        BehindRoot(table, root, a, b);
        BelowRoot(root, table[i].name, table[b].name);
        LessTotal(table[i].name, table[b].name);
        assert false;
      }
    }
  }

  lemma ProperPrefixLess(a: ObjectId, b: ObjectId)
    requires a < b
    ensures Less(a, b)
  {
    assert b == a + b[|a|..];
    PrefixLess(a, b[|a|..]);
  }

  lemma BehindRoot(table: seq<VarBind>, root: ObjectId, a: nat, b: nat)
    requires IsTable(table) && a == After(table, root) && a <= b < |table|
    ensures Less(root, table[b].name)
  {
    if a < b {
      LessTransitive(root, table[a].name, table[b].name);
    }
  }

  /** What the loop test finds out about a variable behind the root. */
  lemma TreeCompareBelow(root: ObjectId, name: ObjectId)
    requires Less(root, name)
    ensures root <= name || name <= root <==> root < name
  {
    if name <= root {
      if name == root {
        LessIrreflexive(root);
      } else {
        ProperPrefixLess(name, root);
        LessTotal(root, name);
      }
      assert false;
    }
    assert root == name ==> Less(root, root);
    LessIrreflexive(root);
  }

  // ----- the list of results ------------------------------------------------------------

  class WalkNode {
    var vb: VarBind
    var next: WalkNode?

    constructor (vb: VarBind)
      ensures this.vb == vb && next == null
    {
      this.vb, next := vb, null;
    }
  }

  ghost predicate IsResult(head: WalkNode?, nodes: seq<WalkNode>, vbs: seq<VarBind>)
    reads nodes
  {
    && |nodes| == |vbs|
    && head == (if nodes == [] then null else nodes[0])
    && (forall i {:trigger nodes[i].next} :: 0 <= i < |nodes| ==>
          nodes[i].next == if i + 1 < |nodes| then nodes[i + 1] else null)
    && (forall i :: 0 <= i < |nodes| ==> nodes[i].vb == vbs[i])
    && (forall i, j :: 0 <= i < j < |nodes| ==> nodes[i] != nodes[j])
  }

  /** Client_cloneVarbind of the working copy. */
  method CloneRow(row: seq<VarBind>) returns (head: WalkNode, ghost copy: seq<WalkNode>)
    requires row != []
    ensures fresh(copy) && |copy| == |row| && head == copy[0] && IsResult(head, copy, row)
  {
    hide IsResult;
    var i := |row| - 1;
    head := new WalkNode(row[i]);
    copy := [head];
    OneResult(head);
    assert row[i..] == [row[i]];
    while i > 0
      invariant 0 <= i < |row| && fresh(copy) && |copy| == |row| - i && head == copy[0] && IsResult(head, copy, row[i..])
    {
      head := PutInFront(row[i - 1], head, copy, row[i..]);
      copy := [head] + copy;
      assert row[i - 1..] == [row[i - 1]] + row[i..];
      i := i - 1;
    }
    assert row[0..] == row;
  }

  lemma OneResult(node: WalkNode)
    requires node.next == null
    ensures IsResult(node, [node], [node.vb])
  {
  }

  method PutInFront(vb: VarBind, behind: WalkNode, ghost nodes: seq<WalkNode>, ghost vbs: seq<VarBind>)
    returns (head: WalkNode)
    requires IsResult(behind, nodes, vbs)
    ensures fresh(head) && IsResult(head, [head] + nodes, [vb] + vbs)
  {
    head := new WalkNode(vb);
    head.next := behind;
  }

  /** The results so far and what follows the last of them. */
  ghost predicate SoFar(resList: WalkNode?, resLast: WalkNode?, nodes: seq<WalkNode>, extra: seq<WalkNode>,
                        vbs: seq<VarBind>, others: seq<VarBind>)
    reads nodes, extra
  {
    && IsResult(resList, nodes + extra, vbs + others) && |nodes| == |vbs|
    && resLast == (if nodes == [] then null else nodes[|nodes| - 1]) && (nodes == [] ==> extra == [])
  }

  /** Putting a copy of the working copy behind the last result: what followed that one is given up. */
  method AppendResult(resList: WalkNode?, resLast: WalkNode?, row: seq<VarBind>, ghost nodes: seq<WalkNode>,
                      ghost extra: seq<WalkNode>, ghost vbs: seq<VarBind>, ghost others: seq<VarBind>)
    returns (head: WalkNode, last: WalkNode, ghost behind: seq<WalkNode>)
    requires SoFar(resList, resLast, nodes, extra, vbs, others) && row != []
    modifies (if resLast == null then {} else {resLast})`next
    ensures fresh(last) && fresh(behind)
    ensures SoFar(head, last, nodes + [last], behind, vbs + [row[0]], row[1..])
  {
    hide IsResult;
    ghost var copy;
    last, copy := CloneRow(row);
    FirstPart(resList, nodes, extra, vbs, others);
    if resLast != null {
      resLast.next := last;
      head := resList;
    } else {
      head := last;
    }
    Linked(nodes, copy, vbs, row, head, last);
    behind := copy[1..];
    assert nodes + copy == (nodes + [last]) + behind && vbs + row == (vbs + [row[0]]) + row[1..];
  }

  /** The links and values of the results, wherever the last one points. */
  ghost predicate IsFirstPart(head: WalkNode?, nodes: seq<WalkNode>, vbs: seq<VarBind>)
    reads nodes
  {
    && |nodes| == |vbs| && (nodes != [] ==> head == nodes[0])
    && (forall i {:trigger nodes[i].next} :: 0 <= i < |nodes| - 1 ==> nodes[i].next == nodes[i + 1])
    && (forall i :: 0 <= i < |nodes| ==> nodes[i].vb == vbs[i])
    && (forall i, j :: 0 <= i < j < |nodes| ==> nodes[i] != nodes[j])
  }

  lemma FirstPart(head: WalkNode?, nodes: seq<WalkNode>, extra: seq<WalkNode>, vbs: seq<VarBind>, others: seq<VarBind>)
    requires IsResult(head, nodes + extra, vbs + others) && |nodes| == |vbs|
    ensures IsFirstPart(head, nodes, vbs)
  {
    var all := nodes + extra;
    forall i | 0 <= i < |nodes| - 1
      ensures nodes[i].next == nodes[i + 1]
    {
      assert all[i].next == all[i + 1];
    }
    forall i | 0 <= i < |nodes|
      ensures nodes[i].vb == vbs[i]
    {
      assert all[i].vb == (vbs + others)[i];
    }
    forall i, j | 0 <= i < j < |nodes|
      ensures nodes[i] != nodes[j]
    {
      assert all[i] != all[j];
    }
  }

  lemma Linked(nodes: seq<WalkNode>, copy: seq<WalkNode>, vbs: seq<VarBind>, row: seq<VarBind>, head: WalkNode,
          last: WalkNode)
    requires IsFirstPart(head, nodes, vbs) && IsResult(last, copy, row) && copy != [] && last == copy[0]
    requires if nodes == [] then head == last else nodes[|nodes| - 1].next == last
    requires forall n :: n in nodes ==> n !in copy
    ensures IsResult(head, nodes + copy, vbs + row)
  {
    var all := nodes + copy;
    forall i | 0 <= i < |all|
      ensures all[i].next == if i + 1 < |all| then all[i + 1] else null
    {
      if i >= |nodes| {
        assert copy[i - |nodes|].next == if i - |nodes| + 1 < |copy| then copy[i - |nodes| + 1] else null;
      }
    }
    forall i, j | 0 <= i < j < |all|
      ensures all[i] != all[j]
    {
      if i < |nodes| <= j {
        assert all[i] in nodes && all[j] in copy;
      }
    }
  }

  /** _Client_query for GetNext: the status, and the working copy afterwards. */
  method Query(row: seq<VarBind>, table: seq<VarBind>, status: int) returns (ret: int, answer: seq<VarBind>)
    ensures ret == status && answer == if status == 0 then Replies(table, row) else row
  {
    ret := status;
    answer := if status == 0 then Replies(table, row) else row;
  }

  function Replies(table: seq<VarBind>, row: seq<VarBind>): (answer: seq<VarBind>)
    ensures |answer| == |row| && forall i :: 0 <= i < |row| ==> answer[i] == Reply(table, row[i].name)
  {
    seq(|row|, i requires 0 <= i < |row| => Reply(table, row[i].name))
  }

  /** The working copy after k rounds. */
  function Rounds(table: seq<VarBind>, row: seq<VarBind>, k: nat): (r: seq<VarBind>)
    ensures |r| == |row|
  {
    if k == 0 then row else Replies(table, Rounds(table, row, k - 1))
  }

  /** What is behind the results: the last answers for the other parameters, when there is a result. */
  function Others(table: seq<VarBind>, row: seq<VarBind>, k: nat): seq<VarBind> {
    if k == 0 || row == [] then [] else Rounds(table, row, k)[1..]
  }

  /** What the agent answers with when everything in front of index b has been asked for. */
  function AnswerAt(table: seq<VarBind>, b: nat, name: ObjectId): VarBind {
    if b < |table| then table[b] else VarBind(name, ENDOFMIBVIEW, Nothing)
  }

  /** The test at the head of the loop, and the one for the end of the agent's variables. */
  predicate GoesOn(root: ObjectId, vb: VarBind) {
    (root <= vb.name || vb.name <= root) && !IsException(vb.tag)
  }

  method StillBelow(root: ObjectId, vb: VarBind) returns (below: bool)
    ensures below <==> GoesOn(root, vb)
  {
    var order := OidTreeCompare(root, vb.name);
    ComparesDifferent(root, vb.name);
    below := order == 0 && !IsException(vb.tag);
  }

  lemma ComparesDifferent(a: ObjectId, b: ObjectId)
    ensures !(a <= b) ==> Compare(a, b) != 0
  {
  }

  /** One turn: the answer goes to the results, and the next one is asked for. */
  method TakeAnswer(root: ObjectId, table: seq<VarBind>, status: int, row: seq<VarBind>, resList: WalkNode?,
                    resLast: WalkNode?, ghost first: seq<VarBind>, ghost nodes: seq<WalkNode>,
                    ghost extra: seq<WalkNode>, ghost vbs: seq<VarBind>, ghost b: nat)
    returns (ret: int, next: seq<VarBind>, head: WalkNode, last: WalkNode, ghost behind: seq<WalkNode>)
    requires IsTable(table) && SoFar(resList, resLast, nodes, extra, vbs, Others(table, first, |vbs|))
    requires Walked(table, root, b, vbs) && Answered(table, first, b, |vbs|, row) && row != [] && GoesOn(root, row[0])
    modifies (if resLast == null then {} else {resLast})`next
    ensures fresh(last) && fresh(behind) && b < |table| && ret == status
    ensures SoFar(head, last, nodes + [last], behind, vbs + [row[0]], Others(table, first, |vbs| + 1))
    ensures Walked(table, root, b + 1, vbs + [row[0]]) && (ret == 0 ==> Answered(table, first, b + 1, |vbs| + 1, next))
  {
    hide *;
    AnswerDecides(table, root, first, b, vbs, row);
    head, last, behind := AppendResult(resList, resLast, row, nodes, extra, vbs, Others(table, first, |vbs|));
    ret, next := Query(row, table, status);
  }

  /** The loop of Client_queryWalk: the results as a list of their own. */
  method Collect(root: ObjectId, first: seq<VarBind>, table: seq<VarBind>, statuses: nat -> int)
    returns (ret: int, resList: WalkNode?, ghost nodes: seq<WalkNode>, ghost vbs: seq<VarBind>)
    requires IsTable(table) && first != [] && first[0].name == root
    ensures fresh(nodes) && IsResult(resList, nodes, vbs + Others(table, first, |vbs|))
    ensures vbs <= Below(table, root)
    ensures ret == 0 ==> vbs == Below(table, root)
    ensures (forall i :: statuses(i) == 0) ==> ret == 0
  {
    hide *;
    ghost var b, extra := After(table, root), [];
    var row, k := first, 1;
    resList, nodes, vbs := null, [], [];
    var resLast: WalkNode? := null;
    ret, row := Query(row, table, statuses(0));
    WalkBegins(table, root, first);
    while ret == 0
      invariant fresh(nodes) && fresh(extra) && (resLast != null ==> fresh(resLast))
      invariant SoFar(resList, resLast, nodes, extra, vbs, Others(table, first, |vbs|))
      invariant Walked(table, root, b, vbs) && (ret == 0 ==> Answered(table, first, b, |vbs|, row))
      invariant k > 0 && ret == statuses(k - 1)
      decreases |table| - b, ret == 0
    {
      AnswerDecides(table, root, first, b, vbs, row);
      var below := StillBelow(root, row[0]);
      if !below {
        break;
      }
      ghost var vb := row[0];
      ret, row, resList, resLast, extra :=
        TakeAnswer(root, table, statuses(k), row, resList, resLast, first, nodes, extra, vbs, b);
      nodes, vbs, b, k := nodes + [resLast], vbs + [vb], b + 1, k + 1;
    }
    nodes := AllNodes(resList, resLast, nodes, extra, vbs, Others(table, first, |vbs|));
    WalkedPart(table, root, b, vbs);
  }

  lemma AllNodes(resList: WalkNode?, resLast: WalkNode?, nodes: seq<WalkNode>, extra: seq<WalkNode>,
                 vbs: seq<VarBind>, others: seq<VarBind>) returns (all: seq<WalkNode>)
    requires SoFar(resList, resLast, nodes, extra, vbs, others)
    ensures all == nodes + extra && IsResult(resList, all, vbs + others)
  {
    all := nodes + extra;
  }

  /** The results so far are the stretch of the table behind the root up to b, and all below the root. */
  ghost predicate Walked(table: seq<VarBind>, root: ObjectId, b: nat, vbs: seq<VarBind>) {
    var a := After(table, root);
    && a <= b <= |table| && vbs == table[a..b]
    && forall i :: a <= i < b ==> root < table[i].name
  }

  /** The working copy after the query behind the n-th result: its first varbind is the variable at b. */
  ghost predicate Answered(table: seq<VarBind>, first: seq<VarBind>, b: nat, n: nat, row: seq<VarBind>) {
    && |row| == |first| > 0 && row == Rounds(table, first, n + 1)
    && exists asked: ObjectId :: row[0] == AnswerAt(table, b, asked)
  }

  lemma AnsweredNext(table: seq<VarBind>, first: seq<VarBind>, b: nat, n: nat, row: seq<VarBind>, asked: ObjectId)
    requires |row| == |first| > 0 && row == Rounds(table, first, n) && Reply(table, row[0].name) == AnswerAt(table, b, asked)
    ensures Answered(table, first, b, n, Replies(table, row))
  {
    hide AnswerAt, Reply;
    assert Replies(table, row)[0] == AnswerAt(table, b, asked);
  }

  lemma WalkBegins(table: seq<VarBind>, root: ObjectId, first: seq<VarBind>)
    requires first != [] && first[0].name == root
    ensures var b := After(table, root);
            && Walked(table, root, b, []) && Answered(table, first, b, 0, Replies(table, first))
            && SoFar(null, null, [], [], [], Others(table, first, 0))
  {
    hide Replies, Answered;
    AnsweredNext(table, first, After(table, root), 0, first, root);
    var none: seq<WalkNode>, nothing: seq<VarBind> := [], [];
    assert none + none == none && nothing + nothing == nothing;
  }

  lemma AnswerIs(table: seq<VarBind>, first: seq<VarBind>, b: nat, n: nat, row: seq<VarBind>)
    requires Answered(table, first, b, n, row)
    ensures |row| == |first| > 0 && row == Rounds(table, first, n + 1) && row[1..] == Others(table, first, n + 1)
    ensures if b < |table| then row[0] == table[b] else IsException(row[0].tag)
  {
    hide Rounds;
  }

  lemma WalkedNext(table: seq<VarBind>, root: ObjectId, b: nat, vbs: seq<VarBind>)
    requires Walked(table, root, b, vbs) && b < |table| && root < table[b].name
    ensures Walked(table, root, b + 1, vbs + [table[b]])
  {
    hide After;
    var a := After(table, root);
    assert table[a..b + 1] == table[a..b] + [table[b]];
  }

  lemma WalkedEnds(table: seq<VarBind>, root: ObjectId, b: nat, vbs: seq<VarBind>)
    requires IsTable(table) && Walked(table, root, b, vbs) && (b < |table| ==> !(root < table[b].name))
    ensures vbs == Below(table, root)
  {
    hide After, Below, IsTable;
    Stretch(table, root, After(table, root), b);
  }

  /** The variable the agent answers with passes the test exactly when it is below the root, and the
      one after it comes next. */
  lemma EntryAt(table: seq<VarBind>, root: ObjectId, b: nat, vbs: seq<VarBind>)
    requires IsTable(table) && Walked(table, root, b, vbs) && b < |table|
    ensures GoesOn(root, table[b]) <==> root < table[b].name
    ensures Reply(table, table[b].name) == AnswerAt(table, b + 1, table[b].name)
  {
    hide After, Less;
    BehindRoot(table, root, After(table, root), b);
    TreeCompareBelow(root, table[b].name);
    NextAfter(table, b);
  }

  /** An answer that is still below goes to the results; at any other the results are complete. */
  lemma AnswerDecides(table: seq<VarBind>, root: ObjectId, first: seq<VarBind>, b: nat, vbs: seq<VarBind>,
          row: seq<VarBind>)
    requires IsTable(table) && Walked(table, root, b, vbs) && Answered(table, first, b, |vbs|, row)
    ensures row != [] && row[1..] == Others(table, first, |vbs| + 1) && b <= |table|
    ensures var vb := row[0];
            if GoesOn(root, vb)
            then b < |table| && Walked(table, root, b + 1, vbs + [vb]) && Answered(table, first, b + 1, |vbs| + 1, Replies(table, row))
            else vbs == Below(table, root)
  {
    hide Below, IsTable, Rounds, Replies, Reply, Answered, Walked, AnswerAt;
    AnswerIs(table, first, b, |vbs|, row);
    if b < |table| {
      EntryAt(table, root, b, vbs);
      if root < table[b].name {
        WalkedNext(table, root, b, vbs);
        AnsweredNext(table, first, b + 1, |vbs| + 1, row, table[b].name);
      } else {
        WalkedEnds(table, root, b, vbs);
      }
    } else {
      WalkedWithin(table, root, b, vbs);
      WalkedEnds(table, root, b, vbs);
    }
  }

  lemma WalkedWithin(table: seq<VarBind>, root: ObjectId, b: nat, vbs: seq<VarBind>)
    requires Walked(table, root, b, vbs)
    ensures b <= |table|
  {
    hide After;
  }

  lemma WalkedPart(table: seq<VarBind>, root: ObjectId, b: nat, vbs: seq<VarBind>)
    requires IsTable(table) && Walked(table, root, b, vbs)
    ensures vbs <= Below(table, root)
  {
    hide After, Below, IsTable;
    PartOfStretch(table, root, After(table, root), b);
  }

  lemma Stretch(table: seq<VarBind>, root: ObjectId, a: nat, b: nat)
    requires IsTable(table) && a == After(table, root) && a <= b <= |table|
    requires forall i :: a <= i < b ==> root < table[i].name
    requires b < |table| ==> !(root < table[b].name)
    ensures Below(table, root) == table[a..b]
  {
    if b < |table| {
      BehindRoot(table, root, a, b);
      TreeCompareBelow(root, table[b].name);
    }
    Outside(table, root, a, b);
    BelowIsStretch(table, root, a, b);
  }

  /** A walk that stops early has the first part. */
  lemma {:induction false} PartOfStretch(table: seq<VarBind>, root: ObjectId, a: nat, b: nat)
    requires IsTable(table) && a == After(table, root) && a <= b <= |table|
    requires forall i :: a <= i < b ==> root < table[i].name
    ensures table[a..b] <= Below(table, root)
    decreases |table| - b
  {
    if b < |table| && root < table[b].name {
      PartOfStretch(table, root, a, b + 1);
      assert table[a..b + 1][..b - a] == table[a..b];
    } else {
      Stretch(table, root, a, b);
    }
  }

  /** The first result takes the place of the parameter, and the others follow it. */
  method CopyBack(list: WalkNode, resList: WalkNode, ghost nodes: seq<WalkNode>, ghost vbs: seq<VarBind>)
    returns (ghost all: seq<WalkNode>)
    requires IsResult(resList, nodes, vbs) && list !in nodes
    modifies list, resList`next
    ensures IsResult(list, all, vbs)
  {
    all := nodes[0 := list];
    assert nodes[0].next == if 1 < |nodes| then nodes[1] else null;
    list.vb := resList.vb;
    list.next := resList.next;
    resList.next := null;
    forall i | 0 <= i < |all|
      ensures all[i].next == if i + 1 < |all| then all[i + 1] else null
    {
      if i > 0 {
        assert old(nodes[i].next) == if i + 1 < |nodes| then nodes[i + 1] else null;
      }
    }
  }

  /** Client_cloneVarbind of the parameter, as a value. */
  method CloneList(list: WalkNode, ghost given: seq<WalkNode>, ghost was: seq<VarBind>) returns (row: seq<VarBind>)
    requires IsResult(list, given, was) && was != []
    ensures row == VarClone.FirstOf(was, VarClone.COPY_ALL)
  {
    var v: WalkNode?, i := list, 0;
    row := [];
    while v != null && i < VarClone.COPY_ALL
      invariant 0 <= i <= |given| && i <= VarClone.COPY_ALL && row == was[..i]
      invariant v == if i < |given| then given[i] else null
      decreases |given| - i
    {
      assert given[i].next == if i + 1 < |given| then given[i + 1] else null;
      row, v, i := row + [v.vb], v.next, i + 1;
    }
  }

  /** Client_queryWalk: afterwards `list` heads the variables strictly below the name it had, and
      behind them the last answers for the other varbinds of the list when it had more than one; or
      it is as it was when there are no such variables. A query that fails cuts the results short. */
  method QueryWalk(list: WalkNode, table: seq<VarBind>, statuses: nat -> int, ghost given: seq<WalkNode>,
          ghost was: seq<VarBind>)
    returns (ret: int, ghost nodes: seq<WalkNode>, ghost vbs: seq<VarBind>)
    requires IsTable(table) && IsResult(list, given, was)
    modifies list
    ensures vbs == [] ==> nodes == given && IsResult(list, given, was)
    ensures vbs != [] ==>
              IsResult(list, nodes, vbs + Others(table, VarClone.FirstOf(was, VarClone.COPY_ALL), |vbs|))
    ensures vbs <= Below(table, was[0].name)
    ensures ret == 0 ==> vbs == Below(table, was[0].name)
    ensures (forall i :: statuses(i) == 0) ==> ret == 0
  {
    hide Below, IsTable, Others;
    var row := CloneList(list, given, was);
    var resList;
    ret, resList, nodes, vbs := Collect(list.vb.name, row, table, statuses);
    NoOthers(table, row);
    if resList != null {
      nodes := CopyBack(list, resList, nodes, vbs + Others(table, row, |vbs|));
    } else {
      nodes := given;
    }
  }

  lemma NoOthers(table: seq<VarBind>, row: seq<VarBind>)
    ensures Others(table, row, 0) == []
    ensures |row| == 1 ==> forall k :: Others(table, row, k) == []
  {
    hide Replies;
  }

  /** For a list of one varbind nothing is behind the results. */
  lemma OneParameter(table: seq<VarBind>, vb: VarBind, vbs: seq<VarBind>)
    ensures vbs + Others(table, VarClone.FirstOf([vb], VarClone.COPY_ALL), |vbs|) == vbs
  {
    NoOthers(table, [vb]);
    assert VarClone.FirstOf([vb], VarClone.COPY_ALL) == [vb];
    assert vbs + [] == vbs;
  }

  /** Below lists exactly the variables strictly below the root, each once and in order. */
  lemma {:induction false} BelowExact(table: seq<VarBind>, root: ObjectId, vb: VarBind)
    requires IsTable(table)
    ensures vb in Below(table, root) <==> vb in table && root < vb.name
    ensures IsTable(Below(table, root))
    decreases |table|
  {
    if table != [] {
      TableTail(table);
      BelowExact(table[1..], root, vb);
      TableCons(table, root);
    }
  }

  lemma TableTail(table: seq<VarBind>)
    requires IsTable(table) && table != []
    ensures IsTable(table[1..])
  {
  }

  lemma TableCons(table: seq<VarBind>, root: ObjectId)
    requires IsTable(table) && table != [] && IsTable(Below(table[1..], root))
    ensures IsTable([table[0]] + Below(table[1..], root))
  {
    var t := Below(table[1..], root);
    forall j | 0 <= j < |t|
      ensures Less(table[0].name, t[j].name)
    {
      BelowWithin(table[1..], root, j);
    }
  }

  lemma {:induction false} BelowWithin(table: seq<VarBind>, root: ObjectId, j: nat)
    requires j < |Below(table, root)|
    ensures Below(table, root)[j] in table
    decreases |table|
  {
    if root < table[0].name {
      if j > 0 {
        BelowWithin(table[1..], root, j - 1);
      }
    } else {
      BelowWithin(table[1..], root, j);
    }
  }
}
