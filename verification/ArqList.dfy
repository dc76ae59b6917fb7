/** The intrusive doubly linked list of GtpArq: the PopArqNode and PushPack macros
    (src/arq/goodtp_arq.cpp:27-61) on nodes addressed by the blocks they occupy.  Node memory
    is kept field by field: the link fields pre_node_ and nxt_node_, and the rest. */
module ArqList {
  import opened PacketPool
  import opened ArqModel

  const NULL: int := 0

  type Links = map<int, int>

  ghost function After(addrs: seq<int>, i: nat): int
    requires i < |addrs|
  {
    if i + 1 < |addrs| then addrs[i + 1] else NULL
  }

  ghost predicate Distinct(addrs: seq<int>) {
    forall i, j :: 0 <= i < j < |addrs| ==> addrs[i] != addrs[j]
  }

  /** Following nxt from the first node visits the list and ends. */
  ghost predicate Forward(addrs: seq<int>, nxt: Links) {
    forall i {:trigger nxt[addrs[i]]} {:trigger addrs[i] in nxt} ::
      0 <= i < |addrs| ==> addrs[i] in nxt && nxt[addrs[i]] == After(addrs, i)
  }

  /** Back links are right from the second node on.  The head's is unspecified: a first push
      leaves it pointing at the node itself, a removed head leaves its successor's null. */
  ghost predicate Backward(addrs: seq<int>, pre: Links) {
    forall i {:trigger pre[addrs[i]]} {:trigger addrs[i] in pre} ::
      0 <= i < |addrs| ==> addrs[i] in pre && (i > 0 ==> pre[addrs[i]] == addrs[i - 1])
  }

  ghost predicate Linked(head: int, tail: int, addrs: seq<int>, pre: Links, nxt: Links) {
    && NULL !in addrs && Distinct(addrs)
    && head == (if addrs == [] then NULL else addrs[0])
    && tail == (if addrs == [] then NULL else addrs[|addrs| - 1])
    && Forward(addrs, nxt)
    && Backward(addrs, pre)
  }

  ghost function Values(addrs: seq<int>, fields: map<int, Node>): (v: seq<Node>)
    requires forall i :: 0 <= i < |addrs| ==> addrs[i] in fields
    ensures |v| == |addrs|
  {
    seq(|addrs|, i requires 0 <= i < |addrs| => fields[addrs[i]])
  }

  ghost function RemoveAt<T>(s: seq<T>, k: nat): (r: seq<T>)
    requires k < |s|
    ensures |r| == |s| - 1 && forall i :: 0 <= i < |r| ==> r[i] == if i < k then s[i] else s[i + 1]
  {
    s[..k] + s[k + 1..]
  }

  // ----- the ways a list changes

  lemma DistinctRemoved(addrs: seq<int>, k: nat)
    requires Distinct(addrs) && k < |addrs|
    ensures Distinct(RemoveAt(addrs, k)) && addrs[k] !in RemoveAt(addrs, k)
  {
  }

  lemma ForwardRemoved(addrs: seq<int>, nxt: Links, k: nat)
    requires k < |addrs| && Distinct(addrs) && Forward(addrs, nxt)
    ensures Forward(RemoveAt(addrs, k), if k == 0 then nxt else nxt[addrs[k - 1] := After(addrs, k)])
  {
    var a, n := RemoveAt(addrs, k), if k == 0 then nxt else nxt[addrs[k - 1] := After(addrs, k)];
    forall i | 0 <= i < |a| ensures a[i] in n && n[a[i]] == After(a, i) {
      var j := if i < k then i else i + 1;
      assert nxt[addrs[j]] == After(addrs, j);
    }
  }

  lemma BackwardRemoved(addrs: seq<int>, pre: Links, k: nat, back: int)
    requires k < |addrs| && Distinct(addrs) && Backward(addrs, pre) && (k > 0 ==> back == addrs[k - 1])
    ensures Backward(RemoveAt(addrs, k), if k + 1 == |addrs| then pre else pre[addrs[k + 1] := back])
  {
    var a, p := RemoveAt(addrs, k), if k + 1 == |addrs| then pre else pre[addrs[k + 1] := back];
    forall i | 0 <= i < |a| ensures a[i] in p && (i > 0 ==> p[a[i]] == a[i - 1]) {
      var j := if i < k then i else i + 1;
      assert addrs[j] in pre && (j > 0 ==> pre[addrs[j]] == addrs[j - 1]);
    }
  }

  /** The list without its k-th node, with the one or two link updates that unlink it. */
  lemma RemovedLinked(head: int, tail: int, addrs: seq<int>, pre: Links, nxt: Links, k: nat)
    requires Linked(head, tail, addrs, pre, nxt) && k < |addrs|
    ensures var last := k + 1 == |addrs|;
      var back := if k == 0 then NULL else addrs[k - 1];
      Linked(if k == 0 then After(addrs, 0) else head, if last then back else tail, RemoveAt(addrs, k),
             if last then pre else pre[addrs[k + 1] := back],
             if k == 0 then nxt else nxt[addrs[k - 1] := After(addrs, k)])
    ensures nxt[addrs[k]] == After(addrs, k) && (k > 0 ==> pre[addrs[k]] == addrs[k - 1])
  {
    DistinctRemoved(addrs, k);
    ForwardRemoved(addrs, nxt, k);
    BackwardRemoved(addrs, pre, k, if k == 0 then NULL else addrs[k - 1]);
  }

  lemma ForwardAppended(addrs: seq<int>, nxt: Links, cur: int)
    requires Distinct(addrs) && Forward(addrs, nxt) && cur !in addrs
    ensures Forward(addrs + [cur],
                    if addrs == [] then nxt[cur := NULL] else nxt[cur := NULL][addrs[|addrs| - 1] := cur])
  {
    var a := addrs + [cur];
    var n := if addrs == [] then nxt[cur := NULL] else nxt[cur := NULL][addrs[|addrs| - 1] := cur];
    forall i | 0 <= i < |a| ensures a[i] in n && n[a[i]] == After(a, i) {
      if i < |addrs| { assert nxt[addrs[i]] == After(addrs, i); }
    }
  }

  lemma RemovedValues(addrs: seq<int>, fields: map<int, Node>, k: nat)
    requires k < |addrs| && forall i :: 0 <= i < |addrs| ==> addrs[i] in fields
    ensures forall i :: 0 <= i < |addrs| - 1 ==> RemoveAt(addrs, k)[i] in fields
    ensures Values(RemoveAt(addrs, k), fields) == RemoveAt(Values(addrs, fields), k)
  {
  }

  class List {
    var head: int
    var tail: int
    var nodeNum: nat
    var pre: Links
    var nxt: Links
    var fields: map<int, Node>
    ghost var addrs: seq<int>     // the list, head to tail
    ghost var view: seq<Node>     // its nodes

    /** Acyclic, ending at tail, with node_num_ equal to the length. */
    ghost predicate Valid()
      reads this
    {
      && Linked(head, tail, addrs, pre, nxt)
      && nodeNum == |addrs|
      && (forall i :: 0 <= i < |addrs| ==> addrs[i] in fields)
      && view == Values(addrs, fields)
    }

    constructor ()
      ensures Valid() && addrs == [] && view == []
    {
      head, tail, nodeNum, addrs, view := NULL, NULL, 0, [], [];
      pre, nxt, fields := map[], map[], map[];
    }

    /** PopArqNode: unlink a node wherever it is in the list. */
    method Pop(cur: int, ghost k: nat)
      requires Valid() && k < |addrs| && addrs[k] == cur
      modifies this`head, this`tail, this`nodeNum, this`pre, this`nxt, this`addrs, this`view
      ensures Valid()
      ensures addrs == RemoveAt(old(addrs), k) && cur !in addrs
      ensures view == RemoveAt(old(view), k)
    {
      RemovedLinked(head, tail, addrs, pre, nxt, k);
      RemovedValues(addrs, fields, k);
      DistinctRemoved(addrs, k);
      if cur == head {
        head := nxt[head];
        if head != NULL { pre := pre[head := NULL]; } else { tail := NULL; }
      } else if cur == tail {
        tail := pre[tail];
        nxt := nxt[tail := NULL];
      } else {
        nxt := nxt[pre[cur] := nxt[cur]];
        pre := pre[nxt[cur] := pre[cur]];
      }
      if 0 < nodeNum { nodeNum := nodeNum - 1; }
      addrs, view := RemoveAt(addrs, k), RemoveAt(view, k);
    }

    /** PushPack: link a node in behind the tail. */
    method Push(cur: int)
      requires Valid() && cur != NULL && cur in fields && cur !in addrs
      modifies this`head, this`tail, this`nodeNum, this`pre, this`nxt, this`addrs, this`view
      ensures Valid()
      ensures addrs == old(addrs) + [cur]
      ensures view == old(view) + [fields[cur]]
    {
      ForwardAppended(addrs, nxt, cur);
      nxt := nxt[cur := NULL];
      if head == NULL {
        pre := pre[cur := cur];
        head := cur;
      } else {
        nxt := nxt[tail := cur];
        pre := pre[cur := tail];
      }
      tail := cur;
      nodeNum := nodeNum + 1;
      addrs, view := addrs + [cur], view + [fields[cur]];
    }

    /** Pop a node, rewrite its fields and push it again. */
    method Requeue(cur: int, ghost k: nat, n: Node)
      requires Valid() && k < |addrs| && addrs[k] == cur
      modifies this
      ensures Valid()
      ensures addrs == RemoveAt(old(addrs), k) + [cur]
      ensures view == RemoveAt(old(view), k) + [n]
    {
      Pop(cur, k);
      Write(cur, n);
      Push(cur);
    }

    /** Forget the whole list. */
    method Reset()
      modifies this
      ensures Valid() && addrs == [] && view == []
    {
      head, tail, nodeNum := NULL, NULL, 0;
      addrs, view := [], [];
    }

    /** Write the fields of a node that is not in the list. */
    method Write(a: int, n: Node)
      requires Valid() && a !in addrs
      modifies this`fields
      ensures Valid()
      ensures fields == old(fields)[a := n]
    {
      fields := fields[a := n];
    }

    /** Write the fields of the k-th node of the list. */
    method Update(a: int, ghost k: nat, n: Node)
      requires Valid() && k < |addrs| && addrs[k] == a
      modifies this`fields, this`view
      ensures Valid() && view == old(view)[k := n]
    {
      fields := fields[a := n];
      view := view[k := n];
    }
  }
}
