/** The list of transmitted buffers that the DM9003 driver (staging/edrv/Edrv9003.c) and the WinPcap
    driver (staging/edrv/EdrvPacketCE.c) thread through the buffers themselves, by the link in each. */
module TxList {
  import opened Common

  /** First and last entry, and the links that are not null. */
  datatype List<B> = List(first: Option<B>, last: Option<B>, link: map<B, B>)

  function LinkOf<B>(l: List<B>, b: B): Option<B> {
    if b in l.link then Some(l.link[b]) else None
  }

  /** The locked part of EdrvSendTxMsg. */
  function Append<B>(l: List<B>, b: B): List<B> {
    match l.last
    case None => List(Some(b), Some(b), l.link)
    case Some(last) => List(l.first, Some(b), l.link[last := b])
  }

  /** The locked part of taking off the first entry: the links stay as they are. */
  function TakeOff<B>(l: List<B>): List<B>
    requires l.first.Some?
  {
    var next := LinkOf(l, l.first.value);
    List(next, if next == None then None else l.last, l.link)
  }

  /** The statement behind it that sets the link of a buffer to null. */
  function ClearLink<B>(l: List<B>, b: B): List<B> {
    l.(link := l.link - {b})
  }

  /** The links lead from the first to the last entry through exactly the buffers in q. */
  predicate Represents<B(==)>(l: List<B>, q: seq<B>) {
    if q == [] then l.first == None && l.last == None
    else
      && l.first == Some(q[0]) && l.last == Some(q[|q| - 1])
      && (forall i :: 0 <= i < |q| - 1 ==> LinkOf(l, q[i]) == Some(q[i + 1]))
      && q[|q| - 1] !in l.link
  }

  /** Two readings agree as long as neither ends. */
  lemma {:induction false} SameSoFar<B>(l: List<B>, q: seq<B>, m: List<B>, p: seq<B>, i: nat)
    requires i < |q| && i < |p| && q[0] == p[0]
    requires Represents(l, q) && Represents(m, p)
    requires forall j :: 0 <= j < i ==> LinkOf(l, q[j]) == LinkOf(m, q[j])
    ensures forall j :: 0 <= j <= i ==> q[j] == p[j]
    decreases i
  {
    if i > 0 {
      SameSoFar(l, q, m, p, i - 1);
      assert LinkOf(l, q[i - 1]) == Some(q[i]) && LinkOf(m, p[i - 1]) == Some(p[i]);
    }
  }

  /** The links leave no room for a second reading. */
  lemma QueueIsDetermined<B>(l: List<B>, q: seq<B>, p: seq<B>)
    requires Represents(l, q) && Represents(l, p)
    ensures q == p
  {
    if q != [] {
      var i := if |q| <= |p| then |q| - 1 else |p| - 1;
      assert i < |q| - 1 ==> LinkOf(l, q[i]) == Some(q[i + 1]);
      assert i < |p| - 1 ==> LinkOf(l, p[i]) == Some(p[i + 1]);
      SameSoFar(l, q, l, p, i);
    }
  }

  /** No buffer is in the queue twice, so following the links from the first entry ends. */
  lemma {:induction false} NoBufferTwice<B>(l: List<B>, q: seq<B>, i: nat, j: nat)
    requires Represents(l, q) && i < j < |q|
    ensures q[i] != q[j]
    decreases |q| - j
  {
    if j + 1 < |q| {
      NoBufferTwice(l, q, i + 1, j + 1);
      assert LinkOf(l, q[i]) == Some(q[i + 1]) && LinkOf(l, q[j]) == Some(q[j + 1]);
    } else {
      assert LinkOf(l, q[i]) == Some(q[i + 1]);
    }
  }

  /** Appending extends the queue if the buffer is not in it and has no link; otherwise the list
      represents nothing any more. */
  lemma AppendExactly<B>(l: List<B>, q: seq<B>, b: B, p: seq<B>)
    requires Represents(l, q)
    ensures b !in q && b !in l.link ==> Represents(Append(l, b), q + [b])
    ensures b in q || b in l.link ==> !Represents(Append(l, b), p)
  {
    if b in q {
      var i :| 0 <= i < |q| && q[i] == b;
      assert i < |q| - 1 ==> LinkOf(l, q[i]) == Some(q[i + 1]);
      assert b in Append(l, b).link;
    } else if b !in l.link && q != [] {
      var m := Append(l, b);
      forall i | 0 <= i < |q|
        ensures LinkOf(m, q[i]) == Some((q + [b])[i + 1])
      {
        if i < |q| - 1 {
          NoBufferTwice(l, q, i, |q| - 1);
        }
      }
    }
  }

  lemma TakeOffExactly<B>(l: List<B>, q: seq<B>)
    requires Represents(l, q) && q != []
    ensures Represents(TakeOff(l), q[1..]) && q[0] !in q[1..]
  {
    forall j | 0 < j < |q|
      ensures q[0] != q[j]
    {
      NoBufferTwice(l, q, 0, j);
    }
  }

  /** Clearing a link is harmless unless another buffer stands behind that buffer in the queue; then
      the list represents nothing any more. */
  lemma ClearLinkExactly<B>(l: List<B>, q: seq<B>, b: B, p: seq<B>)
    requires Represents(l, q)
    ensures b !in q || q[|q| - 1] == b ==> Represents(ClearLink(l, b), q)
    ensures b in q && q[|q| - 1] != b ==> !Represents(ClearLink(l, b), p)
  {
    var m := ClearLink(l, b);
    if b !in q || q[|q| - 1] == b {
      forall i | 0 <= i < |q| - 1
        ensures LinkOf(m, q[i]) == Some(q[i + 1])
      {
        NoBufferTwice(l, q, i, |q| - 1);
      }
    } else if Represents(m, p) {
      var i :| 0 <= i < |q| && q[i] == b;
      forall j | 0 <= j < i
        ensures LinkOf(l, q[j]) == LinkOf(m, q[j])
      {
        NoBufferTwice(l, q, j, i);
      }
      ClearedChainEnds(l, q, m, p, i);
    }
  }

  /** A chain that loses the link of entry i ends there. */
  lemma ClearedChainEnds<B>(l: List<B>, q: seq<B>, m: List<B>, p: seq<B>, i: nat)
    requires Represents(l, q) && Represents(m, p) && m.first == l.first && m.last == l.last
    requires i < |q| && q[i] !in m.link
    requires forall j :: 0 <= j < i ==> LinkOf(l, q[j]) == LinkOf(m, q[j])
    ensures q[i] == q[|q| - 1]
  {
    var k := if i < |p| then i else |p| - 1;
    assert k < |q| - 1 ==> LinkOf(l, q[k]) == Some(q[k + 1]);
    assert k < |p| - 1 ==> LinkOf(m, p[k]) == Some(p[k + 1]);
    SameSoFar(l, q, m, p, k);
  }
}
