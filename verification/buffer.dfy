/**
 The reconstruction buffer: an in-memory growable byte buffer written at
 arbitrary offsets, with the semantics of a Python `BytesIO` on which
 `seek(offset)` is followed by `write(data)`.
 */
module Buffer {
  import opened Bytes

  function Max(a: int, b: int): (m: int)
    ensures m >= a && m >= b && (m == a || m == b)
  {
    if a < b then b else a
  }

  function Zeros(n: nat): (z: seq<byte>)
    ensures |z| == n && forall k :: 0 <= k < n ==> z[k] == 0
  {
    seq(n, _ => 0)
  }

  /** `after` is what a buffer holding `before` holds after seek(offset) and
      write(data): the written range holds `data`, the buffer grows just
      enough to cover it, a gap between the old end and `offset` reads as
      zero bytes, and every other byte is kept. A zero-length write changes
      nothing, even when `offset` lies past the end. */
  predicate IsWriteOf(before: seq<byte>, offset: nat, data: seq<byte>, after: seq<byte>)
  {
    && |after| == (if |data| == 0 then |before| else Max(|before|, offset + |data|))
    && (forall k :: 0 <= k < |data| ==> offset + k < |after| && after[offset + k] == data[k])
    && (forall k :: 0 <= k < |after| && !(offset <= k < offset + |data|) ==>
          after[k] == (if k < |before| then before[k] else 0))
  }

  /** The write itself. */
  function WriteAt(buf: seq<byte>, offset: nat, data: seq<byte>): (r: seq<byte>)
    ensures IsWriteOf(buf, offset, data, r)
  {
    if |data| == 0 then buf
    else
      var padded := if offset <= |buf| then buf else buf + Zeros(offset - |buf|);
      var end := offset + |data|;
      padded[..offset] + data + (if end < |padded| then padded[end..] else [])
  }

  /** The description above leaves no freedom: at most one buffer satisfies it. */
  lemma WriteIsDetermined(before: seq<byte>, offset: nat, data: seq<byte>, a: seq<byte>, b: seq<byte>)
    requires IsWriteOf(before, offset, data, a)
    requires IsWriteOf(before, offset, data, b)
    ensures a == b
  {
    forall k | 0 <= k < |a|
      ensures a[k] == b[k]
    {
      if offset <= k < offset + |data| {
        assert a[offset + (k - offset)] == data[k - offset];
      }
    }
  }

  /** Two writes whose ranges do not overlap. */
  predicate Disjoint(o1: nat, d1: seq<byte>, o2: nat, d2: seq<byte>)
  {
    |d1| == 0 || |d2| == 0 || o1 + |d1| <= o2 || o2 + |d2| <= o1
  }

  /** Writes to disjoint ranges commute, so read responses for distinct parts
      of a file may arrive in either order. */
  lemma DisjointWritesCommute(buf: seq<byte>, o1: nat, d1: seq<byte>, o2: nat, d2: seq<byte>)
    requires Disjoint(o1, d1, o2, d2)
    ensures WriteAt(WriteAt(buf, o1, d1), o2, d2) == WriteAt(WriteAt(buf, o2, d2), o1, d1)
  {
    var a := WriteAt(WriteAt(buf, o1, d1), o2, d2);
    var b := WriteAt(WriteAt(buf, o2, d2), o1, d1);
    forall k | 0 <= k < |a|
      ensures a[k] == b[k]
    {
      if o1 <= k < o1 + |d1| {
        assert a[o1 + (k - o1)] == d1[k - o1];
        assert b[o1 + (k - o1)] == d1[k - o1];
      } else if o2 <= k < o2 + |d2| {
        assert a[o2 + (k - o2)] == d2[k - o2];
        assert b[o2 + (k - o2)] == d2[k - o2];
      }
    }
  }

  /** Writing at the current end appends. */
  lemma WriteAtEndAppends(buf: seq<byte>, data: seq<byte>)
    ensures WriteAt(buf, |buf|, data) == buf + data
  {
    var r := WriteAt(buf, |buf|, data);
    forall k | 0 <= k < |r|
      ensures r[k] == (buf + data)[k]
    {
      if |buf| <= k {
        assert r[|buf| + (k - |buf|)] == data[k - |buf|];
      }
    }
  }

  /** A file read in two pieces is reconstructed whichever piece arrives first. */
  lemma TwoPiecesEitherOrder(front: seq<byte>, back: seq<byte>)
    ensures WriteAt(WriteAt([], 0, front), |front|, back) == front + back
    ensures WriteAt(WriteAt([], |front|, back), 0, front) == front + back
  {
    WriteAtEndAppends([], front);
    assert [] + front == front;
    WriteAtEndAppends(front, back);
    DisjointWritesCommute([], 0, front, |front|, back);
  }

  /** One read payload together with the file offset it was read from. */
  datatype Chunk = Chunk(offset: nat, data: seq<byte>)
  {
    function End(): nat { offset + |data| }

    predicate Covers(k: int) { offset <= k < End() }
  }

  /** The buffer after writing `ws` in order, starting from `buf`. */
  function WriteAll(buf: seq<byte>, ws: seq<Chunk>): seq<byte>
  {
    if |ws| == 0 then buf
    else
      var last := ws[|ws| - 1];
      WriteAt(WriteAll(buf, ws[..|ws| - 1]), last.offset, last.data)
  }

  /** The payloads of `ws` concatenated in order. */
  function Concat(ws: seq<Chunk>): seq<byte>
  {
    if |ws| == 0 then [] else Concat(ws[..|ws| - 1]) + ws[|ws| - 1].data
  }

  /** Each chunk of `ws` starts where the chunks before it end, the first at `start`. */
  predicate Consecutive(start: nat, ws: seq<Chunk>)
  {
    |ws| == 0 ||
      (Consecutive(start, ws[..|ws| - 1]) && ws[|ws| - 1].offset == start + |Concat(ws[..|ws| - 1])|)
  }

  /** Reading a file front to back into the buffer reconstructs it:
      consecutive chunks written in order after `buf` append their payloads. */
  lemma {:induction false} ConsecutiveWritesConcatenate(buf: seq<byte>, ws: seq<Chunk>)
    requires Consecutive(|buf|, ws)
    ensures WriteAll(buf, ws) == buf + Concat(ws)
  {
    if |ws| > 0 {
      var init := ws[..|ws| - 1];
      var last := ws[|ws| - 1];
      var prev := WriteAll(buf, init);
      ConsecutiveWritesConcatenate(buf, init);
      assert prev == buf + Concat(init);
      assert last.offset == |prev|;
      assert WriteAll(buf, ws) == WriteAt(prev, last.offset, last.data);
      WriteAtEndAppends(prev, last.data);
      assert (buf + Concat(init)) + last.data == buf + (Concat(init) + last.data);
    }
  }

  /** The payloads before position `i` followed by chunk `i` are a prefix of
      the payloads before any later position `j`. */
  lemma {:induction false} ConcatPrefixLength(ws: seq<Chunk>, i: nat, j: nat)
    requires i < j <= |ws|
    ensures |Concat(ws[..i])| + |ws[i].data| <= |Concat(ws[..j])|
    decreases j
  {
    assert ws[..j][..j - 1] == ws[..j - 1];
    if i < j - 1 {
      ConcatPrefixLength(ws, i, j - 1);
    }
  }

  /** Under `Consecutive`, each chunk starts right after the payloads before it. */
  lemma {:induction false} ConsecutiveOffset(start: nat, ws: seq<Chunk>, j: nat)
    requires Consecutive(start, ws) && j < |ws|
    ensures ws[j].offset == start + |Concat(ws[..j])|
    decreases |ws|
  {
    if j < |ws| - 1 {
      var init := ws[..|ws| - 1];
      ConsecutiveOffset(start, init, j);
      assert init[j] == ws[j];
      assert init[..j] == ws[..j];
    }
  }

  /** Every two distinct positions of `ws` hold non-overlapping chunks. */
  predicate PairwiseDisjoint(ws: seq<Chunk>)
  {
    forall i, j :: 0 <= i < j < |ws| ==>
      Disjoint(ws[i].offset, ws[i].data, ws[j].offset, ws[j].data)
  }

  /** Consecutive chunks never overlap. */
  lemma ConsecutiveIsDisjoint(start: nat, ws: seq<Chunk>)
    requires Consecutive(start, ws)
    ensures PairwiseDisjoint(ws)
  {
    forall i, j | 0 <= i < j < |ws|
      ensures Disjoint(ws[i].offset, ws[i].data, ws[j].offset, ws[j].data)
    {
      ConsecutiveOffset(start, ws, i);
      ConsecutiveOffset(start, ws, j);
      ConcatPrefixLength(ws, i, j);
    }
  }

  /** Two distinct positions of a rearrangement come from two distinct
      positions of the original. */
  lemma DistinctOrigins<T>(ws1: seq<T>, ws2: seq<T>, i: nat, j: nat) returns (p: nat, q: nat)
    requires multiset(ws1) == multiset(ws2) && i < j < |ws2|
    ensures p < |ws1| && q < |ws1| && p != q
    ensures ws1[p] == ws2[i] && ws1[q] == ws2[j]
  {
    assert ws2[i] in multiset(ws1);
    p :| 0 <= p < |ws1| && ws1[p] == ws2[i];
    if ws2[j] != ws2[i] {
      assert ws2[j] in multiset(ws1);
      q :| 0 <= q < |ws1| && ws1[q] == ws2[j];
    } else {
      var x := ws2[i];
      assert ws2 == ws2[..j] + [ws2[j]] + ws2[j + 1..];
      assert x in ws2[..j];
      assert multiset(ws2)[x] >= 2;
      assert ws1 == ws1[..p] + [ws1[p]] + ws1[p + 1..];
      assert x in multiset(ws1[..p]) || x in multiset(ws1[p + 1..]);
      if x in ws1[..p] {
        q :| 0 <= q < p && ws1[q] == x;
      } else {
        var r :| 0 <= r < |ws1[p + 1..]| && ws1[p + 1..][r] == x;
        q := p + 1 + r;
      }
    }
  }

  /** Rearranging pairwise disjoint chunks keeps them pairwise disjoint: a
      chunk with a payload overlaps itself, so it occurs at most once. */
  lemma DisjointCarriesOver(ws1: seq<Chunk>, ws2: seq<Chunk>)
    requires PairwiseDisjoint(ws1) && multiset(ws1) == multiset(ws2)
    ensures PairwiseDisjoint(ws2)
  {
    forall i, j | 0 <= i < j < |ws2|
      ensures Disjoint(ws2[i].offset, ws2[i].data, ws2[j].offset, ws2[j].data)
    {
      var p, q := DistinctOrigins(ws1, ws2, i, j);
      if p < q {
        assert Disjoint(ws1[p].offset, ws1[p].data, ws1[q].offset, ws1[q].data);
      } else {
        assert Disjoint(ws1[q].offset, ws1[q].data, ws1[p].offset, ws1[p].data);
      }
    }
  }

  /** The furthest end of a non-empty chunk of `ws`, or 0. */
  function Reach(ws: seq<Chunk>): (r: nat)
    ensures forall i :: 0 <= i < |ws| && |ws[i].data| > 0 ==> ws[i].End() <= r
    ensures r == 0 || exists i :: 0 <= i < |ws| && |ws[i].data| > 0 && ws[i].End() == r
  {
    if |ws| == 0 then 0
    else
      var init := ws[..|ws| - 1];
      var last := ws[|ws| - 1];
      var r0 := Reach(init);
      assert forall i :: 0 <= i < |init| ==> init[i] == ws[i];
      if |last.data| > 0 && r0 < last.End() then last.End() else r0
  }

  /** Some chunk of `ws` covers byte `k`. */
  predicate Covered(ws: seq<Chunk>, k: int)
  {
    exists i :: 0 <= i < |ws| && ws[i].Covers(k)
  }

  /** Writing chunks grows the buffer to the furthest end of a non-empty chunk. */
  lemma {:induction false} WriteAllLength(buf: seq<byte>, ws: seq<Chunk>)
    ensures |WriteAll(buf, ws)| == Max(|buf|, Reach(ws))
  {
    if |ws| > 0 {
      WriteAllLength(buf, ws[..|ws| - 1]);
    }
  }

  /** After writing pairwise disjoint chunks, each chunk's payload lies at its
      offset, whatever was written after it. */
  lemma {:induction false} WriteAllChunk(buf: seq<byte>, ws: seq<Chunk>, i: nat, p: nat)
    requires PairwiseDisjoint(ws)
    requires i < |ws| && ws[i].Covers(p)
    ensures p < |WriteAll(buf, ws)|
    ensures WriteAll(buf, ws)[p] == ws[i].data[p - ws[i].offset]
  {
    var init := ws[..|ws| - 1];
    var last := ws[|ws| - 1];
    var prev := WriteAll(buf, init);
    assert WriteAll(buf, ws) == WriteAt(prev, last.offset, last.data);
    if i < |ws| - 1 {
      assert init[i] == ws[i];
      assert PairwiseDisjoint(init) by {
        assert forall j :: 0 <= j < |init| ==> init[j] == ws[j];
      }
      WriteAllChunk(buf, init, i, p);
      assert Disjoint(ws[i].offset, ws[i].data, last.offset, last.data);
    } else {
      assert WriteAll(buf, ws)[last.offset + (p - last.offset)] == last.data[p - last.offset];
    }
  }

  /** After writing chunks, a byte no chunk covers still holds the initial
      buffer's byte, or zero past its end. */
  lemma {:induction false} WriteAllUncovered(buf: seq<byte>, ws: seq<Chunk>, k: nat)
    requires k < |WriteAll(buf, ws)| && !Covered(ws, k)
    ensures WriteAll(buf, ws)[k] == (if k < |buf| then buf[k] else 0)
  {
    if |ws| > 0 {
      var init := ws[..|ws| - 1];
      var last := ws[|ws| - 1];
      var prev := WriteAll(buf, init);
      assert WriteAll(buf, ws) == WriteAt(prev, last.offset, last.data);
      assert !last.Covers(k);
      assert forall i :: 0 <= i < |init| ==> init[i] == ws[i];
      assert !Covered(init, k);
      if k < |prev| {
        WriteAllUncovered(buf, init, k);
      }
      else {
        WriteAllLength(buf, init);
      }
    }
  }

  /** Reach depends only on which chunks there are, not on their order. */
  lemma ReachIgnoresOrder(ws1: seq<Chunk>, ws2: seq<Chunk>)
    requires multiset(ws1) == multiset(ws2)
    ensures Reach(ws1) == Reach(ws2)
  {
    forall c | c in ws1 ensures c in ws2 {
      assert c in multiset(ws1);
    }
    forall c | c in ws2 ensures c in ws1 {
      assert c in multiset(ws2);
    }
    var r1, r2 := Reach(ws1), Reach(ws2);
    if r1 != 0 {
      var i :| 0 <= i < |ws1| && |ws1[i].data| > 0 && ws1[i].End() == r1;
      assert ws1[i] in ws2;
    }
    if r2 != 0 {
      var i :| 0 <= i < |ws2| && |ws2[i].data| > 0 && ws2[i].End() == r2;
      assert ws2[i] in ws1;
    }
  }

  /** Chunks are the same elements in both sequences. */
  predicate SameChunks(ws1: seq<Chunk>, ws2: seq<Chunk>)
  {
    (forall c :: c in ws1 ==> c in ws2) && (forall c :: c in ws2 ==> c in ws1)
  }

  /** A byte covered by a chunk that sits at position `i` of `ws1` and at
      position `j` of `ws2` agrees after writing either sequence: it is that
      chunk's byte. */
  lemma CoveredSameByte(buf: seq<byte>, ws1: seq<Chunk>, ws2: seq<Chunk>, i: nat, j: nat, k: nat)
    requires PairwiseDisjoint(ws1) && PairwiseDisjoint(ws2)
    requires i < |ws1| && j < |ws2| && ws1[i] == ws2[j] && ws1[i].Covers(k)
    ensures k < |WriteAll(buf, ws1)| && k < |WriteAll(buf, ws2)|
    ensures WriteAll(buf, ws1)[k] == WriteAll(buf, ws2)[k]
  {
    WriteAllChunk(buf, ws1, i, k);
    WriteAllChunk(buf, ws2, j, k);
  }

  /** A byte no chunk covers agrees after writing the same chunks in two
      orders: it is the initial byte, or zero. */
  lemma UncoveredSameByte(buf: seq<byte>, ws1: seq<Chunk>, ws2: seq<Chunk>, k: nat)
    requires SameChunks(ws1, ws2)
    requires !Covered(ws1, k)
    requires k < |WriteAll(buf, ws1)| && k < |WriteAll(buf, ws2)|
    ensures WriteAll(buf, ws1)[k] == WriteAll(buf, ws2)[k]
  {
    forall j | 0 <= j < |ws2|
      ensures !ws2[j].Covers(k)
    {
      assert ws2[j] in ws1;
      var i :| 0 <= i < |ws1| && ws1[i] == ws2[j];
      assert !ws1[i].Covers(k);
    }
    WriteAllUncovered(buf, ws1, k);
    WriteAllUncovered(buf, ws2, k);
  }

  /** Arrival order does not matter: writing the same pairwise disjoint
      chunks in any order reconstructs the same buffer. */
  lemma WriteOrderIrrelevant(buf: seq<byte>, ws1: seq<Chunk>, ws2: seq<Chunk>)
    requires PairwiseDisjoint(ws1)
    requires multiset(ws1) == multiset(ws2)
    ensures WriteAll(buf, ws1) == WriteAll(buf, ws2)
  {
    DisjointCarriesOver(ws1, ws2);
    forall c | c in ws1 ensures c in ws2 {
      assert c in multiset(ws1);
    }
    forall c | c in ws2 ensures c in ws1 {
      assert c in multiset(ws2);
    }
    WriteAllLength(buf, ws1);
    WriteAllLength(buf, ws2);
    ReachIgnoresOrder(ws1, ws2);
    var a, b := WriteAll(buf, ws1), WriteAll(buf, ws2);
    forall k | 0 <= k < |a|
      ensures a[k] == b[k]
    {
      if Covered(ws1, k) {
        var i :| 0 <= i < |ws1| && ws1[i].Covers(k);
        assert ws1[i] in ws2;
        var j :| 0 <= j < |ws2| && ws2[j] == ws1[i];
        CoveredSameByte(buf, ws1, ws2, i, j, k);
      } else {
        UncoveredSameByte(buf, ws1, ws2, k);
      }
    }
  }

  /** Read responses may arrive in any order: pieces that tile a file from
      its first byte, written in any arrangement into a fresh buffer,
      rebuild the file. */
  lemma AnyArrivalOrder(ws: seq<Chunk>, arrived: seq<Chunk>)
    requires Consecutive(0, ws) && multiset(arrived) == multiset(ws)
    ensures WriteAll([], arrived) == Concat(ws)
  {
    ConsecutiveIsDisjoint(0, ws);
    WriteOrderIrrelevant([], ws, arrived);
    ConsecutiveWritesConcatenate([], ws);
    assert [] + Concat(ws) == Concat(ws);
  }
}
