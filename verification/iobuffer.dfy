/**
 * `IOBuffer`: a fixed-capacity segment with a read cursor `pos` and a write
 * cursor `limit`, and the intrusive ring primitives `push` and `pop`.
 *
 * The byte content of a segment is modelled by the `Segment` datatype.  The
 * `previous`/`next` links are modelled separately, over an arena: segment
 * number `i` has links `a[i]`, and a link is the number of the segment it
 * points to (`None` for `null`).  The stream wrappers keep their rings as
 * head-first sequences of segments; the bridge lemmas at the end show that
 * the only two ring operations they perform (push after the tail, pop the
 * head) are exactly "append" and "drop the first" on that sequence.
 */
module IOBuffer {
  import opened Bytes
  import opened Wrappers

  /** Capacity of every segment, in bytes. */
  const BUFFER_SIZE: nat := 2048

  /** A segment; its unconsumed bytes are `data[pos..limit]`. */
  datatype Segment = Segment(data: seq<byte>, pos: nat, limit: nat) {

    /** `data` has exactly BUFFER_SIZE bytes and the cursors are ordered within it. */
    predicate Valid() {
      |data| == BUFFER_SIZE && pos <= limit <= BUFFER_SIZE
    }

    /** Number of bytes between the cursors, `limit - pos`. */
    function Count(): nat
      requires Valid()
    {
      limit - pos
    }

    /** The bytes between the cursors. */
    function Readable(): (r: seq<byte>)
      requires Valid()
      ensures |r| == Count()
    {
      data[pos..limit]
    }
  }

  /** A segment as `new IOBuffer()` creates it: zeroed data, both cursors 0. */
  function NewSegment(): (s: Segment)
    ensures s.Valid() && s.pos == 0 && s.limit == 0
  {
    Segment(seq(BUFFER_SIZE, _ => 0), 0, 0)
  }

  /** `System.arraycopy` of `bytes` into the segment's data at offset `at`; cursors untouched. */
  function CopyInto(s: Segment, at: nat, bytes: seq<byte>): (r: Segment)
    requires s.Valid() && at + |bytes| <= BUFFER_SIZE
    ensures r.Valid() && r.pos == s.pos && r.limit == s.limit
    ensures r.data[at..at + |bytes|] == bytes
    ensures r.data[..at] == s.data[..at]
    ensures r.data[at + |bytes|..] == s.data[at + |bytes|..]
  {
    s.(data := s.data[..at] + bytes + s.data[at + |bytes|..])
  }

  /**
   * Copying `bytes` in at the write cursor and advancing it past them: the
   * segment's content grows by exactly `bytes`.
   */
  function Append(s: Segment, bytes: seq<byte>): (r: Segment)
    requires s.Valid() && s.limit + |bytes| <= BUFFER_SIZE
    ensures r.Valid() && r.pos == s.pos && r.limit == s.limit + |bytes|
    ensures r.Readable() == s.Readable() + bytes
  {
    var c := CopyInto(s, s.limit, bytes);
    assert c.data[s.pos..s.limit] == c.data[..s.limit][s.pos..];
    assert s.data[s.pos..s.limit] == s.data[..s.limit][s.pos..];
    assert c.data[s.pos..s.limit + |bytes|] == c.data[s.pos..s.limit] + c.data[s.limit..s.limit + |bytes|];
    c.(limit := s.limit + |bytes|)
  }

  // -----------------------------------------------------------------------
  // Links and the ring primitives.
  // -----------------------------------------------------------------------

  /** The `previous`/`next` fields of one segment. */
  datatype Links = Links(previous: Option<nat>, next: Option<nat>)

  /** Both links `null`: the state `pop` leaves a segment in. */
  const Unlinked: Links := Links(None, None)

  /** Position after `i` in a cycle of `n` positions. */
  function Succ(n: nat, i: nat): nat
    requires i < n
  {
    if i + 1 < n then i + 1 else 0
  }

  /** Position before `i` in a cycle of `n` positions. */
  function Pred(n: nat, i: nat): nat
    requires i < n
  {
    if i > 0 then i - 1 else n - 1
  }

  /**
   * `order` lists the members of a valid ring in `next` order: members are
   * distinct segments of the arena, following `next` from any member visits
   * every member once and comes back, and `previous` is the inverse of `next`.
   */
  ghost predicate IsRing(a: seq<Links>, order: seq<nat>) {
    && |order| > 0
    && (forall i | 0 <= i < |order| :: order[i] < |a|)
    && (forall i, j | 0 <= i < j < |order| :: order[i] != order[j])
    && (forall i {:trigger a[order[i]]} | 0 <= i < |order| :: a[order[i]].next == Some(order[Succ(|order|, i)]))
    && (forall i {:trigger a[order[i]]} | 0 <= i < |order| :: a[order[i]].previous == Some(order[Pred(|order|, i)]))
  }

  /** Result of a ring primitive: the updated links and the segment returned. */
  datatype Relinked = Relinked(links: seq<Links>, result: Option<nat>)

  /**
   * `t.push(b)`: links `b` in right after `t` and returns `b`.  The four
   * field writes happen in the source's order, so the model is exact even
   * when `b` aliases `t` or its successor.
   */
  function Push(a: seq<Links>, t: nat, b: nat): (r: Relinked)
    requires t < |a| && b < |a|
    requires a[t].next.Some? && a[t].next.value < |a|
    ensures |r.links| == |a|
  {
    var n := a[t].next.value;
    var a1 := a[b := Links(Some(t), Some(n))];          // buffer.previous = this; buffer.next = next
    var a2 := a1[n := a1[n].(previous := Some(b))];     // next.previous = buffer
    var a3 := a2[t := a2[t].(next := Some(b))];         // next = buffer
    Relinked(a3, Some(b))
  }

  /**
   * `t.pop()`: unlinks `t` by joining its neighbours, clears both of its
   * links and returns its old successor, or `None` when `t` was alone.
   */
  function Pop(a: seq<Links>, t: nat): (r: Relinked)
    requires t < |a|
    requires a[t].previous.Some? && a[t].previous.value < |a|
    requires a[t].next.Some? && a[t].next.value < |a|
    ensures |r.links| == |a|
  {
    var p := a[t].previous.value;
    var n := a[t].next.value;
    var result := if n != t then Some(n) else None;
    var a1 := a[p := a[p].(next := Some(n))];           // previous.next = next
    var a2 := a1[n := a1[n].(previous := Some(p))];     // next.previous = previous
    Relinked(a2[t := Unlinked], result)                 // next = null; previous = null
  }

  /** A lone segment linked to itself is a ring of one (`head.next = head.previous = head`). */
  lemma SingletonIsRing(a: seq<Links>, h: nat)
    requires h < |a|
    ensures IsRing(a[h := Links(Some(h), Some(h))], [h])
  {
  }

  /** `order` with `b` inserted right after position `k`. */
  function InsertAfter(order: seq<nat>, k: nat, b: nat): (o: seq<nat>)
    requires k < |order|
    ensures |o| == |order| + 1
    ensures forall i {:trigger o[i]} | 0 <= i <= k :: o[i] == order[i]
    ensures o[k + 1] == b
    ensures forall i | k + 1 < i < |o| :: o[i] == order[i - 1]
  {
    order[..k + 1] + [b] + order[k + 1..]
  }

  /** The links `push` changes, and that it changes no others. */
  lemma PushLinks(a: seq<Links>, t: nat, b: nat)
    requires t < |a| && b < |a| && b != t
    requires a[t].next.Some? && a[t].next.value < |a| && a[t].next.value != b
    ensures var n := a[t].next.value;
      var a' := Push(a, t, b).links;
      && a'[b] == Links(Some(t), Some(n))
      && a'[t].next == Some(b)
      && a'[t].previous == (if n == t then Some(b) else a[t].previous)
      && a'[n].previous == Some(b)
      && a'[n].next == (if n == t then Some(b) else a[n].next)
      && forall x | 0 <= x < |a| && x != t && x != n && x != b :: a'[x] == a[x]
  {
  }

  /**
   * On a valid ring, `push` inserts the new segment right after `t`,
   * returns it, and leaves every segment outside the ring alone.
   */
  lemma PushKeepsRing(a: seq<Links>, order: seq<nat>, k: nat, b: nat)
    requires IsRing(a, order) && k < |order|
    requires b < |a| && b !in order
    ensures Push(a, order[k], b).result == Some(b)
    ensures IsRing(Push(a, order[k], b).links, InsertAfter(order, k, b))
    ensures forall x | 0 <= x < |a| && x !in order && x != b :: Push(a, order[k], b).links[x] == a[x]
  {
    var t := order[k];
    var m := |order|;
    var n := order[Succ(m, k)];
    var a' := Push(a, t, b).links;
    var o' := InsertAfter(order, k, b);
    PushLinks(a, t, b);
    InsertAfterMembers(order, k, b, |a'|);
    InsertAfterDistinct(order, k, b);
    PushNexts(a, order, k, b);
    PushPreviouses(a, order, k, b);
  }

  /** Inserting an arena index into a list of arena indices gives a list of arena indices. */
  lemma InsertAfterMembers(order: seq<nat>, k: nat, b: nat, size: nat)
    requires k < |order| && b < size
    requires forall i | 0 <= i < |order| :: order[i] < size
    ensures var o' := InsertAfter(order, k, b);
      forall i | 0 <= i < |o'| :: o'[i] < size
  {
    var o' := InsertAfter(order, k, b);
    forall i | 0 <= i < |o'|
      ensures o'[i] < size
    {
      if i > k + 1 {
        assert o'[i] == order[i - 1];
      }
    }
  }

  /** Inserting a segment that is not yet a member keeps the members distinct. */
  lemma InsertAfterDistinct(order: seq<nat>, k: nat, b: nat)
    requires k < |order| && b !in order
    requires forall i, j | 0 <= i < j < |order| :: order[i] != order[j]
    ensures var o' := InsertAfter(order, k, b);
      forall i, j | 0 <= i < j < |o'| :: o'[i] != o'[j]
  {
    var o' := InsertAfter(order, k, b);
    forall i, j | 0 <= i < j < |o'|
      ensures o'[i] != o'[j]
    {
      if i <= k && j > k + 1 {
        assert o'[j] == order[j - 1];
      } else if i > k + 1 {
        assert o'[i] == order[i - 1] && o'[j] == order[j - 1];
      }
    }
  }

  /** After `push`, every member's `next` is its successor in the new order. */
  lemma PushNexts(a: seq<Links>, order: seq<nat>, k: nat, b: nat)
    requires IsRing(a, order) && k < |order|
    requires b < |a| && b !in order
    ensures var o' := InsertAfter(order, k, b);
      forall i {:trigger Push(a, order[k], b).links[o'[i]]} | 0 <= i < |o'| :: Push(a, order[k], b).links[o'[i]].next == Some(o'[Succ(|o'|, i)])
  {
    var o' := InsertAfter(order, k, b);
    forall i {:trigger Push(a, order[k], b).links[o'[i]]} | 0 <= i < |o'|
      ensures Push(a, order[k], b).links[o'[i]].next == Some(o'[Succ(|o'|, i)])
    {
      PushNextAt(a, order, k, b, i);
    }
  }

  /** `PushNexts` at position `i` of the new order. */
  lemma PushNextAt(a: seq<Links>, order: seq<nat>, k: nat, b: nat, i: nat)
    requires IsRing(a, order) && k < |order|
    requires b < |a| && b !in order && i <= |order|
    ensures var o' := InsertAfter(order, k, b);
      Push(a, order[k], b).links[o'[i]].next == Some(o'[Succ(|o'|, i)])
  {
    PushLinks(a, order[k], b);
    if i < k {
      PushNextBefore(a, order, k, b, i);
    } else if i == k {
    } else if i == k + 1 {
    } else {
      PushNextAfter(a, order, k, b, i);
    }
  }

  /** A member before the insertion point keeps its `next` link. */
  lemma PushNextBefore(a: seq<Links>, order: seq<nat>, k: nat, b: nat, i: nat)
    requires IsRing(a, order) && k < |order|
    requires b < |a| && b !in order && i < k
    ensures var o' := InsertAfter(order, k, b);
      Push(a, order[k], b).links[o'[i]].next == Some(o'[Succ(|o'|, i)])
  {
    var m := |order|;
    PushLinks(a, order[k], b);
    assert order[i] != order[k];
    if Succ(m, i) == Succ(m, k) {
      assert false;
    }
  }

  /** A member after the inserted one keeps its `next` link. */
  lemma PushNextAfter(a: seq<Links>, order: seq<nat>, k: nat, b: nat, i: nat)
    requires IsRing(a, order) && k < |order|
    requires b < |a| && b !in order && k + 1 < i <= |order|
    ensures var o' := InsertAfter(order, k, b);
      Push(a, order[k], b).links[o'[i]].next == Some(o'[Succ(|o'|, i)])
  {
    var m := |order|;
    PushLinks(a, order[k], b);
    assert order[i - 1] != order[k];
    if i - 1 != Succ(m, k) {
      assert order[i - 1] != order[Succ(m, k)];
    }
  }

  /** After `push`, every member's `previous` is its predecessor in the new order. */
  lemma PushPreviouses(a: seq<Links>, order: seq<nat>, k: nat, b: nat)
    requires IsRing(a, order) && k < |order|
    requires b < |a| && b !in order
    ensures var o' := InsertAfter(order, k, b);
      forall i {:trigger Push(a, order[k], b).links[o'[i]]} | 0 <= i < |o'| :: Push(a, order[k], b).links[o'[i]].previous == Some(o'[Pred(|o'|, i)])
  {
    var o' := InsertAfter(order, k, b);
    forall i {:trigger Push(a, order[k], b).links[o'[i]]} | 0 <= i < |o'|
      ensures Push(a, order[k], b).links[o'[i]].previous == Some(o'[Pred(|o'|, i)])
    {
      if i == 0 {
        PushPreviousFirst(a, order, k, b);
      } else {
        PushPreviousAt(a, order, k, b, i);
      }
    }
  }

  /** `PushPreviouses` at the first position, whose predecessor wraps around to the last. */
  lemma PushPreviousFirst(a: seq<Links>, order: seq<nat>, k: nat, b: nat)
    requires IsRing(a, order) && k < |order|
    requires b < |a| && b !in order
    ensures var o' := InsertAfter(order, k, b);
      Push(a, order[k], b).links[o'[0]].previous == Some(o'[Pred(|o'|, 0)])
  {
    var t := order[k];
    var m := |order|;
    var n := order[Succ(m, k)];
    var a' := Push(a, t, b).links;
    var o' := InsertAfter(order, k, b);
    PushLinks(a, t, b);
    assert Pred(|o'|, 0) == m;
    if k + 1 < m {
      assert Succ(m, k) == k + 1 && order[0] != n;
      assert o'[m] == order[m - 1];
      assert a[order[0]].previous == Some(order[m - 1]);
      if k == 0 {
        assert a'[t].previous == a[t].previous;
      } else {
        assert a'[order[0]] == a[order[0]];
      }
    } else {
      assert o'[m] == b && n == order[0];
    }
  }

  /** `PushPreviouses` at a position other than the first. */
  lemma PushPreviousAt(a: seq<Links>, order: seq<nat>, k: nat, b: nat, i: nat)
    requires IsRing(a, order) && k < |order|
    requires b < |a| && b !in order && 0 < i <= |order|
    ensures var o' := InsertAfter(order, k, b);
      Push(a, order[k], b).links[o'[i]].previous == Some(o'[Pred(|o'|, i)])
  {
    var t := order[k];
    var m := |order|;
    var n := order[Succ(m, k)];
    var a' := Push(a, t, b).links;
    var o' := InsertAfter(order, k, b);
    PushLinks(a, t, b);
    if i <= k {
      assert Pred(|o'|, i) == i - 1 && Pred(m, i) == i - 1;
      assert order[i] != n && order[i] != b;
      if i == k {
        assert a'[t].previous == a[t].previous;
      } else {
        assert a'[order[i]] == a[order[i]];
      }
    } else if i == k + 1 {
    } else if i == k + 2 {
      assert o'[i] == order[k + 1] == n;
    } else {
      assert o'[i] == order[i - 1] && o'[i - 1] == order[i - 2];
      assert Pred(m, i - 1) == i - 2;
      assert order[i - 1] != n && order[i - 1] != t && order[i - 1] != b;
      assert a'[order[i - 1]] == a[order[i - 1]];
    }
  }

  /** `order` without position `k`. */
  function RemoveAt(order: seq<nat>, k: nat): (o: seq<nat>)
    requires k < |order|
    ensures |o| == |order| - 1
    ensures forall i {:trigger o[i]} | 0 <= i < k :: o[i] == order[i]
    ensures forall i | k <= i < |o| :: o[i] == order[i + 1]
  {
    order[..k] + order[k + 1..]
  }

  /** Removing a position keeps the members distinct. */
  lemma RemoveAtDistinct(order: seq<nat>, k: nat)
    requires k < |order|
    requires forall i, j | 0 <= i < j < |order| :: order[i] != order[j]
    ensures var o' := RemoveAt(order, k);
      forall i, j | 0 <= i < j < |o'| :: o'[i] != o'[j]
  {
    var o' := RemoveAt(order, k);
    forall i, j | 0 <= i < j < |o'|
      ensures o'[i] != o'[j]
    {
      var i' := if i < k then i else i + 1;
      var j' := if j < k then j else j + 1;
      assert o'[i] == order[i'] && o'[j] == order[j'] && i' < j';
    }
  }

  /** The links `pop` changes, and that it changes no others. */
  lemma PopLinks(a: seq<Links>, t: nat)
    requires t < |a|
    requires a[t].previous.Some? && a[t].previous.value < |a|
    requires a[t].next.Some? && a[t].next.value < |a|
    ensures var p := a[t].previous.value;
      var n := a[t].next.value;
      var a' := Pop(a, t).links;
      && a'[t] == Unlinked
      && (p != t ==> a'[p].next == Some(n))
      && (p != t ==> a'[p].previous == (if p == n then Some(p) else a[p].previous))
      && (n != t ==> a'[n].previous == Some(p))
      && (n != t ==> a'[n].next == (if n == p then Some(n) else a[n].next))
      && forall x | 0 <= x < |a| && x != t && x != p && x != n :: a'[x] == a[x]
  {
  }

  /**
   * On a valid ring, `pop` removes `t`, joins its neighbours so that the
   * rest of the ring keeps its order, clears both links of `t`, and returns
   * the old successor of `t` (`None` when `t` was the only member).
   */
  lemma PopKeepsRing(a: seq<Links>, order: seq<nat>, k: nat)
    requires IsRing(a, order) && k < |order|
    ensures Pop(a, order[k]).links[order[k]] == Unlinked
    ensures |order| == 1 ==> Pop(a, order[k]).result == None
    ensures |order| > 1 ==> Pop(a, order[k]).result == Some(order[Succ(|order|, k)])
    ensures |order| > 1 ==> IsRing(Pop(a, order[k]).links, RemoveAt(order, k))
    ensures forall x | 0 <= x < |a| && x !in order :: Pop(a, order[k]).links[x] == a[x]
  {
    var m := |order|;
    var t := order[k];
    var a' := Pop(a, t).links;
    PopLinks(a, t);
    if m > 1 {
      assert order[Succ(m, k)] != t;
      RemoveAtDistinct(order, k);
      PopNexts(a, order, k);
      PopPreviouses(a, order, k);
    }
  }

  /** After `pop`, every remaining member's `next` is its successor in the new order. */
  lemma PopNexts(a: seq<Links>, order: seq<nat>, k: nat)
    requires IsRing(a, order) && k < |order| && |order| > 1
    ensures var o' := RemoveAt(order, k);
      forall i {:trigger Pop(a, order[k]).links[o'[i]]} | 0 <= i < |o'| :: Pop(a, order[k]).links[o'[i]].next == Some(o'[Succ(|o'|, i)])
  {
    var o' := RemoveAt(order, k);
    forall i {:trigger Pop(a, order[k]).links[o'[i]]} | 0 <= i < |o'|
      ensures Pop(a, order[k]).links[o'[i]].next == Some(o'[Succ(|o'|, i)])
    {
      PopNextAt(a, order, k, i);
    }
  }

  /** `PopNexts` at position `i` of the new order. */
  lemma PopNextAt(a: seq<Links>, order: seq<nat>, k: nat, i: nat)
    requires IsRing(a, order) && k < |order| && |order| > 1 && i < |order| - 1
    ensures var o' := RemoveAt(order, k);
      Pop(a, order[k]).links[o'[i]].next == Some(o'[Succ(|o'|, i)])
  {
    var j := if i < k then i else i + 1;   // position of o'[i] in order
    if j == Pred(|order|, k) {
      PopNextJoined(a, order, k, i);
    } else {
      PopNextKept(a, order, k, i);
    }
  }

  /** The old predecessor of the popped segment now points on to its old successor. */
  lemma PopNextJoined(a: seq<Links>, order: seq<nat>, k: nat, i: nat)
    requires IsRing(a, order) && k < |order| && |order| > 1 && i < |order| - 1
    requires (if i < k then i else i + 1) == Pred(|order|, k)
    ensures var o' := RemoveAt(order, k);
      Pop(a, order[k]).links[o'[i]].next == Some(o'[Succ(|o'|, i)])
  {
    var m := |order|;
    assert order[Pred(m, k)] != order[k];
    PopLinks(a, order[k]);
    RemoveAtJoinedNext(order, k, i);
  }

  /** Any other remaining member keeps its `next` link. */
  lemma PopNextKept(a: seq<Links>, order: seq<nat>, k: nat, i: nat)
    requires IsRing(a, order) && k < |order| && |order| > 1 && i < |order| - 1
    requires (if i < k then i else i + 1) != Pred(|order|, k)
    ensures var o' := RemoveAt(order, k);
      Pop(a, order[k]).links[o'[i]].next == Some(o'[Succ(|o'|, i)])
  {
    var m := |order|;
    var t := order[k];
    var p := order[Pred(m, k)];
    var o' := RemoveAt(order, k);
    var j := if i < k then i else i + 1;
    PopLinks(a, t);
    assert o'[i] == order[j] && j != k;
    assert order[j] != p && order[j] != t;
    assert Succ(m, j) != k;
    assert o'[Succ(|o'|, i)] == order[Succ(m, j)];
  }

  /** After `pop`, every remaining member's `previous` is its predecessor in the new order. */
  lemma PopPreviouses(a: seq<Links>, order: seq<nat>, k: nat)
    requires IsRing(a, order) && k < |order| && |order| > 1
    ensures var o' := RemoveAt(order, k);
      forall i {:trigger Pop(a, order[k]).links[o'[i]]} | 0 <= i < |o'| :: Pop(a, order[k]).links[o'[i]].previous == Some(o'[Pred(|o'|, i)])
  {
    var o' := RemoveAt(order, k);
    forall i {:trigger Pop(a, order[k]).links[o'[i]]} | 0 <= i < |o'|
      ensures Pop(a, order[k]).links[o'[i]].previous == Some(o'[Pred(|o'|, i)])
    {
      PopPreviousAt(a, order, k, i);
    }
  }

  /** `PopPreviouses` at position `i` of the new order. */
  lemma PopPreviousAt(a: seq<Links>, order: seq<nat>, k: nat, i: nat)
    requires IsRing(a, order) && k < |order| && |order| > 1 && i < |order| - 1
    ensures var o' := RemoveAt(order, k);
      Pop(a, order[k]).links[o'[i]].previous == Some(o'[Pred(|o'|, i)])
  {
    var j := if i < k then i else i + 1;   // position of o'[i] in order
    if j == Succ(|order|, k) {
      PopPreviousJoined(a, order, k, i);
    } else {
      PopPreviousKept(a, order, k, i);
    }
  }

  /** The old successor of the popped segment now points back to its old predecessor. */
  lemma PopPreviousJoined(a: seq<Links>, order: seq<nat>, k: nat, i: nat)
    requires IsRing(a, order) && k < |order| && |order| > 1 && i < |order| - 1
    requires (if i < k then i else i + 1) == Succ(|order|, k)
    ensures var o' := RemoveAt(order, k);
      Pop(a, order[k]).links[o'[i]].previous == Some(o'[Pred(|o'|, i)])
  {
    var m := |order|;
    assert order[Succ(m, k)] != order[k];
    PopLinks(a, order[k]);
    RemoveAtJoined(order, k, i);
  }

  /** Index arithmetic: where the neighbours of the removed position land in `RemoveAt(order, k)`. */
  lemma RemoveAtJoined(order: seq<nat>, k: nat, i: nat)
    requires k < |order| && |order| > 1 && i < |order| - 1
    requires (if i < k then i else i + 1) == Succ(|order|, k)
    ensures RemoveAt(order, k)[i] == order[Succ(|order|, k)]
    ensures RemoveAt(order, k)[Pred(|order| - 1, i)] == order[Pred(|order|, k)]
  {
  }

  /** Index arithmetic: where the neighbours of the removed position land, seen from its predecessor. */
  lemma RemoveAtJoinedNext(order: seq<nat>, k: nat, i: nat)
    requires k < |order| && |order| > 1 && i < |order| - 1
    requires (if i < k then i else i + 1) == Pred(|order|, k)
    ensures RemoveAt(order, k)[i] == order[Pred(|order|, k)]
    ensures RemoveAt(order, k)[Succ(|order| - 1, i)] == order[Succ(|order|, k)]
  {
  }

  /** Any other remaining member keeps its `previous` link. */
  lemma PopPreviousKept(a: seq<Links>, order: seq<nat>, k: nat, i: nat)
    requires IsRing(a, order) && k < |order| && |order| > 1 && i < |order| - 1
    requires (if i < k then i else i + 1) != Succ(|order|, k)
    ensures var o' := RemoveAt(order, k);
      Pop(a, order[k]).links[o'[i]].previous == Some(o'[Pred(|o'|, i)])
  {
    var m := |order|;
    var t := order[k];
    var p := order[Pred(m, k)];
    var n := order[Succ(m, k)];
    var a' := Pop(a, t).links;
    var j := if i < k then i else i + 1;
    PopLinks(a, t);
    assert RemoveAt(order, k)[i] == order[j] && j != k;
    assert order[j] != n && order[j] != t;
    assert Pred(m, j) != k;
    RemoveAtPred(order, k, i);
    if order[j] == p {
      assert a'[p].previous == a[p].previous;
    } else {
      assert a'[order[j]] == a[order[j]];
    }
  }

  /** Index arithmetic: the member before position `i` of `RemoveAt(order, k)`, when it is not the removed one. */
  lemma RemoveAtPred(order: seq<nat>, k: nat, i: nat)
    requires k < |order| && i < |order| - 1
    requires var j := if i < k then i else i + 1; Pred(|order|, j) != k
    ensures var j := if i < k then i else i + 1;
      RemoveAt(order, k)[Pred(|order| - 1, i)] == order[Pred(|order|, j)]
  {
  }

  /** Popping a segment that was just pushed restores the original links exactly. */
  lemma PushThenPop(a: seq<Links>, order: seq<nat>, k: nat, b: nat)
    requires IsRing(a, order) && k < |order|
    requires b < |a| && b !in order && a[b] == Unlinked
    ensures Pop(Push(a, order[k], b).links, b) == Relinked(a, Some(order[Succ(|order|, k)]))
  {
    var t := order[k];
    var n := order[Succ(|order|, k)];
    var a' := Push(a, t, b).links;
    PushLinks(a, t, b);
    PopLinks(a', b);
    var a'' := Pop(a', b).links;
    forall x | 0 <= x < |a|
      ensures a''[x] == a[x]
    {
      if x == t && t == n {
        assert a[t] == Links(Some(t), Some(t));
      }
    }
  }

  // -----------------------------------------------------------------------
  // Bridge to the head-first sequences used by the stream wrappers.
  // -----------------------------------------------------------------------

  /**
   * `getBuffer` pushes after `head.previous`, which is the tail; on the
   * head-first member list that is an append.
   */
  lemma PushAfterTailAppends(a: seq<Links>, order: seq<nat>, b: nat)
    requires IsRing(a, order) && b < |a| && b !in order
    ensures a[order[0]].previous == Some(order[|order| - 1])
    ensures IsRing(Push(a, order[|order| - 1], b).links, order + [b])
  {
    PushKeepsRing(a, order, |order| - 1, b);
    assert InsertAfter(order, |order| - 1, b) == order + [b];
  }

  /**
   * `recycleBufferIfNecessary` pops the head and makes the result the new
   * head; on the head-first member list that drops the first element.
   */
  lemma PopHeadDropsFirst(a: seq<Links>, order: seq<nat>)
    requires IsRing(a, order)
    ensures |order| == 1 ==> Pop(a, order[0]).result == None
    ensures |order| > 1 ==> Pop(a, order[0]).result == Some(order[1])
    ensures |order| > 1 ==> IsRing(Pop(a, order[0]).links, order[1..])
  {
    PopKeepsRing(a, order, 0);
    assert RemoveAt(order, 0) == order[1..];
  }
}
