/**
  The document database as the handlers see it: one collection per model,
  kept in insertion order, which the model takes as the order in which unsorted
  `find` and `findOne` return documents,
  and the generic first-match search that `findOne`, `findById` and
  `Array.prototype.find` all perform.
*/
module Store {
  import opened Wrappers

  /** Document ids (Mongo ObjectIds), user ids and socket ids, all opaque. */
  type Id = string

  datatype User = User(id: Id, name: string, email: string, isSeller: bool)

  datatype Shop = Shop(
    id: Id, owner: Id, name: string, description: string, logo: string,
    createdAt: nat, updatedAt: nat)

  datatype Product = Product(
    id: Id, shop: Id, name: string, description: string, images: seq<string>,
    category: string, price: real, stock: real, createdAt: nat, updatedAt: nat)

  datatype Conversation = Conversation(id: Id, participants: seq<Id>, createdAt: nat, updatedAt: nat)

  datatype Message = Message(
    id: Id, conversationId: Id, sender: Id, body: string, createdAt: nat, updatedAt: nat)

  /** Users are keyed by their `_id`; the other collections are kept in insertion order. */
  datatype Db = Db(
    users: map<Id, User>,
    shops: seq<Shop>,
    products: seq<Product>,
    conversations: seq<Conversation>,
    messages: seq<Message>)

  /**
    Which awaited database call of a handler throws (storage unavailable, an id
    that does not cast to an ObjectId, ...): `FailAt(k)` makes the k-th await fail.
  */
  datatype Fault = NoFault | FailAt(step: nat)

  /** The index of the first element satisfying `p`, if any. */
  function FindIndex<T>(xs: seq<T>, p: T -> bool): (r: Option<nat>)
    ensures r.Some? ==> r.value < |xs| && p(xs[r.value])
    ensures r.Some? ==> forall j :: 0 <= j < r.value ==> !p(xs[j])
    ensures r.None? <==> forall j :: 0 <= j < |xs| ==> !p(xs[j])
  {
    if |xs| == 0 then None
    else if p(xs[0]) then Some(0)
    else
      match FindIndex(xs[1..], p)
      case None => None
      case Some(k) => Some(k + 1)
  }

  /** The first element satisfying `p`, if any (`findOne`, `Array.prototype.find`). */
  function Find<T>(xs: seq<T>, p: T -> bool): (r: Option<T>)
    ensures r.Some? ==> r.value in xs && p(r.value)
    ensures r.Some? ==> exists i :: 0 <= i < |xs| && xs[i] == r.value && forall j :: 0 <= j < i ==> !p(xs[j])
    ensures r.None? <==> forall j :: 0 <= j < |xs| ==> !p(xs[j])
  {
    match FindIndex(xs, p)
    case None => None
    case Some(i) => Some(xs[i])
  }

  /** `idx` lists, in increasing order, exactly the positions of `xs` whose element satisfies `p`. */
  predicate ExactPositions<T>(idx: seq<nat>, xs: seq<T>, p: T -> bool)
  {
    && (forall i :: 0 <= i < |idx| ==> idx[i] < |xs| && p(xs[idx[i]]))
    && (forall i, j :: 0 <= i < j < |idx| ==> idx[i] < idx[j])
    && (forall j :: 0 <= j < |xs| && p(xs[j]) ==> j in idx)
  }

  /** Every position moved one place to the right. */
  function Shift(idx: seq<nat>): (r: seq<nat>)
    ensures |r| == |idx| && forall i :: 0 <= i < |idx| ==> r[i] == idx[i] + 1
  {
    seq(|idx|, i requires 0 <= i < |idx| => idx[i] + 1)
  }

  /** The positions of the elements satisfying `p`, in increasing order. */
  function Positions<T>(xs: seq<T>, p: T -> bool): (idx: seq<nat>)
    ensures ExactPositions(idx, xs, p)
  {
    if |xs| == 0 then []
    else
      var rest := Positions(xs[1..], p);
      ShiftedBounds(xs, p, rest);
      ShiftedCover(xs, p, rest);
      if p(xs[0]) then
        HeadThenShifted(xs, p, Shift(rest));
        [0] + Shift(rest)
      else
        Shift(rest)
  }

  /** The head's position before increasing matching positions that cover the rest. */
  lemma HeadThenShifted<T>(xs: seq<T>, p: T -> bool, shifted: seq<nat>)
    requires |xs| > 0 && p(xs[0])
    requires forall i :: 0 <= i < |shifted| ==> 1 <= shifted[i] < |xs| && p(xs[shifted[i]])
    requires forall i, j :: 0 <= i < j < |shifted| ==> shifted[i] < shifted[j]
    requires forall j :: 1 <= j < |xs| && p(xs[j]) ==> j in shifted
    ensures ExactPositions([0] + shifted, xs, p)
  {
    var idx := [0] + shifted;
    forall j | 1 <= j < |xs| && p(xs[j]) ensures j in idx {
      var k :| 0 <= k < |shifted| && shifted[k] == j;
      assert idx[k + 1] == j;
    }
    assert idx[0] == 0;
  }

  /** The tail's positions moved right are increasing matching positions of the whole. */
  lemma ShiftedBounds<T>(xs: seq<T>, p: T -> bool, rest: seq<nat>)
    requires |xs| > 0 && ExactPositions(rest, xs[1..], p)
    ensures forall i :: 0 <= i < |Shift(rest)| ==> 1 <= Shift(rest)[i] < |xs| && p(xs[Shift(rest)[i]])
    ensures forall i, j :: 0 <= i < j < |Shift(rest)| ==> Shift(rest)[i] < Shift(rest)[j]
  {
    var shifted := Shift(rest);
    forall i | 0 <= i < |shifted|
      ensures 1 <= shifted[i] < |xs| && p(xs[shifted[i]])
    {
      assert xs[1..][rest[i]] == xs[shifted[i]];
    }
  }

  /** The tail's positions moved right cover every matching position after the head. */
  lemma ShiftedCover<T>(xs: seq<T>, p: T -> bool, rest: seq<nat>)
    requires |xs| > 0 && ExactPositions(rest, xs[1..], p)
    ensures forall j :: 1 <= j < |xs| && p(xs[j]) ==> j in Shift(rest)
  {
    var shifted := Shift(rest);
    forall j | 1 <= j < |xs| && p(xs[j])
      ensures j in shifted
    {
      assert xs[1..][j - 1] == xs[j];
      var k :| 0 <= k < |rest| && rest[k] == j - 1;
      assert shifted[k] == j;
    }
  }

  /** `r` is made of the elements of `xs` at the positions `idx`, taken in order. */
  predicate PicksInOrder<T(==)>(r: seq<T>, xs: seq<T>, idx: seq<nat>)
  {
    && |idx| == |r|
    && (forall i :: 0 <= i < |idx| ==> idx[i] < |xs| && r[i] == xs[idx[i]])
  }

  /**
    The elements satisfying `p`, in order (`find` with a filter): each match
    once, in stored order, and nothing else.
  */
  function Filter<T(==)>(xs: seq<T>, p: T -> bool): (r: seq<T>)
    ensures PicksInOrder(r, xs, Positions(xs, p))
    ensures |r| <= |xs|
    ensures forall i :: 0 <= i < |r| ==> r[i] in xs && p(r[i])
    ensures forall j :: 0 <= j < |xs| && p(xs[j]) ==> xs[j] in r
  {
    if |xs| == 0 then []
    else
      var rest := Filter(xs[1..], p);
      var r := if p(xs[0]) then [xs[0]] + rest else rest;
      PicksCons(xs, p(xs[0]), rest, Positions(xs[1..], p));
      PicksCover(r, xs, p, Positions(xs, p));
      r
  }

  /** Picks from the tail, preceded by the head when it is taken, are picks from the whole at shifted positions. */
  lemma PicksCons<T>(xs: seq<T>, take: bool, rest: seq<T>, tail: seq<nat>)
    requires |xs| > 0 && PicksInOrder(rest, xs[1..], tail)
    ensures PicksInOrder(if take then [xs[0]] + rest else rest, xs, if take then [0] + Shift(tail) else Shift(tail))
  {
    var r := if take then [xs[0]] + rest else rest;
    var idx := if take then [0] + Shift(tail) else Shift(tail);
    var h := if take then 1 else 0;
    forall i | 0 <= i < |idx|
      ensures idx[i] < |xs| && r[i] == xs[idx[i]]
    {
      if i >= h {
        assert r[i] == rest[i - h] == xs[1..][tail[i - h]];
        assert idx[i] == tail[i - h] + 1;
      }
    }
  }

  /** Picking exactly the matching positions takes every match and nothing else. */
  lemma PicksCover<T>(r: seq<T>, xs: seq<T>, p: T -> bool, idx: seq<nat>)
    requires PicksInOrder(r, xs, idx) && ExactPositions(idx, xs, p)
    ensures |r| <= |xs|
    ensures forall i :: 0 <= i < |r| ==> r[i] in xs && p(r[i])
    ensures forall j :: 0 <= j < |xs| && p(xs[j]) ==> xs[j] in r
  {
    IncreasingBounded(idx, |xs|);
    forall j | 0 <= j < |xs| && p(xs[j])
      ensures xs[j] in r
    {
      var k :| 0 <= k < |idx| && idx[k] == j;
      assert r[k] == xs[j];
    }
  }

  /** A strictly increasing list of positions below `n` has at most `n` entries. */
  lemma {:induction false} IncreasingBounded(idx: seq<nat>, n: nat)
    requires forall i :: 0 <= i < |idx| ==> idx[i] < n
    requires forall i, j :: 0 <= i < j < |idx| ==> idx[i] < idx[j]
    ensures |idx| <= n
  {
    if |idx| > 0 {
      var last := idx[|idx| - 1];
      IncreasingBounded(idx[..|idx| - 1], last);
    }
  }

  /** `Array.prototype.find((p) => p !== self)`: the first id that differs from `self`. */
  function FirstOther(ids: seq<Id>, self: Id): (r: Option<Id>)
    ensures r.Some? ==> r.value in ids && r.value != self
    ensures r.Some? ==> exists i :: 0 <= i < |ids| && ids[i] == r.value && forall j :: 0 <= j < i ==> ids[j] == self
    ensures r.None? <==> forall j :: 0 <= j < |ids| ==> ids[j] == self
  {
    Find(ids, (p: Id) => p != self)
  }

  /** Searching a collection that has grown at the end finds the old first match if there was one. */
  lemma {:induction false} FindAppend<T>(xs: seq<T>, ys: seq<T>, p: T -> bool)
    ensures Find(xs, p).Some? ==> Find(xs + ys, p) == Find(xs, p)
    ensures Find(xs, p).None? ==> Find(xs + ys, p) == Find(ys, p)
  {
    var i := FindIndex(xs + ys, p);
    var k := FindIndex(xs, p);
    var m := FindIndex(ys, p);
    if k.Some? {
      assert (xs + ys)[k.value] == xs[k.value];
      assert i.Some? && i.value <= k.value;
      assert xs[i.value] == (xs + ys)[i.value];
    } else if m.Some? {
      assert (xs + ys)[|xs| + m.value] == ys[m.value];
      assert i.Some? && |xs| <= i.value <= |xs| + m.value;
      assert ys[i.value - |xs|] == (xs + ys)[i.value];
    } else {
      forall j | 0 <= j < |xs + ys|
        ensures !p((xs + ys)[j])
      {
        if j < |xs| {
          assert (xs + ys)[j] == xs[j];
        } else {
          assert (xs + ys)[j] == ys[j - |xs|];
        }
      }
    }
  }

  /** Two tests that agree on every element find the same first element. */
  lemma {:induction false} FindAgrees<T>(xs: seq<T>, p: T -> bool, q: T -> bool)
    requires forall i :: 0 <= i < |xs| ==> p(xs[i]) == q(xs[i])
    ensures Find(xs, p) == Find(xs, q)
  {
    var a := FindIndex(xs, p);
    var b := FindIndex(xs, q);
    if a.Some? && b.Some? {
      assert !(a.value < b.value) && !(b.value < a.value);
    }
  }

  /** The search looks at the head first and otherwise continues with the tail. */
  lemma FindCons<T>(xs: seq<T>, p: T -> bool)
    requires |xs| > 0
    ensures Find(xs, p) == if p(xs[0]) then Some(xs[0]) else Find(xs[1..], p)
  {
    if !p(xs[0]) {
      var k := FindIndex(xs[1..], p);
      if k.Some? {
        assert xs[1..][k.value] == xs[k.value + 1];
      }
    }
  }
}
