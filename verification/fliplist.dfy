/** The flip list of the BACKFLIP decoders (fl_t in src/decoder.c): a doubly
    linked list threaded through two arrays indexed by position k * L + j,
    with -1 as the null link, plus each entry's time of death `tod`. */
module FlipList {

  datatype FlipList = FlipList(first: int, next: seq<int>, prev: seq<int>, tod: seq<int>, length: int)

  ghost predicate Distinct(s: seq<int>)
  {
    forall a, b :: 0 <= a < b < |s| ==> s[a] != s[b]
  }

  /** The list holds exactly the positions of `order`, front to back, over
      arrays of n entries, and `length` counts them. */
  ghost predicate Linked(fl: FlipList, order: seq<int>, n: nat)
  {
    |fl.next| == n && |fl.prev| == n && |fl.tod| == n
    && Distinct(order) && (forall i :: 0 <= i < |order| ==> 0 <= order[i] < n)
    && fl.length == |order|
    && fl.first == (if |order| == 0 then -1 else order[0])
    && (forall i :: 0 <= i < |order| ==> fl.next[order[i]] == if i + 1 < |order| then order[i + 1] else -1)
    && (forall i :: 0 <= i < |order| ==> fl.prev[order[i]] == if i > 0 then order[i - 1] else -1)
  }

  /** The links around the i-th listed position. */
  lemma LinkedAt(fl: FlipList, order: seq<int>, n: nat, i: nat)
    requires Linked(fl, order, n) && i < |order|
    ensures 0 <= order[i] < n
    ensures fl.next[order[i]] == if i + 1 < |order| then order[i + 1] else -1
    ensures fl.prev[order[i]] == if i > 0 then order[i - 1] else -1
  {
  }

  /** The list part of reset_decoder: empty, arrays left as they are. */
  function Reset(fl: FlipList): (r: FlipList)
    ensures r.next == fl.next && r.prev == fl.prev && r.tod == fl.tod
  {
    fl.(first := -1, length := 0)
  }

  lemma ResetLinked(fl: FlipList, n: nat)
    requires |fl.next| == n && |fl.prev| == n && |fl.tod| == n
    ensures Linked(Reset(fl), [], n)
  {
  }

  /** fl_add: push pos at the front. */
  function Add(fl: FlipList, pos: int): (r: FlipList)
    requires 0 <= pos < |fl.next| && |fl.prev| == |fl.next|
    requires fl.first == -1 || 0 <= fl.first < |fl.prev|
    ensures |r.next| == |fl.next| && |r.prev| == |fl.prev| && r.tod == fl.tod
  {
    var prev := fl.prev[pos := -1];
    FlipList(pos, fl.next[pos := fl.first], if fl.first != -1 then prev[fl.first := pos] else prev,
             fl.tod, fl.length + 1)
  }

  /** Adding a position not yet listed puts it in front of the others. */
  lemma AddLinked(fl: FlipList, order: seq<int>, n: nat, pos: int)
    requires Linked(fl, order, n) && 0 <= pos < n && pos !in order
    ensures Linked(Add(fl, pos), [pos] + order, n)
  {
    var r := Add(fl, pos);
    var o := [pos] + order;
    forall a, b | 0 <= a < b < |o| ensures o[a] != o[b] {
      if a == 0 {
        assert o[b] == order[b - 1];
      } else {
        assert o[a] == order[a - 1] && o[b] == order[b - 1];
      }
    }
    forall i | 0 <= i < |o|
      ensures r.next[o[i]] == (if i + 1 < |o| then o[i + 1] else -1)
      ensures r.prev[o[i]] == (if i > 0 then o[i - 1] else -1)
    {
      if i > 0 {
        var x := order[i - 1];
        assert o[i] == x && x != pos;
        LinkedAt(fl, order, n, i - 1);
        if i == 1 {
          assert fl.first == x;
        } else {
          assert fl.first == order[0] != x;
        }
      }
    }
    assert forall i :: 0 <= i < |o| ==> r.next[o[i]] == if i + 1 < |o| then o[i + 1] else -1;
    assert r.length == |o|;
    assert r.first == o[0];
    assert Linked(r, o, n);
  }

  /** fl_remove: unlink pos; its own next and prev entries are left as they
      were. */
  function Remove(fl: FlipList, pos: int): (r: FlipList)
    requires 0 <= pos < |fl.next| && |fl.prev| == |fl.next|
    requires -1 <= fl.next[pos] < |fl.prev| && -1 <= fl.prev[pos] < |fl.next|
    ensures |r.next| == |fl.next| && |r.prev| == |fl.prev| && r.tod == fl.tod
  {
    var next := fl.next[pos];
    var prev := fl.prev[pos];
    FlipList(if prev != -1 then fl.first else next,
             if prev != -1 then fl.next[prev := next] else fl.next,
             if next != -1 then fl.prev[next := prev] else fl.prev,
             fl.tod, fl.length - 1)
  }

  /** Removing the i-th listed position leaves the others in order, and the
      removed node still points at its old successor, which is what lets the
      retraction sweep continue from a node it has just removed. */
  lemma RemoveLinked(fl: FlipList, order: seq<int>, n: nat, i: nat)
    requires Linked(fl, order, n) && i < |order|
    ensures -1 <= fl.next[order[i]] < n && -1 <= fl.prev[order[i]] < n
    ensures Linked(Remove(fl, order[i]), order[..i] + order[i + 1..], n)
    ensures Remove(fl, order[i]).next[order[i]] == fl.next[order[i]]
  {
    var pos := order[i];
    LinkedAt(fl, order, n, i);
    var r := Remove(fl, pos);
    var o := order[..i] + order[i + 1..];
    assert forall m :: 0 <= m < |o| ==> o[m] == if m < i then order[m] else order[m + 1];
    forall a, b | 0 <= a < b < |o| ensures o[a] != o[b] {
    }
    forall m | 0 <= m < |o|
      ensures 0 <= o[m] < n
      ensures r.next[o[m]] == (if m + 1 < |o| then o[m + 1] else -1)
      ensures r.prev[o[m]] == (if m > 0 then o[m - 1] else -1)
    {
      RemoveNextAt(fl, order, n, i, m);
      RemovePrevAt(fl, order, n, i, m);
    }
    if i > 0 {
      assert order[i - 1] != pos;
    }
    assert r.length == |o|;
    assert r.first == if |o| == 0 then -1 else o[0];
    assert Linked(r, o, n);
  }

  /** The successor of the m-th remaining entry after the i-th is removed. */
  lemma RemoveNextAt(fl: FlipList, order: seq<int>, n: nat, i: nat, m: nat)
    requires Linked(fl, order, n) && i < |order| && m < |order| - 1
    ensures -1 <= fl.next[order[i]] < n && -1 <= fl.prev[order[i]] < n
    ensures var o := order[..i] + order[i + 1..];
      0 <= o[m] < n
      && Remove(fl, order[i]).next[o[m]] == if m + 1 < |o| then o[m + 1] else -1
  {
    LinkedAt(fl, order, n, i);
    var o := order[..i] + order[i + 1..];
    var q := if m < i then m else m + 1;
    assert o[m] == order[q];
    LinkedAt(fl, order, n, q);
    if m + 1 < |o| {
      assert o[m + 1] == order[if m + 1 < i then m + 1 else m + 2];
    }
    if i > 0 && q != i - 1 {
      assert order[q] != order[i - 1];
    }
  }

  /** The predecessor of the m-th remaining entry after the i-th is removed. */
  lemma RemovePrevAt(fl: FlipList, order: seq<int>, n: nat, i: nat, m: nat)
    requires Linked(fl, order, n) && i < |order| && m < |order| - 1
    ensures -1 <= fl.next[order[i]] < n && -1 <= fl.prev[order[i]] < n
    ensures var o := order[..i] + order[i + 1..];
      0 <= o[m] < n
      && Remove(fl, order[i]).prev[o[m]] == if m > 0 then o[m - 1] else -1
  {
    LinkedAt(fl, order, n, i);
    var o := order[..i] + order[i + 1..];
    var q := if m < i then m else m + 1;
    assert o[m] == order[q];
    LinkedAt(fl, order, n, q);
    if m > 0 {
      assert o[m - 1] == order[if m - 1 < i then m - 1 else m];
    }
    if i + 1 < |order| && q != i + 1 {
      assert order[q] != order[i + 1];
    }
  }
}
