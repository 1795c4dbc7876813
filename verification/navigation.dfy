/** Circular previous/next navigation over the ordered list of dish ids
    (`setPrevNext` of the dish-detail component). */
module Navigation {
  import opened Wrappers

  /** `Array.prototype.indexOf`: the position of the first element equal to
      `id`, or -1 when there is none. */
  function IndexOf(ids: seq<string>, id: string): (r: int)
    ensures -1 <= r < |ids|
    ensures r == -1 <==> id !in ids
    ensures r >= 0 ==> ids[r] == id && forall j :: 0 <= j < r ==> ids[j] != id
  {
    if |ids| == 0 then -1
    else if ids[0] == id then 0
    else
      var j := IndexOf(ids[1..], id);
      if j == -1 then -1 else j + 1
  }

  /** `i` is where `id` first occurs in `ids`. */
  predicate FirstOccurrence(ids: seq<string>, id: string, i: int) {
    0 <= i < |ids| && ids[i] == id && forall j :: 0 <= j < i ==> ids[j] != id
  }

  /** The remainder of a non-negative `a` by `n`, one lap of `n` at a time. */
  function Rem(a: nat, n: nat): (r: nat)
    requires n > 0
    ensures r < n && r <= a
    ensures a < n ==> r == a
    decreases a
  {
    if a < n then a else Rem(a - n, n)
  }

  /** JavaScript's `%` on integers: the remainder truncated toward zero, so it
      takes the sign of the dividend (unlike Dafny's Euclidean `%`). */
  function JsRem(a: int, n: int): (r: int)
    requires n > 0
    ensures -n < r < n
    ensures a >= 0 ==> r >= 0
    ensures a <= 0 ==> r <= 0
    ensures -n < a < n ==> r == a
    ensures a >= n ==> r == JsRem(a - n, n)
    ensures a <= -n ==> r == JsRem(a + n, n)
    decreases if a >= 0 then a else -a
  {
    if a >= 0 then Rem(a, n) else -(Rem(-a, n) as int)
  }

  /** Reading `ids[k]` in JavaScript: `undefined` outside the array. */
  function JsAt(ids: seq<string>, k: int): (r: Option<string>)
    ensures r.Some? <==> 0 <= k < |ids|
    ensures r.Some? ==> r.value == ids[k]
  {
    if 0 <= k < |ids| then Some(ids[k]) else None
  }

  /** The `prev` and `next` fields as `setPrevNext` leaves them. */
  datatype Adjacent = Adjacent(prev: Option<string>, next: Option<string>)

  /** `setPrevNext` as written, for every input. An empty list makes both
      remainders NaN and both reads `undefined`; an absent id makes
      `indexOf` return -1 and the arithmetic goes on with it. */
  function SetPrevNext(ids: seq<string>, id: string): (r: Adjacent)
    ensures r.prev.Some? <==> |ids| > 0
    ensures r.next.Some? <==> |ids| > 0
    ensures r.prev.Some? ==> r.prev.value in ids
    ensures r.next.Some? ==> r.next.value in ids
  {
    if |ids| == 0 then Adjacent(None, None)
    else
      var n := |ids|;
      var index := IndexOf(ids, id);
      Adjacent(JsAt(ids, JsRem(n + index - 1, n)), JsAt(ids, JsRem(n + index + 1, n)))
  }

  /** The neighbours of a dish that is in the list. */
  datatype PrevNext = PrevNext(prev: string, next: string)

  /** Navigation for an id taken from the list: the element before and the
      element after its first occurrence, wrapping around both ends. */
  function Neighbours(ids: seq<string>, id: string): (r: PrevNext)
    requires |ids| > 0 && id in ids
    ensures r.prev in ids && r.next in ids
    ensures forall i :: FirstOccurrence(ids, id, i) ==>
              && r.prev == ids[if i == 0 then |ids| - 1 else i - 1]
              && r.next == ids[if i == |ids| - 1 then 0 else i + 1]
  {
    var a := SetPrevNext(ids, id);
    assert forall i | FirstOccurrence(ids, id, i) ::
        a == Adjacent(Some(ids[if i == 0 then |ids| - 1 else i - 1]), Some(ids[if i == |ids| - 1 then 0 else i + 1])) by {
      forall i | FirstOccurrence(ids, id, i) {
        SetPrevNextFound(ids, id, i);
      }
    }
    PrevNext(a.prev.value, a.next.value)
  }

  /** `setPrevNext` on an id whose first occurrence is `i`: the remainders
      are taken of non-negative dividends, so JavaScript's `%` agrees with
      the mathematical one and both reads land inside the list. */
  lemma SetPrevNextFound(ids: seq<string>, id: string, i: int)
    requires FirstOccurrence(ids, id, i)
    ensures SetPrevNext(ids, id)
         == Adjacent(Some(ids[if i == 0 then |ids| - 1 else i - 1]), Some(ids[if i == |ids| - 1 then 0 else i + 1]))
  {
    assert IndexOf(ids, id) == i;
    WrappedIndices(|ids|, i);
  }

  /** The index arithmetic of `setPrevNext` for a found index `i` of a list of length
      `n`: both dividends are non-negative, so JavaScript's `%` lands in
      `[0, n)`, one step before and one step after `i` around the circle. */
  lemma {:induction false} WrappedIndices(n: nat, i: nat)
    requires i < n
    ensures n + i - 1 >= 0 && n + i + 1 >= 0
    ensures JsRem(n + i - 1, n) == if i == 0 then n - 1 else i - 1
    ensures JsRem(n + i + 1, n) == if i == n - 1 then 0 else i + 1
  {
    if i == n - 1 {
      assert JsRem(n + i + 1, n) == JsRem(n, n) == JsRem(0, n);
    }
  }

  /** Wrap-around: the first dish's `prev` is the last dish, and the last
      dish's `next` is the first, provided the last id is not repeated
      earlier in the list. */
  lemma WrapAround(ids: seq<string>)
    requires |ids| > 0
    ensures Neighbours(ids, ids[0]).prev == ids[|ids| - 1]
    ensures ids[|ids| - 1] !in ids[..|ids| - 1] ==> Neighbours(ids, ids[|ids| - 1]).next == ids[0]
  {
    assert FirstOccurrence(ids, ids[0], 0);
    var n := |ids|;
    if ids[n - 1] !in ids[..n - 1] {
      forall j | 0 <= j < n - 1
        ensures ids[j] != ids[n - 1]
      {
        assert ids[j] == ids[..n - 1][j];
      }
      assert FirstOccurrence(ids, ids[n - 1], n - 1);
    }
  }

  /** A one-dish list navigates to itself in both directions. */
  lemma Singleton(x: string)
    ensures Neighbours([x], x) == PrevNext(x, x)
  {
  }

  /** With ids that are all different, `next` followed by `prev` comes back to
      the starting dish, and so does `prev` followed by `next`. */
  lemma {:induction false} NextThenPrev(ids: seq<string>, id: string)
    requires |ids| > 0 && id in ids
    requires forall i, j :: 0 <= i < j < |ids| ==> ids[i] != ids[j]
    ensures Neighbours(ids, Neighbours(ids, id).next).prev == id
    ensures Neighbours(ids, Neighbours(ids, id).prev).next == id
  {
    var n := |ids|;
    var i := IndexOf(ids, id);
    assert FirstOccurrence(ids, id, i);
    var k := if i == n - 1 then 0 else i + 1;
    assert FirstOccurrence(ids, ids[k], k);
    var h := if i == 0 then n - 1 else i - 1;
    assert FirstOccurrence(ids, ids[h], h);
  }

  /** With ids that are all different and at least two dishes, navigation
      never stays on the current dish. */
  lemma {:induction false} NeverSelf(ids: seq<string>, id: string)
    requires |ids| >= 2 && id in ids
    requires forall i, j :: 0 <= i < j < |ids| ==> ids[i] != ids[j]
    ensures Neighbours(ids, id).prev != id
    ensures Neighbours(ids, id).next != id
  {
    var i := IndexOf(ids, id);
    assert FirstOccurrence(ids, id, i);
  }

  /** What the source yields outside the precondition of `Neighbours`: no
      error is raised. An empty list gives `undefined` twice; an absent id is
      treated as index -1, so `next` is the first dish and `prev` the one
      before the last (the only dish, in a one-dish list). */
  lemma OutsideContract(ids: seq<string>, id: string)
    requires id !in ids
    ensures |ids| == 0 ==> SetPrevNext(ids, id) == Adjacent(None, None)
    ensures |ids| == 1 ==> SetPrevNext(ids, id) == Adjacent(Some(ids[0]), Some(ids[0]))
    ensures |ids| >= 2 ==> SetPrevNext(ids, id) == Adjacent(Some(ids[|ids| - 2]), Some(ids[0]))
  {
  }

  /** Three concrete lists: both ends of `[a, b, c]`, and a duplicate id whose
      first occurrence decides. */
  lemma Examples()
    ensures Neighbours(["a", "b", "c"], "a") == PrevNext("c", "b")
    ensures Neighbours(["a", "b", "c"], "c") == PrevNext("b", "a")
    ensures Neighbours(["a", "b", "a", "c"], "a") == PrevNext("c", "b")
  {
    assert FirstOccurrence(["a", "b", "c"], "a", 0);
    assert FirstOccurrence(["a", "b", "c"], "c", 2);
    assert FirstOccurrence(["a", "b", "a", "c"], "a", 0);
  }
}
