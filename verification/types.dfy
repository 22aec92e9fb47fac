/** Shared building blocks: Go's nil-able pointers and (value, error) pairs,
    and the order-preserving filter every listing loop of the program uses. */
module Types {

  /** Go errors are compared and wrapped by their message only. */
  type Error = string

  /** A Go pointer or slice that may be nil. */
  datatype Option<+T> = None | Some(value: T)

  /** A Go `(value, error)` pair in which exactly one side is meaningful. */
  datatype Result<+T> = Success(value: T) | Failure(error: Error)

  /** The elements of `s` that satisfy `p`, in their original order:
      the shape of every `for ... { if p { xs = append(xs, x) } }` loop. */
  function Filter<T>(s: seq<T>, p: T -> bool): (r: seq<T>)
    ensures |r| <= |s|
    ensures forall i | 0 <= i < |r| :: r[i] in s && p(r[i])
    ensures forall i | 0 <= i < |s| && p(s[i]) :: s[i] in r
  {
    if |s| == 0 then []
    else if p(s[0]) then [s[0]] + Filter(s[1..], p)
    else Filter(s[1..], p)
  }

  /** Filtering distributes over concatenation, so the kept elements keep
      their relative order. */
  lemma {:induction false} FilterAppend<T>(a: seq<T>, b: seq<T>, p: T -> bool)
    ensures Filter(a + b, p) == Filter(a, p) + Filter(b, p)
  {
    if |a| == 0 {
      assert a + b == b;
    } else {
      assert (a + b)[1..] == a[1..] + b;
      FilterAppend(a[1..], b, p);
    }
  }

  /** Appending one element: the form a loop invariant needs. */
  lemma FilterSnoc<T>(a: seq<T>, x: T, p: T -> bool)
    ensures Filter(a + [x], p) == Filter(a, p) + (if p(x) then [x] else [])
  {
    FilterAppend(a, [x], p);
    assert [x][1..] == [];
  }

  /** A filter and its complementary filter split the input: every element
      lands in exactly one of the two, as often as it occurs. */
  lemma {:induction false} FilterSplits<T>(s: seq<T>, p: T -> bool, q: T -> bool)
    requires forall x :: q(x) == !p(x)
    ensures multiset(Filter(s, p)) + multiset(Filter(s, q)) == multiset(s)
    ensures |Filter(s, p)| + |Filter(s, q)| == |s|
  {
    if |s| > 0 {
      FilterSplits(s[1..], p, q);
      assert s == [s[0]] + s[1..];
    }
  }

  /** The position of the first element of `s` that fails `p`: where a
      loop that goes on while `p` holds stops. */
  function FirstFailing<T>(s: seq<T>, p: T -> bool): (k: nat)
    requires exists i | 0 <= i < |s| :: !p(s[i])
    ensures k < |s| && !p(s[k])
    ensures forall j | 0 <= j < k :: p(s[j])
    decreases |s|
  {
    if !p(s[0]) then 0
    else
      var tail := s[1..];
      var i :| 0 <= i < |s| && !p(s[i]);
      assert !p(tail[i - 1]);
      var k := FirstFailing(tail, p);
      assert forall j | 1 <= j < k + 1 :: s[j] == tail[j - 1];
      k + 1
  }

  /** The prefix of `s` up to and including its first element failing `p`. */
  function UpToFirstFailing<T>(s: seq<T>, p: T -> bool): seq<T>
    requires exists i | 0 <= i < |s| :: !p(s[i])
  {
    s[..FirstFailing(s, p) + 1]
  }

  /** When the first element passes `p`, the search moves one place on:
      the prefix up to the first failure is that element followed by the
      rest's prefix. */
  lemma FirstFailingStep<T>(s: seq<T>, p: T -> bool)
    requires exists i | 0 <= i < |s| :: !p(s[i])
    requires p(s[0])
    ensures exists i | 0 <= i < |s[1..]| :: !p(s[1..][i])
    ensures FirstFailing(s, p) == FirstFailing(s[1..], p) + 1
    ensures UpToFirstFailing(s, p) == [s[0]] + UpToFirstFailing(s[1..], p)
  {
    var i :| 0 <= i < |s| && !p(s[i]);
    assert !p(s[1..][i - 1]);
    var k := FirstFailing(s[1..], p);
    assert s[..k + 2] == [s[0]] + s[1..][..k + 1];
  }
}
