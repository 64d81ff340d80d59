/** The first-match loop the extractors share: scan a sequence from the
    front and stop at the first element a test accepts. */
module FirstMatch {
  import opened Outcome

  /** The index of the first element from `k` on that `accept` holds for. */
  function FirstIndex<T>(xs: seq<T>, accept: T -> bool, k: nat): (r: Option<nat>)
    requires k <= |xs|
    ensures r.Some? ==> k <= r.value < |xs| && accept(xs[r.value])
    ensures r.Some? ==> forall j :: k <= j < r.value ==> !accept(xs[j])
    ensures r.None? <==> forall j :: k <= j < |xs| ==> !accept(xs[j])
    decreases |xs| - k
  {
    if k == |xs| then None
    else if accept(xs[k]) then Some(k)
    else FirstIndex(xs, accept, k + 1)
  }

  /** The search finds exactly the first accepted element: the index that
      is accepted with nothing accepted before it. */
  lemma FirstIndexIs<T>(xs: seq<T>, accept: T -> bool, k: nat, i: nat)
    requires k <= i < |xs| && accept(xs[i])
    requires forall j :: k <= j < i ==> !accept(xs[j])
    ensures FirstIndex(xs, accept, k) == Some(i)
  {
  }

  /** One step of the scan: a rejected element passes it on. */
  lemma FirstIndexNext<T>(xs: seq<T>, accept: T -> bool, k: nat)
    requires k < |xs| && !accept(xs[k])
    ensures FirstIndex(xs, accept, k) == FirstIndex(xs, accept, k + 1)
  {
  }

  /** One step of the scan: an accepted element ends it. */
  lemma FirstIndexHere<T>(xs: seq<T>, accept: T -> bool, k: nat)
    requires k < |xs| && accept(xs[k])
    ensures FirstIndex(xs, accept, k) == Some(k)
  {
  }

  /** Passing over an element the test rejects: the search goes on in the
      rest of the sequence. */
  lemma FirstIndexSkip<T>(xs: seq<T>, accept: T -> bool)
    requires xs != [] && !accept(xs[0])
    ensures FirstIndex(xs[1..], accept, 0).None? ==> FirstIndex(xs, accept, 0).None?
    ensures FirstIndex(xs[1..], accept, 0).Some? ==>
      FirstIndex(xs, accept, 0) == Some(FirstIndex(xs[1..], accept, 0).value + 1)
  {
    var r := FirstIndex(xs[1..], accept, 0);
    if r.Some? {
      forall j | 0 <= j < r.value + 1 ensures !accept(xs[j]) {
        if j > 0 {
          assert xs[j] == xs[1..][j - 1];
        }
      }
      FirstIndexIs(xs, accept, 0, r.value + 1);
    } else {
      forall j | 0 <= j < |xs| ensures !accept(xs[j]) {
        if j > 0 {
          assert xs[j] == xs[1..][j - 1];
        }
      }
    }
  }

  /** Passing over a rejected first element finds the same element in the
      rest of the sequence, or nothing in both. */
  lemma FirstElementSkip<T>(xs: seq<T>, accept: T -> bool)
    requires xs != [] && !accept(xs[0])
    ensures FirstIndex(xs, accept, 0).None? <==> FirstIndex(xs[1..], accept, 0).None?
    ensures FirstIndex(xs, accept, 0).Some? ==>
      xs[FirstIndex(xs, accept, 0).value] == xs[1..][FirstIndex(xs[1..], accept, 0).value]
  {
    FirstIndexSkip(xs, accept);
  }

  /** Two searches whose tests agree element by element stop at the same
      index. */
  lemma FirstIndexAgree<T, U>(xs: seq<T>, a: T -> bool, ys: seq<U>, b: U -> bool)
    requires |xs| == |ys|
    requires forall j :: 0 <= j < |xs| ==> a(xs[j]) == b(ys[j])
    ensures FirstIndex(xs, a, 0) == FirstIndex(ys, b, 0)
  {
    var r := FirstIndex(xs, a, 0);
    if r.Some? {
      FirstIndexIs(ys, b, 0, r.value);
    }
  }

  /** The first position from `i` to `n` where `m` finds something, with
      what it found: the scan `re.search` makes over start positions. */
  function FirstHit<T>(m: nat -> Option<T>, i: nat, n: nat): (r: Option<(nat, T)>)
    requires i <= n
    ensures r.Some? ==> i <= r.value.0 <= n && m(r.value.0) == Some(r.value.1)
    ensures r.Some? ==> forall k :: i <= k < r.value.0 ==> m(k).None?
    ensures r.None? <==> forall k :: i <= k <= n ==> m(k).None?
    decreases n - i
  {
    if m(i).Some? then Some((i, m(i).value))
    else if i == n then None
    else FirstHit(m, i + 1, n)
  }
}
