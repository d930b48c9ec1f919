/** Searches and folds over sequences that the scraper's loops and
    comprehensions are built from. Each is defined from the end of the
    sequence backwards where a loop appends at the end, so that one loop
    iteration is one unfolding of the definition. */
module Seqs {
  import opened Wrappers

  /** The index of the first element satisfying `p` (BeautifulSoup's `find`,
      a comprehension followed by `[0]`). */
  function FirstWhere<T>(s: seq<T>, p: T -> bool): (r: Option<nat>)
    ensures r.Some? ==> r.value < |s| && p(s[r.value])
    ensures r.Some? ==> forall j :: 0 <= j < r.value ==> !p(s[j])
    ensures r.None? <==> forall j :: 0 <= j < |s| ==> !p(s[j])
  {
    if s == [] then None
    else if p(s[0]) then Some(0)
    else match FirstWhere(s[1..], p)
      case None => None
      case Some(i) => Some(i + 1)
  }

  /** An element satisfying `p` with none before it is the one found. */
  lemma FirstWhereIs<T>(s: seq<T>, p: T -> bool, k: nat)
    requires k < |s| && p(s[k])
    requires forall j :: 0 <= j < k ==> !p(s[j])
    ensures FirstWhere(s, p) == Some(k)
  {
    var r := FirstWhere(s, p);
    assert r.Some? by { assert p(s[k]); }
    assert !(r.value < k);
    assert !(r.value > k);
  }

  /** The index of the last element satisfying `p`: where a loop lets each
      match overwrite the previous one, this is the one that remains. */
  function LastWhere<T>(s: seq<T>, p: T -> bool): (r: Option<nat>)
    ensures r.Some? ==> r.value < |s| && p(s[r.value])
    ensures r.Some? ==> forall j :: r.value < j < |s| ==> !p(s[j])
    ensures r.None? <==> forall j :: 0 <= j < |s| ==> !p(s[j])
  {
    if s == [] then None
    else if p(s[|s| - 1]) then Some(|s| - 1)
    else LastWhere(s[..|s| - 1], p)
  }

  /** A prefix one element longer is the prefix followed by that element. */
  lemma TakeOneMore<T>(s: seq<T>, k: nat)
    requires k < |s|
    ensures s[..k + 1] == s[..k] + [s[k]]
  {
  }

  /** An element satisfying `p` with none after it is the one found. */
  lemma LastWhereIs<T>(s: seq<T>, p: T -> bool, k: nat)
    requires k < |s| && p(s[k])
    requires forall j :: k < j < |s| ==> !p(s[j])
    ensures LastWhere(s, p) == Some(k)
  {
    var r := LastWhere(s, p);
    assert r.Some? by { assert p(s[k]); }
    assert !(r.value < k);
    assert !(r.value > k);
  }

  /** The prefix of full length is the whole sequence. */
  lemma TakeAll<T>(s: seq<T>)
    ensures s[..|s|] == s
  {
  }

  /** Applies `f` to each element in order and stops at the first failure,
      as a Python loop does when one iteration raises. */
  function MapResult<A, B, E>(xs: seq<A>, f: A -> Result<B, E>): (r: Result<seq<B>, E>)
    ensures r.Success? <==> forall i :: 0 <= i < |xs| ==> f(xs[i]).Success?
    ensures r.Success? ==> |r.value| == |xs|
    ensures r.Success? ==> forall i :: 0 <= i < |xs| ==> f(xs[i]) == Success(r.value[i])
    ensures r.Failure? ==> exists i :: 0 <= i < |xs| && f(xs[i]) == Failure(r.error) && SucceedsBefore(xs, f, i)
  {
    if xs == [] then Success([])
    else
      var init := xs[..|xs| - 1];
      assert forall i :: 0 <= i < |init| ==> init[i] == xs[i];
      match MapResult(init, f)
      case Failure(e) => Failure(e)
      case Success(ys) =>
        match f(xs[|xs| - 1])
        case Failure(e) => Failure(e)
        case Success(y) => Success(ys + [y])
  }

  /** A successful mapping of a non-empty sequence is the mapping of all but
      its last element followed by the last element's value. */
  lemma MapResultSnoc<A, B, E>(xs: seq<A>, f: A -> Result<B, E>)
    requires xs != [] && MapResult(xs, f).Success?
    ensures MapResult(xs[..|xs| - 1], f).Success?
    ensures f(xs[|xs| - 1]).Success?
    ensures MapResult(xs, f).value == MapResult(xs[..|xs| - 1], f).value + [f(xs[|xs| - 1]).value]
  {
  }

  /** Mapping one more element: the failure so far, else that element's
      failure, else its value appended. */
  lemma MapResultStep<A, B, E>(xs: seq<A>, k: nat, f: A -> Result<B, E>)
    requires k < |xs|
    ensures MapResult(xs[..k + 1], f) ==
      match MapResult(xs[..k], f)
      case Failure(e) => Failure(e)
      case Success(ys) => (match f(xs[k]) case Failure(e) => Failure(e) case Success(y) => Success(ys + [y]))
  {
    assert xs[..k + 1][..k] == xs[..k];
  }

  /** Mapping a sequence with one element appended. */
  lemma MapResultAppend<A, B, E>(xs: seq<A>, x: A, f: A -> Result<B, E>)
    ensures MapResult(xs + [x], f) ==
      match MapResult(xs, f)
      case Failure(e) => Failure(e)
      case Success(ys) => (match f(x) case Failure(e) => Failure(e) case Success(y) => Success(ys + [y]))
  {
    assert (xs + [x])[..|xs|] == xs;
  }

  /** Once a prefix of the sequence fails, the whole sequence fails the same way. */
  lemma {:induction false} MapResultFailurePersists<A, B, E>(xs: seq<A>, j: nat, f: A -> Result<B, E>)
    requires j <= |xs|
    requires MapResult(xs[..j], f).Failure?
    ensures MapResult(xs, f) == MapResult(xs[..j], f)
    decreases |xs| - j
  {
    if j < |xs| {
      assert xs[..j + 1][..j] == xs[..j];
      MapResultFailurePersists(xs, j + 1, f);
    } else {
      assert xs[..j] == xs;
    }
  }

  /** Every element before index `i` maps successfully. */
  ghost predicate SucceedsBefore<A, B, E>(xs: seq<A>, f: A -> Result<B, E>, i: nat) {
    forall j :: 0 <= j < i && j < |xs| ==> f(xs[j]).Success?
  }

  /** The values present in `xs`, in order (a loop that appends only in some iterations). */
  function Somes<T>(xs: seq<Option<T>>): (r: seq<T>)
    ensures |r| <= |xs|
    ensures forall i :: 0 <= i < |r| ==> Some(r[i]) in xs
  {
    if xs == [] then []
    else
      var rest := Somes(xs[..|xs| - 1]);
      assert forall i :: 0 <= i < |rest| ==> Some(rest[i]) in xs[..|xs| - 1];
      match xs[|xs| - 1]
      case None => rest
      case Some(y) => rest + [y]
  }

  /** Collecting values after one more element adds that element's value, if it has one. */
  lemma SomesSnoc<T>(xs: seq<Option<T>>, x: Option<T>)
    ensures Somes(xs + [x]) == Somes(xs) + (if x.Some? then [x.value] else [])
  {
    assert (xs + [x])[..|xs|] == xs;
  }

  /** The elements of `s` satisfying `p`, in order. */
  function Filter<T>(s: seq<T>, p: T -> bool): (r: seq<T>)
    ensures |r| <= |s|
    ensures forall i :: 0 <= i < |r| ==> r[i] in s && p(r[i])
  {
    if s == [] then []
    else Filter(s[..|s| - 1], p) + (if p(s[|s| - 1]) then [s[|s| - 1]] else [])
  }
}
