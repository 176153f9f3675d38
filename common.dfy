/** Small shared vocabulary: the absent-or-present value that stands for Java's and
    JavaScript's null, an error-carrying result, and duplicate-freedom of lists. */
module Common {

  /** `None` models a null reference. */
  datatype Option<+T> = None | Some(value: T) {
    function GetOr(default: T): T {
      match this
      case Some(v) => v
      case None => default
    }
  }

  /** The outcome of an operation that may end in an exception the caller does not catch. */
  datatype Result<+T, +E> = Ok(value: T) | Err(error: E)

  /** No element occurs twice: what a java.util.Set or a de-duplicated list guarantees. */
  predicate NoDuplicates<T(==)>(s: seq<T>) {
    forall i, j :: 0 <= i < j < |s| ==> s[i] != s[j]
  }

  /** Regrouping a concatenation of three sequences. */
  lemma AppendAssoc<T>(x: seq<T>, y: seq<T>, z: seq<T>)
    ensures x + (y + z) == (x + y) + z
  {
  }

  lemma AppendEmpty<T>(x: seq<T>)
    ensures x + [] == x && [] + x == x
  {
  }

  /** `f` applied to every element, in order (built from the front, as a loop reads). */
  function Map<A, B>(f: A -> B, xs: seq<A>): (ys: seq<B>)
    ensures |ys| == |xs|
  {
    if xs == [] then [] else Map(f, xs[..|xs| - 1]) + [f(xs[|xs| - 1])]
  }

  lemma {:induction false} MapAt<A, B>(f: A -> B, xs: seq<A>)
    ensures forall j :: 0 <= j < |xs| ==> Map(f, xs)[j] == f(xs[j])
  {
    if xs != [] {
      var init := xs[..|xs| - 1];
      MapAt(f, init);
      assert forall j :: 0 <= j < |init| ==> xs[j] == init[j];
    }
  }

  /** `f` applied to every element in order, stopping at the first error: a loop whose
      first failing step throws out of it. */
  function MapAll<A, B, E>(f: A -> Result<B, E>, xs: seq<A>): Result<seq<B>, E> {
    if xs == [] then Ok([])
    else
      match MapAll(f, xs[..|xs| - 1])
      case Err(e) => Err(e)
      case Ok(ys) =>
        match f(xs[|xs| - 1])
        case Err(e) => Err(e)
        case Ok(y) => Ok(ys + [y])
  }

  /** MapAll fails exactly when some element fails, and otherwise holds every element's
      value, in order. */
  lemma {:induction false} MapAllSpec<A, B, E>(f: A -> Result<B, E>, xs: seq<A>)
    ensures MapAll(f, xs).Err? <==> exists i :: 0 <= i < |xs| && f(xs[i]).Err?
    ensures MapAll(f, xs).Ok? ==>
              |MapAll(f, xs).value| == |xs|
              && forall i :: 0 <= i < |xs| ==> Ok(MapAll(f, xs).value[i]) == f(xs[i])
  {
    if xs != [] {
      var init := xs[..|xs| - 1];
      MapAllSpec(f, init);
      assert forall i :: 0 <= i < |init| ==> xs[i] == init[i];
      if MapAll(f, xs).Err? && MapAll(f, init).Ok? {
        assert f(xs[|xs| - 1]).Err?;
      }
    }
  }

  /** The error MapAll ends with is that of the first failing element. */
  lemma {:induction false} MapAllFirstError<A, B, E>(f: A -> Result<B, E>, xs: seq<A>, i: nat)
    requires i < |xs| && MapAll(f, xs[..i]).Ok? && f(xs[i]).Err?
    ensures MapAll(f, xs) == Err(f(xs[i]).error)
    decreases |xs|
  {
    if i + 1 < |xs| {
      var init := xs[..|xs| - 1];
      assert init[..i] == xs[..i] && init[i] == xs[i];
      MapAllFirstError(f, init, i);
    } else {
      assert xs[..|xs| - 1] == xs[..i];
    }
  }

  /** The values `f` yields for the elements it accepts, in order: a loop that skips
      some elements and keeps a converted copy of the others. */
  function FilterMap<A, B>(f: A -> Option<B>, xs: seq<A>): (ys: seq<B>)
    ensures |ys| <= |xs|
  {
    if xs == [] then []
    else
      var before := FilterMap(f, xs[..|xs| - 1]);
      match f(xs[|xs| - 1])
      case Some(y) => before + [y]
      case None => before
  }

  /** FilterMap keeps the order of its input: it distributes over concatenation. */
  lemma {:induction false} FilterMapAppend<A, B>(f: A -> Option<B>, xs: seq<A>, ys: seq<A>)
    ensures FilterMap(f, xs + ys) == FilterMap(f, xs) + FilterMap(f, ys)
    decreases |ys|
  {
    if ys == [] {
      assert xs + ys == xs;
    } else {
      var init := ys[..|ys| - 1];
      FilterMapAppend(f, xs, init);
      assert (xs + ys)[..|xs + ys| - 1] == xs + init;
      assert (xs + ys)[|xs + ys| - 1] == ys[|ys| - 1];
      match f(ys[|ys| - 1])
      case Some(y) => AppendAssoc(FilterMap(f, xs), FilterMap(f, init), [y]);
      case None =>
    }
  }

  /** Every kept value comes from an accepted element, and every accepted element's value
      is kept; when every element is accepted, nothing is dropped. */
  lemma {:induction false} FilterMapMembers<A, B>(f: A -> Option<B>, xs: seq<A>)
    ensures forall k :: 0 <= k < |FilterMap(f, xs)| ==> exists i :: 0 <= i < |xs| && f(xs[i]) == Some(FilterMap(f, xs)[k])
    ensures forall i :: 0 <= i < |xs| && f(xs[i]).Some? ==> f(xs[i]).value in FilterMap(f, xs)
    ensures (forall i :: 0 <= i < |xs| ==> f(xs[i]).Some?) ==> |FilterMap(f, xs)| == |xs|
  {
    if xs != [] {
      var init := xs[..|xs| - 1];
      FilterMapMembers(f, init);
      var before := FilterMap(f, init);
      var r := FilterMap(f, xs);
      assert forall i :: 0 <= i < |init| ==> xs[i] == init[i];
      forall k | 0 <= k < |r| ensures exists i :: 0 <= i < |xs| && f(xs[i]) == Some(r[k]) {
        if k < |before| {
          assert r[k] == before[k];
          var i :| 0 <= i < |init| && f(init[i]) == Some(before[k]);
          assert xs[i] == init[i];
        } else {
          assert f(xs[|xs| - 1]) == Some(r[k]);
          var last := |xs| - 1;
          assert 0 <= last < |xs| && f(xs[last]) == Some(r[k]);
        }
      }
      forall i | 0 <= i < |xs| && f(xs[i]).Some? ensures f(xs[i]).value in r {
        if i < |init| {
          assert f(init[i]).value in before;
        }
      }
    } else {
      assert FilterMap(f, xs) == [];
    }
  }

  /** Nothing is kept exactly when no element is accepted. */
  lemma FilterMapEmpty<A, B>(f: A -> Option<B>, xs: seq<A>)
    ensures FilterMap(f, xs) == [] <==> forall i :: 0 <= i < |xs| ==> f(xs[i]).None?
  {
    FilterMapMembers(f, xs);
    if FilterMap(f, xs) != [] {
      var i :| 0 <= i < |xs| && f(xs[i]) == Some(FilterMap(f, xs)[0]);
    }
  }
}
