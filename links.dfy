/** The two sequence operations behind the denormalised links between Books
    and Authors: resolving a submitted list of ids to embedded summaries
    (a map that skips what does not resolve) and removing every summary that
    carries a given id (an order-preserving filter). Both are generic in the
    record type R and the summary type S so that the Book side and the
    Author side share one definition. */
module Links {
  import opened Common

  // ---------------------------------------------------------------------------
  // Resolution of submitted ids
  // ---------------------------------------------------------------------------

  /** Whether id `k` names a document of `store` that `live` accepts. */
  predicate Resolves<R>(store: map<Id, R>, k: Id, live: R -> bool) {
    k in store && live(store[k])
  }

  /** What one pass of the resolution loop appends for id `k`. */
  function Step<R, S>(store: map<Id, R>, k: Id, live: R -> bool, strip: R -> S): seq<S> {
    if Resolves(store, k, live) then [strip(store[k])] else []
  }

  /** The summaries the resolution loop has built after walking `ids` in order. */
  function Resolve<R, S>(store: map<Id, R>, ids: seq<Id>, live: R -> bool, strip: R -> S): seq<S> {
    if ids == [] then []
    else Resolve(store, ids[..|ids| - 1], live, strip) + Step(store, ids[|ids| - 1], live, strip)
  }

  /** Reference definition: the submitted ids that resolve, in submitted order,
      duplicates kept. */
  function LiveIds<R>(store: map<Id, R>, ids: seq<Id>, live: R -> bool): seq<Id> {
    if ids == [] then []
    else (if Resolves(store, ids[0], live) then [ids[0]] else []) + LiveIds(store, ids[1..], live)
  }

  /** The ids carried by a sequence of summaries. */
  function IdsOf<S>(xs: seq<S>, idOf: S -> Id): (r: seq<Id>)
    ensures |r| == |xs|
    ensures forall i :: 0 <= i < |xs| ==> r[i] == idOf(xs[i])
  {
    if xs == [] then [] else [idOf(xs[0])] + IdsOf(xs[1..], idOf)
  }

  lemma IdsOfAppend<S>(a: seq<S>, b: seq<S>, idOf: S -> Id)
    ensures IdsOf(a + b, idOf) == IdsOf(a, idOf) + IdsOf(b, idOf)
  {
    assert forall i :: 0 <= i < |a| + |b| ==> IdsOf(a + b, idOf)[i] == (IdsOf(a, idOf) + IdsOf(b, idOf))[i];
  }

  /** The summaries follow the submitted order: resolving a concatenation
      concatenates the resolutions. */
  lemma {:induction false} ResolveAppend<R, S>(store: map<Id, R>, a: seq<Id>, b: seq<Id>, live: R -> bool, strip: R -> S)
    ensures Resolve(store, a + b, live, strip) == Resolve(store, a, live, strip) + Resolve(store, b, live, strip)
    decreases |b|
  {
    if b == [] {
      assert a + b == a;
    } else {
      var b' := b[..|b| - 1];
      assert (a + b)[..|a + b| - 1] == a + b';
      assert (a + b)[|a + b| - 1] == b[|b| - 1];
      ResolveAppend(store, a, b', live, strip);
    }
  }

  /** Every summary is the stripped copy of the live document its id names. */
  lemma {:induction false} ResolveFromStore<R, S>(store: map<Id, R>, ids: seq<Id>, live: R -> bool, strip: R -> S, idOf: S -> Id)
    requires forall k :: k in store ==> idOf(strip(store[k])) == k
    ensures forall j :: 0 <= j < |Resolve(store, ids, live, strip)| ==>
      var s := Resolve(store, ids, live, strip)[j];
      Resolves(store, idOf(s), live) && s == strip(store[idOf(s)])
    decreases |ids|
  {
    if ids != [] {
      ResolveFromStore(store, ids[..|ids| - 1], live, strip, idOf);
    }
  }

  /** The ids of the summaries are exactly the submitted ids that resolve,
      in submitted order. */
  lemma {:induction false} ResolveIds<R, S>(store: map<Id, R>, ids: seq<Id>, live: R -> bool, strip: R -> S, idOf: S -> Id)
    requires forall k :: k in store ==> idOf(strip(store[k])) == k
    ensures IdsOf(Resolve(store, ids, live, strip), idOf) == LiveIds(store, ids, live)
    decreases |ids|
  {
    if ids != [] {
      var head, tail := [ids[0]], ids[1..];
      assert head + tail == ids;
      ResolveAppend(store, head, tail, live, strip);
      assert head[..0] == [];
      assert Resolve(store, head, live, strip) == Step(store, ids[0], live, strip);
      ResolveIds(store, tail, live, strip, idOf);
      IdsOfAppend(Resolve(store, head, live, strip), Resolve(store, tail, live, strip), idOf);
    }
  }

  /** An id occurs in LiveIds exactly when it was submitted and resolves. */
  lemma {:induction false} LiveIdsMembers<R>(store: map<Id, R>, ids: seq<Id>, live: R -> bool, k: Id)
    ensures k in LiveIds(store, ids, live) <==> k in ids && Resolves(store, k, live)
    decreases |ids|
  {
    if ids != [] {
      LiveIdsMembers(store, ids[1..], live, k);
      assert ids == [ids[0]] + ids[1..];
    }
  }

  /** Duplicates are not collapsed: a resolving id occurs as often as it was
      submitted, any other id not at all. */
  lemma {:induction false} LiveIdsOccurrences<R>(store: map<Id, R>, ids: seq<Id>, live: R -> bool, k: Id)
    ensures multiset(LiveIds(store, ids, live))[k] == if Resolves(store, k, live) then multiset(ids)[k] else 0
    decreases |ids|
  {
    if ids != [] {
      LiveIdsOccurrences(store, ids[1..], live, k);
      assert ids == [ids[0]] + ids[1..];
    }
  }

  /** When every submitted id resolves, nothing is skipped. */
  lemma {:induction false} LiveIdsAllResolve<R>(store: map<Id, R>, ids: seq<Id>, live: R -> bool)
    requires forall i :: 0 <= i < |ids| ==> Resolves(store, ids[i], live)
    ensures LiveIds(store, ids, live) == ids
    decreases |ids|
  {
    if ids != [] {
      LiveIdsAllResolve(store, ids[1..], live);
      assert ids == [ids[0]] + ids[1..];
    }
  }

  // ---------------------------------------------------------------------------
  // Removal of the summaries that carry one id
  // ---------------------------------------------------------------------------

  /** Whether some summary of `xs` carries `id` (the `$elemMatch` condition). */
  predicate Cites<S>(xs: seq<S>, id: Id, idOf: S -> Id) {
    exists i :: 0 <= i < |xs| && idOf(xs[i]) == id
  }

  /** `xs` with every summary that carries `id` removed, as the cleanup loop
      builds it walking `xs` in order. */
  function Without<S>(xs: seq<S>, id: Id, idOf: S -> Id): seq<S> {
    if xs == [] then []
    else Without(xs[..|xs| - 1], id, idOf) + (if idOf(xs[|xs| - 1]) == id then [] else [xs[|xs| - 1]])
  }

  /** Removal distributes over concatenation, so what survives keeps its order. */
  lemma {:induction false} WithoutAppend<S>(a: seq<S>, b: seq<S>, id: Id, idOf: S -> Id)
    ensures Without(a + b, id, idOf) == Without(a, id, idOf) + Without(b, id, idOf)
    decreases |b|
  {
    if b == [] {
      assert a + b == a;
    } else {
      var b' := b[..|b| - 1];
      assert (a + b)[..|a + b| - 1] == a + b';
      assert (a + b)[|a + b| - 1] == b[|b| - 1];
      WithoutAppend(a, b', id, idOf);
    }
  }

  /** Two surviving summaries keep their relative order. */
  lemma WithoutKeepsOrder<S>(xs: seq<S>, id: Id, idOf: S -> Id, i: nat, j: nat)
    requires i < j < |xs| && idOf(xs[i]) != id && idOf(xs[j]) != id
    ensures exists i', j' ::
              && 0 <= i' < j' < |Without(xs, id, idOf)|
              && Without(xs, id, idOf)[i'] == xs[i]
              && Without(xs, id, idOf)[j'] == xs[j]
  {
    var a, m, c := xs[..i], xs[i + 1..j], xs[j + 1..];
    assert xs == a + [xs[i]] + m + [xs[j]] + c;
    WithoutAppend(a + [xs[i]] + m + [xs[j]], c, id, idOf);
    WithoutAppend(a + [xs[i]] + m, [xs[j]], id, idOf);
    WithoutAppend(a + [xs[i]], m, id, idOf);
    WithoutAppend(a, [xs[i]], id, idOf);
    assert [xs[i]][..0] == [] && [xs[j]][..0] == [];
    var wa, wm := Without(a, id, idOf), Without(m, id, idOf);
    assert Without(xs, id, idOf) == wa + [xs[i]] + wm + [xs[j]] + Without(c, id, idOf);
    var i', j' := |wa|, |wa| + 1 + |wm|;
    assert Without(xs, id, idOf)[i'] == xs[i];
    assert Without(xs, id, idOf)[j'] == xs[j];
  }

  /** A summary survives exactly when it was there and carries another id. */
  lemma {:induction false} WithoutMembers<S>(xs: seq<S>, id: Id, idOf: S -> Id, s: S)
    ensures s in Without(xs, id, idOf) <==> s in xs && idOf(s) != id
    decreases |xs|
  {
    if xs != [] {
      var init := xs[..|xs| - 1];
      WithoutMembers(init, id, idOf, s);
      assert xs == init + [xs[|xs| - 1]];
    }
  }

  /** After the removal no summary carries the id. */
  lemma {:induction false} WithoutClears<S>(xs: seq<S>, id: Id, idOf: S -> Id)
    ensures !Cites(Without(xs, id, idOf), id, idOf)
    decreases |xs|
  {
    if xs != [] {
      WithoutClears(xs[..|xs| - 1], id, idOf);
    }
  }

  /** Each surviving summary occurs as often as before; none is duplicated or lost. */
  lemma {:induction false} WithoutOccurrences<S>(xs: seq<S>, id: Id, idOf: S -> Id, s: S)
    ensures multiset(Without(xs, id, idOf))[s] == if idOf(s) == id then 0 else multiset(xs)[s]
    decreases |xs|
  {
    if xs != [] {
      var init := xs[..|xs| - 1];
      WithoutOccurrences(init, id, idOf, s);
      assert xs == init + [xs[|xs| - 1]];
    }
  }

  /** A sequence that does not cite the id is left as it is. */
  lemma {:induction false} WithoutNoop<S>(xs: seq<S>, id: Id, idOf: S -> Id)
    requires !Cites(xs, id, idOf)
    ensures Without(xs, id, idOf) == xs
    decreases |xs|
  {
    if xs != [] {
      var init := xs[..|xs| - 1];
      assert !Cites(init, id, idOf) by {
        forall i | 0 <= i < |init| ensures idOf(init[i]) != id {
          assert init[i] == xs[i];
        }
      }
      WithoutNoop(init, id, idOf);
    }
  }

  /** Removing two ids gives the same result in either order. */
  lemma {:induction false} WithoutCommutes<S>(xs: seq<S>, a: Id, b: Id, idOf: S -> Id)
    ensures Without(Without(xs, a, idOf), b, idOf) == Without(Without(xs, b, idOf), a, idOf)
    decreases |xs|
  {
    if xs != [] {
      var init, last := xs[..|xs| - 1], xs[|xs| - 1];
      WithoutCommutes(init, a, b, idOf);
      var ka := if idOf(last) == a then [] else [last];
      var kb := if idOf(last) == b then [] else [last];
      WithoutAppend(Without(init, a, idOf), ka, b, idOf);
      WithoutAppend(Without(init, b, idOf), kb, a, idOf);
      assert [last][..0] == [];
    }
  }

  /** The cleanup loop (`$validBooks` / `$validAuthors`): walks the embedded
      summaries in order and keeps those whose id differs from `id`. */
  method FilterOut<S>(xs: seq<S>, id: Id, idOf: S -> Id) returns (kept: seq<S>)
    ensures kept == Without(xs, id, idOf)
  {
    kept := [];
    var i := 0;
    while i < |xs|
      invariant 0 <= i <= |xs|
      invariant kept == Without(xs[..i], id, idOf)
    {
      assert xs[..i + 1][..i] == xs[..i];
      if idOf(xs[i]) != id {
        kept := kept + [xs[i]];
      }
      i := i + 1;
    }
    assert xs[..|xs|] == xs;
  }
}
