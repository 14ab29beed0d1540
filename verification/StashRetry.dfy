/** The stash shared in form by the reference finders: frames that have to wait, retried in passes until a pass
    hands nothing off. `manage` is the finder's decision on one frame. */
module StashRetry {
  const MAX_STASHED_FRAMES := 100

  datatype Decision<+H> = Stash | Drop | HandOff(handed: H)

  /** What one pass over the stash, or all of them, leaves and hands off. */
  datatype Pass<+C, +F, +H> = Pass(core: C, kept: seq<F>, handed: seq<H>)

  type Manager<!C, !F, !H> = (C, F) -> (C, Decision<H>)

  /** One pass over the stashed frames. */
  function RetryPass<C, F, H>(manage: Manager<C, F, H>, c: C, pending: seq<F>): (r: Pass<C, F, H>)
    ensures |r.kept| + |r.handed| <= |pending|
    decreases |pending|
  {
    if pending == [] then Pass(c, [], [])
    else
      var (c1, decision) := manage(c, pending[0]);
      var rest := RetryPass(manage, c1, pending[1..]);
      match decision
      case Stash => rest.(kept := [pending[0]] + rest.kept)
      case HandOff(h) => rest.(handed := [h] + rest.handed)
      case Drop => rest
  }

  /** RetryStashedFrames: passes until one hands nothing off. */
  function Retry<C, F, H>(manage: Manager<C, F, H>, c: C, stash: seq<F>): (r: Pass<C, F, H>)
    ensures |r.kept| <= |stash|
    decreases |stash|
  {
    var pass := RetryPass(manage, c, stash);
    if pass.handed == [] then pass
    else
      var rest := Retry(manage, pass.core, pass.kept);
      rest.(handed := pass.handed + rest.handed)
  }

  /** A frame is stashed in front; the oldest one makes room when there are too many. */
  function PushStash<F>(stash: seq<F>, f: F): (r: seq<F>)
    ensures |stash| <= MAX_STASHED_FRAMES + 1 ==> |r| <= MAX_STASHED_FRAMES + 1
  {
    [f] + if |stash| > MAX_STASHED_FRAMES then stash[..|stash| - 1] else stash
  }

  function Without<F>(stash: seq<F>, it: nat): seq<F>
    requires it < |stash|
  {
    stash[..it] + stash[it + 1..]
  }

  /** What a stash is cleared of, in order. */
  function DropWhere<F>(stash: seq<F>, drop: F -> bool): (kept: seq<F>)
    ensures |kept| <= |stash|
    ensures forall f | f in stash :: f in kept <==> !drop(f)
    ensures forall f | f in kept :: f in stash
  {
    if stash == [] then [] else (if drop(stash[0]) then [] else [stash[0]]) + DropWhere(stash[1..], drop)
  }

  /** The erasing loop of ClearTo. */
  method EraseWhere<F>(frames: seq<F>, drop: F -> bool) returns (stash: seq<F>)
    ensures stash == DropWhere(frames, drop)
  {
    stash := frames;
    var it := 0;
    while it < |stash|
      invariant it <= |stash|
      invariant stash[..it] + DropWhere(stash[it..], drop) == DropWhere(frames, drop)
      decreases |stash| - it
    {
      EraseStep(stash, it, drop);
      if drop(stash[it]) {
        stash := Without(stash, it);
      } else {
        it := it + 1;
      }
    }
    assert DropWhere(stash[it..], drop) == [] && stash[..it] + [] == stash;
  }

  lemma EraseStep<F>(stash: seq<F>, it: nat, drop: F -> bool)
    requires it < |stash|
    ensures stash[..it] + DropWhere(stash[it..], drop) ==
            if drop(stash[it]) then Without(stash, it)[..it] + DropWhere(Without(stash, it)[it..], drop)
            else stash[..it + 1] + DropWhere(stash[it + 1..], drop)
  {
    var rest := DropWhere(stash[it + 1..], drop);
    assert stash[it..][1..] == stash[it + 1..] && stash[it..][0] == stash[it];
    WithoutSlices(stash, it, rest);
    assert [] + rest == rest;
  }

  // ----- the pass as an iteration over positions

  /** A pass that has handed off `handed` and kept the frames before `it` still has to reach `target`. */
  ghost predicate Passing<C, F, H>(manage: Manager<C, F, H>, target: Pass<C, F, H>, c: C, stash: seq<F>, it: nat, handed: seq<H>)
    requires it <= |stash|
  {
    var rest := RetryPass(manage, c, stash[it..]);
    && target.core == rest.core
    && target.kept == stash[..it] + rest.kept
    && target.handed == handed + rest.handed
  }

  lemma PassBegins<C, F, H>(manage: Manager<C, F, H>, c: C, stash: seq<F>)
    ensures Passing(manage, RetryPass(manage, c, stash), c, stash, 0, [])
  {
    assert stash[0..] == stash;
  }

  lemma PassEnds<C, F, H>(manage: Manager<C, F, H>, target: Pass<C, F, H>, c: C, stash: seq<F>, handed: seq<H>)
    requires Passing(manage, target, c, stash, |stash|, handed)
    ensures target == Pass(c, stash, handed)
  {
    assert stash[..|stash|] == stash && stash + [] == stash && handed + [] == handed;
  }

  /** Moving past a kept frame, or erasing one, brings the pass one frame further. */
  lemma PassStep<C, F, H>(manage: Manager<C, F, H>, target: Pass<C, F, H>, c: C, stash: seq<F>, it: nat, handed: seq<H>)
    requires it < |stash| && Passing(manage, target, c, stash, it, handed)
    ensures var (c', decision) := manage(c, stash[it]);
            match decision
            case Stash => Passing(manage, target, c', stash, it + 1, handed)
            case HandOff(h) => Passing(manage, target, c', Without(stash, it), it, handed + [h])
            case Drop => Passing(manage, target, c', Without(stash, it), it, handed)
  {
    var (c', decision) := manage(c, stash[it]);
    var rest := RetryPass(manage, c', stash[it + 1..]);
    assert stash[it..][0] == stash[it] && stash[it..][1..] == stash[it + 1..];
    WithoutSlices(stash, it, rest.kept);
    if decision.HandOff? {
      assert handed + ([decision.handed] + rest.handed) == (handed + [decision.handed]) + rest.handed;
    }
  }

  lemma WithoutSlices<F>(stash: seq<F>, it: nat, kept: seq<F>)
    requires it < |stash|
    ensures Without(stash, it)[it..] == stash[it + 1..] && Without(stash, it)[..it] == stash[..it]
    ensures stash[..it] + ([stash[it]] + kept) == stash[..it + 1] + kept
  {
    assert stash[..it + 1] == stash[..it] + [stash[it]];
  }

  lemma RetryStep<C, F, H>(manage: Manager<C, F, H>, c: C, stash: seq<F>, res: seq<H>)
    ensures var pass := RetryPass(manage, c, stash);
            var target := Retry(manage, c, stash);
            var rest := if pass.handed != [] then Retry(manage, pass.core, pass.kept) else Pass(pass.core, pass.kept, []);
            target.core == rest.core && target.kept == rest.kept
            && res + target.handed == (res + pass.handed) + rest.handed
  {
  }
}
