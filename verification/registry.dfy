/**
 The entity registry: the live enemies or bonuses of one session, kept as a
 sequence in spawn order. It removes entities that have left the playfield
 across the left edge, removes one entity on contact, and moves entities
 leftward when the physics engine advances them.
 */
module Registry {
  import opened Entities

  /** Whether an entity has scrolled past the left edge of the playfield. */
  predicate OffScreen(e: Entity) {
    e.x < 0
  }

  /** The pruning pass of one frame: every off-screen entity is destroyed and
      all others are kept, with their multiplicities and in their order
      (`PruneKeepsOrder`). */
  function Prune(es: seq<Entity>): (r: seq<Entity>)
    ensures forall e :: e in r <==> e in es && !OffScreen(e)
    ensures forall e :: multiset(r)[e] == if OffScreen(e) then 0 else multiset(es)[e]
    decreases |es|
  {
    if |es| == 0 then []
    else
      assert es == [es[0]] + es[1..];
      if OffScreen(es[0]) then Prune(es[1..]) else [es[0]] + Prune(es[1..])
  }

  /** Pruning a registry that has nothing off screen keeps it as it is. */
  lemma {:induction false} PruneOnScreen(es: seq<Entity>)
    requires forall e :: e in es ==> !OffScreen(e)
    ensures Prune(es) == es
    decreases |es|
  {
    if |es| > 0 {
      assert es[0] in es;
      assert forall e :: e in es[1..] ==> e in es;
      PruneOnScreen(es[1..]);
      assert es == [es[0]] + es[1..];
    }
  }

  /** Pruning is idempotent: a second pass in the same frame removes nothing. */
  lemma PruneIdempotent(es: seq<Entity>)
    ensures Prune(Prune(es)) == Prune(es)
  {
    PruneOnScreen(Prune(es));
  }

  /** Pruning works entity by entity, so the registry may be pruned in any
      split: pruning a concatenation prunes each part. */
  lemma {:induction false} PruneConcat(a: seq<Entity>, b: seq<Entity>)
    ensures Prune(a + b) == Prune(a) + Prune(b)
    decreases |a|
  {
    if |a| == 0 {
      assert a + b == b;
    } else {
      assert (a + b)[0] == a[0];
      assert (a + b)[1..] == a[1..] + b;
      PruneConcat(a[1..], b);
    }
  }

  /** Pruning keeps the survivors in their order: whatever it keeps from
      before position `k` comes before whatever it keeps from `k` on. */
  lemma PruneKeepsOrder(es: seq<Entity>, k: nat)
    requires k <= |es|
    ensures Prune(es) == Prune(es[..k]) + Prune(es[k..])
  {
    assert es == es[..k] + es[k..];
    PruneConcat(es[..k], es[k..]);
  }

  /** `after` is `before` with freshly spawned entities appended at its end. */
  predicate SpawnedOnto(before: seq<Entity>, after: seq<Entity>) {
    && |before| <= |after|
    && after[..|before|] == before
    && forall k :: |before| <= k < |after| ==> after[k].x == SpawnX
  }

  lemma SpawnedOntoTrans(a: seq<Entity>, b: seq<Entity>, c: seq<Entity>)
    requires SpawnedOnto(a, b) && SpawnedOnto(b, c)
    ensures SpawnedOnto(a, c)
  {
    assert c[..|a|] == c[..|b|][..|a|];
  }

  /** Freshly spawned entities are on screen, so a pruning pass keeps all of
      them and removes only from the entities that were there before. */
  lemma SpawnedOntoPrune(before: seq<Entity>, after: seq<Entity>)
    requires SpawnedOnto(before, after)
    ensures Prune(after) == Prune(before) + after[|before|..]
  {
    var added := after[|before|..];
    assert after == before + added;
    PruneConcat(before, added);
    forall e | e in added ensures !OffScreen(e) {
      var k :| 0 <= k < |added| && added[k] == e;
      assert after[|before| + k] == e;
    }
    PruneOnScreen(added);
  }

  /** Entities appended at the spawn position survive a pruning pass. */
  lemma PruneSpawned(before: seq<Entity>, added: seq<Entity>)
    requires forall k :: 0 <= k < |added| ==> added[k].x == SpawnX
    ensures Prune(before + added) == Prune(before) + added
  {
    SpawnedOntoPrune(before, before + added);
    assert (before + added)[|before|..] == added;
  }

  /** Pruning after a spawn counts the spawned entities on top of the
      pruned old registry. */
  lemma SpawnedOntoPruneCount(before: seq<Entity>, after: seq<Entity>, c: Category)
    requires SpawnedOnto(before, after)
    ensures CountOf(Prune(after), c) + CountOf(before, c) == CountOf(Prune(before), c) + CountOf(after, c)
  {
    var added := after[|before|..];
    assert after == before + added;
    SpawnedOntoPrune(before, after);
    CountOfConcat(before, added, c);
    CountOfConcat(Prune(before), added, c);
  }

  /** Every special enemy in `es` is worth `p`. */
  predicate SpecialsWorth(es: seq<Entity>, p: int) {
    forall e :: e in es && e.variant == Special ==> e.points == p
  }

  /** Pruning only removes, so it keeps the special enemies' worth, and so
      does appending entities whose special enemies have that worth. */
  lemma SpecialsWorthPrune(before: seq<Entity>, a: seq<Entity>, b: seq<Entity>, p: int)
    requires SpecialsWorth(before, p) && SpecialsWorth(a, p) && SpecialsWorth(b, p)
    ensures SpecialsWorth(Prune(before) + (a + b), p)
  {
  }

  /** The registry without the entity at `i`: the contact handlers destroy
      exactly the entity that was touched and leave every other one. */
  function Remove(es: seq<Entity>, i: int): (r: seq<Entity>)
    requires 0 <= i < |es|
    ensures |r| == |es| - 1
    ensures multiset(r) + multiset{es[i]} == multiset(es)
    ensures forall k :: 0 <= k < i ==> r[k] == es[k]
    ensures forall k :: i <= k < |r| ==> r[k] == es[k + 1]
  {
    assert es == es[..i] + [es[i]] + es[i + 1..];
    es[..i] + es[i + 1..]
  }

  /** Number of entities of category `c` in the registry. */
  function CountOf(es: seq<Entity>, c: Category): nat
    decreases |es|
  {
    if |es| == 0 then 0
    else (if CategoryOf(es[0]) == c then 1 else 0) + CountOf(es[1..], c)
  }

  lemma {:induction false} CountOfConcat(a: seq<Entity>, b: seq<Entity>, c: Category)
    ensures CountOf(a + b, c) == CountOf(a, c) + CountOf(b, c)
    decreases |a|
  {
    if |a| == 0 {
      assert a + b == b;
    } else {
      assert (a + b)[0] == a[0];
      assert (a + b)[1..] == a[1..] + b;
      CountOfConcat(a[1..], b, c);
    }
  }

  /** One physics step: every entity moves `dx` to the left and keeps its
      kind, variant and points. */
  function Advance(es: seq<Entity>, dx: nat): (r: seq<Entity>)
    ensures |r| == |es|
    ensures forall k :: 0 <= k < |es| ==> r[k].x + dx == es[k].x
    ensures forall k :: 0 <= k < |es| ==> r[k].(x := es[k].x) == es[k]
  {
    seq(|es|, k requires 0 <= k < |es| => es[k].(x := es[k].x - dx))
  }
}
