/**
 A session driven by the game engine: a sequence of events, each a frame
 update, a physics step moving every entity leftward, or a contact reported
 by the collision test. The engine pauses its physics when the game ends, so
 it reports no contact and moves nothing afterwards; it also reports
 contacts only with live entities. Frames keep calling the update, which
 then does nothing.
 */
module Engine {
  import opened Entities
  import opened Registry
  import opened GameSession

  datatype Event =
    | Frame(time: int, enemyRoll: int, bonusRoll: int)
    | Scroll(dx: nat)
    | EnemyContact(index: int)
    | BonusContact(index: int)

  /** The die rolls of a frame are in the ranges the game draws from. */
  predicate ValidEvent(ev: Event) {
    ev.Frame? ==> 1 <= ev.enemyRoll <= 4 && 1 <= ev.bonusRoll <= 3
  }

  predicate ValidEvents(evs: seq<Event>) {
    forall k :: 0 <= k < |evs| ==> ValidEvent(evs[k])
  }

  /** Applies one event as the engine delivers it. */
  function Step(s: Session, ev: Event): (r: Session)
    requires ValidEvent(ev)
    ensures s.gameOver ==> r == s
    ensures ev.Frame? || ev.Scroll? ==> r.score == s.score
    ensures forall c :: Watermark(s, c) <= Watermark(r, c)
    ensures WellFormed(s) ==> WellFormed(r)
  {
    match ev
    case Frame(t, er, br) =>
      if s.gameOver then Tick(s, t, er, br)
      else TickWatermarks(s, t, er, br); Tick(s, t, er, br)
    case Scroll(dx) =>
      if s.gameOver then s
      else
        assert forall k :: 0 <= k < |s.enemies| ==> Advance(s.enemies, dx)[k].(x := s.enemies[k].x) == s.enemies[k];
        s.(enemies := Advance(s.enemies, dx), bonuses := Advance(s.bonuses, dx))
    case EnemyContact(i) =>
      if !s.gameOver && 0 <= i < |s.enemies| then HitEnemy(s, i) else s
    case BonusContact(i) =>
      if !s.gameOver && 0 <= i < |s.bonuses| then CollectBonus(s, i) else s
  }

  function Run(s: Session, evs: seq<Event>): Session
    requires ValidEvents(evs)
    decreases |evs|
  {
    if |evs| == 0 then s else Run(Step(s, evs[0]), evs[1..])
  }

  /** Once the game is over, no sequence of events changes anything: not
      the score, the watermarks, the registries, nor the flag. */
  lemma {:induction false} RunFrozen(s: Session, evs: seq<Event>)
    requires ValidEvents(evs)
    requires s.gameOver
    ensures Run(s, evs) == s
    decreases |evs|
  {
    if |evs| > 0 {
      RunFrozen(Step(s, evs[0]), evs[1..]);
    }
  }

  /** A run is its prefix followed by its suffix. */
  lemma {:induction false} RunSplit(s: Session, evs: seq<Event>, k: nat)
    requires ValidEvents(evs)
    requires k <= |evs|
    ensures ValidEvents(evs[..k]) && ValidEvents(evs[k..])
    ensures Run(s, evs) == Run(Run(s, evs[..k]), evs[k..])
    decreases k
  {
    assert forall j :: 0 <= j < k ==> evs[..k][j] == evs[j];
    assert forall j :: 0 <= j < |evs| - k ==> evs[k..][j] == evs[k + j];
    if k > 0 {
      var tail := evs[1..];
      assert evs[..k][1..] == tail[..k - 1];
      assert evs[k..] == tail[k - 1..];
      RunSplit(Step(s, evs[0]), tail, k - 1);
    }
  }

  /** The game-over flag, once set, is never cleared. */
  lemma RunKeepsGameOver(s: Session, evs: seq<Event>, k: nat)
    requires ValidEvents(evs)
    requires k <= |evs|
    requires ValidEvents(evs[..k]) && Run(s, evs[..k]).gameOver
    ensures Run(s, evs).gameOver
  {
    RunSplit(s, evs, k);
    RunFrozen(Run(s, evs[..k]), evs[k..]);
  }

  /** Every session the engine can reach from the start is well formed:
      enemies are catalog enemies or the special one, bonuses are catalog
      bonuses. */
  lemma {:induction false} RunWellFormed(s: Session, evs: seq<Event>)
    requires ValidEvents(evs)
    requires WellFormed(s)
    ensures WellFormed(Run(s, evs))
    decreases |evs|
  {
    if |evs| > 0 {
      RunWellFormed(Step(s, evs[0]), evs[1..]);
    }
  }

  /** Whether event `ev` spawns an entity of category `c` in session `s`. */
  predicate SpawnsAt(s: Session, ev: Event, c: Category) {
    ev.Frame? && !s.gameOver && Due(s, c, ev.time)
  }

  /** A spawning frame moves the watermark of its category to the frame time
      plus the interval. */
  lemma SpawnMovesWatermark(s: Session, ev: Event, c: Category)
    requires ValidEvent(ev) && SpawnsAt(s, ev, c)
    ensures Watermark(Step(s, ev), c) == ev.time + Interval(c)
  {
    TickWatermarks(s, ev.time, ev.enemyRoll, ev.bonusRoll);
  }

  /** The frame times at which category `c` spawns along a run. */
  function Emissions(s: Session, evs: seq<Event>, c: Category): seq<int>
    requires ValidEvents(evs)
    decreases |evs|
  {
    if |evs| == 0 then []
    else (if SpawnsAt(s, evs[0], c) then [evs[0].time] else []) + Emissions(Step(s, evs[0]), evs[1..], c)
  }

  /** Every time in `ts` is later than `w`. */
  predicate AllAfter(ts: seq<int>, w: int) {
    forall k :: 0 <= k < |ts| ==> ts[k] > w
  }

  /** Any two times of `ts` are more than `gap` apart, in order. */
  predicate Spaced(ts: seq<int>, gap: int) {
    forall i, j :: 0 <= i < j < |ts| ==> ts[j] > ts[i] + gap
  }

  lemma SpacedCons(t: int, ts: seq<int>, gap: int)
    requires AllAfter(ts, t + gap) && Spaced(ts, gap)
    ensures Spaced([t] + ts, gap)
  {
    var all := [t] + ts;
    forall i, j | 0 <= i < j < |all| ensures all[j] > all[i] + gap {
      assert all[j] == ts[j - 1];
      if i > 0 {
        assert all[i] == ts[i - 1];
      }
    }
  }

  /** Every spawn of `c` along a run happens after the watermark of `c` at
      the start of the run. */
  lemma {:induction false} EmissionsAfterWatermark(s: Session, evs: seq<Event>, c: Category)
    requires ValidEvents(evs)
    ensures AllAfter(Emissions(s, evs, c), Watermark(s, c))
    decreases |evs|
  {
    if |evs| > 0 {
      var s1 := Step(s, evs[0]);
      EmissionsAfterWatermark(s1, evs[1..], c);
      assert Watermark(s, c) <= Watermark(s1, c);
    }
  }

  /** Two spawns of the same category along a run are always more than that
      category's interval apart: the later one is strictly later than the
      earlier one plus the interval. */
  lemma {:induction false} EmissionsSeparated(s: Session, evs: seq<Event>, c: Category)
    requires ValidEvents(evs)
    ensures Spaced(Emissions(s, evs, c), Interval(c))
    decreases |evs|
  {
    if |evs| > 0 {
      var ev := evs[0];
      var s1 := Step(s, ev);
      var rest := Emissions(s1, evs[1..], c);
      EmissionsSeparated(s1, evs[1..], c);
      if SpawnsAt(s, ev, c) {
        SpawnMovesWatermark(s, ev, c);
        EmissionsAfterWatermark(s1, evs[1..], c);
        assert Emissions(s, evs, c) == [ev.time] + rest;
        SpacedCons(ev.time, rest, Interval(c));
      } else {
        assert Emissions(s, evs, c) == [] + rest;
      }
    }
  }

  /** A spawn of `c` is exactly a frame of a running game that passes the
      watermark, and it adds exactly one entity of `c` before pruning. */
  lemma FrameSpawnsOnce(s: Session, ev: Event, c: Category)
    requires ValidEvent(ev) && ev.Frame? && !s.gameOver
    ensures |Emissions(s, [ev], c)| == (if Due(s, c, ev.time) then 1 else 0)
    ensures CountIn(Step(s, ev), c) == CountIn(PruneAll(s), c) + |Emissions(s, [ev], c)|
  {
    TickSpawnCounts(s, ev.time, ev.enemyRoll, ev.bonusRoll);
    assert Emissions(s, [ev], c) == (if Due(s, c, ev.time) then [ev.time] else []) + Emissions(Step(s, ev), [], c);
  }

  /** An entity that a physics step carries past the left edge is still
      registered until the next frame of a running game, which destroys it;
      so it takes part in no later contact. This holds for enemies and
      bonuses alike. */
  lemma ScrolledOffIsPruned(s: Session, dx: nat, ev: Event, e: Entity)
    requires ValidEvent(ev) && ev.Frame? && !s.gameOver
    requires e in s.enemies || e in s.bonuses
    requires e.x < dx
    ensures e in s.enemies ==> e.(x := e.x - dx) in Step(s, Scroll(dx)).enemies
    ensures e in s.enemies ==> e.(x := e.x - dx) !in Step(Step(s, Scroll(dx)), ev).enemies
    ensures e in s.bonuses ==> e.(x := e.x - dx) in Step(s, Scroll(dx)).bonuses
    ensures e in s.bonuses ==> e.(x := e.x - dx) !in Step(Step(s, Scroll(dx)), ev).bonuses
  {
    var s1 := Step(s, Scroll(dx));
    if e in s.enemies {
      var k :| 0 <= k < |s.enemies| && s.enemies[k] == e;
      assert s1.enemies[k] == e.(x := e.x - dx);
    }
    if e in s.bonuses {
      var k :| 0 <= k < |s.bonuses| && s.bonuses[k] == e;
      assert s1.bonuses[k] == e.(x := e.x - dx);
    }
  }

  /** An event that leaves the score alone: a frame or a physics step. */
  predicate Quiet(ev: Event) {
    ev.Frame? || ev.Scroll?
  }

  /** A physics step moves entities without changing their points. */
  lemma ScrollKeepsSpecialsWorth(es: seq<Entity>, dx: nat, p: int)
    requires SpecialsWorth(es, p)
    ensures SpecialsWorth(Advance(es, dx), p)
  {
    var r := Advance(es, dx);
    forall e | e in r && e.variant == Special ensures e.points == p {
      var k :| 0 <= k < |r| && r[k] == e;
      assert es[k] in es;
    }
  }

  /** A run of frames and physics steps keeps the score and keeps every
      live special enemy worth the negated score, including the special
      enemies its frames spawn. */
  lemma {:induction false} QuietRunKeepsSpecialsPayScore(s: Session, evs: seq<Event>)
    requires ValidEvents(evs)
    requires forall k :: 0 <= k < |evs| ==> Quiet(evs[k])
    requires SpecialsPayScore(s)
    ensures Run(s, evs).score == s.score
    ensures SpecialsPayScore(Run(s, evs))
    decreases |evs|
  {
    if |evs| > 0 {
      var ev := evs[0];
      var s1 := Step(s, ev);
      match ev {
        case Frame(t, er, br) =>
          TickKeepsSpecialsPayScore(s, t, er, br);
        case Scroll(dx) =>
          ScrollKeepsSpecialsWorth(s.enemies, dx, -s.score);
      }
      QuietRunKeepsSpecialsPayScore(s1, evs[1..]);
    }
  }

  /** Starting from a session whose live special enemies all pay the score
      (such as a new one), after any number of frames and physics steps with
      no contact in between, hitting any live special enemy, whether it was
      there at the start or spawned by one of those frames, takes the score
      to exactly zero and ends the game; the threshold rule would agree. */
  lemma QuietRunThenHitSpecial(s: Session, evs: seq<Event>, i: int)
    requires SpecialsPayScore(s)
    requires ValidEvents(evs)
    requires forall k :: 0 <= k < |evs| ==> Quiet(evs[k])
    requires !Run(s, evs).gameOver
    requires 0 <= i < |Run(s, evs).enemies| && Run(s, evs).enemies[i].variant == Special
    ensures HitEnemy(Run(s, evs), i).score == 0
    ensures HitEnemy(Run(s, evs), i).gameOver && Crossed(HitEnemy(Run(s, evs), i).score)
  {
    QuietRunKeepsSpecialsPayScore(s, evs);
    var r := Run(s, evs);
    assert r.enemies[i] in r.enemies;
    HitSpecialZeroes(r, i);
  }
}
