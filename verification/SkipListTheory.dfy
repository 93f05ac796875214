/** Refinement of the skip list to a finite map, collapse of the levels, replay. */
module SkipListTheory {
  import opened SkipListSpec

  // ---------------------------------------------------------------- refinement

  lemma {:induction false} MapHas(es: seq<Entry>, key: int)
    ensures key in AsMap(es) <==> HasKey(es, key)
  {
    if es != [] {
      MapHas(es[1..], key);
      if i :| 0 <= i < |es| && es[i].key == key {
        assert i > 0 ==> es[1..][i - 1].key == key;
      }
    }
  }

  /** In a sorted list the rank is where a present key sits. */
  lemma {:induction false} RankFinds(es: seq<Entry>, key: int)
    requires Sorted(es)
    ensures var p := Rank(es, key); HasKey(es, key) <==> p < |es| && es[p].key == key
    ensures forall i :: Rank(es, key) < i < |es| ==> key < es[i].key
  {
  }

  lemma {:induction false} RankIs(es: seq<Entry>, key: int, p: nat)
    requires p <= |es| && (forall i :: 0 <= i < p ==> es[i].key < key)
    requires p < |es| ==> key <= es[p].key
    ensures Rank(es, key) == p
  {
    if p > 0 { RankIs(es[1..], key, p - 1); }
  }

  lemma {:induction false} MapOfConcat(a: seq<Entry>, b: seq<Entry>)
    ensures AsMap(a + b) == AsMap(b) + AsMap(a)
  {
    if a == [] {
      assert a + b == b;
    } else {
      assert (a + b)[1..] == a[1..] + b;
      MapOfConcat(a[1..], b);
    }
  }

  lemma {:induction false} MapAround(a: seq<Entry>, e: Entry, b: seq<Entry>)
    ensures AsMap(a + [e] + b) == AsMap(b)[e.key := e.value] + AsMap(a)
  {
    assert a + [e] + b == a + ([e] + b);
    MapOfConcat(a, [e] + b);
    assert ([e] + b)[1..] == b;
  }

  /** Neither side of the rank holds the key, apart from the entry at the rank itself. */
  lemma {:induction false} RankSplits(es: seq<Entry>, key: int)
    requires Sorted(es)
    ensures var p := Rank(es, key);
            var q := if HasKey(es, key) then p + 1 else p;
            q <= |es| && key !in AsMap(es[..p]) && key !in AsMap(es[q..])
  {
    RankFinds(es, key);
    var p := Rank(es, key);
    MapHas(es[..p], key);
    MapHas(es[if HasKey(es, key) then p + 1 else p..], key);
  }

  lemma AddSorted(es: seq<Entry>, key: int, value: string)
    requires Sorted(es) && !HasKey(es, key)
    ensures Sorted(Add(es, key, value))
  {
    RankFinds(es, key);
  }

  lemma RemoveSorted(es: seq<Entry>, key: int)
    requires Sorted(es)
    ensures Sorted(Remove(es, key))
  {
  }

  lemma {:induction false} AddRefines(es: seq<Entry>, key: int, value: string)
    requires Sorted(es) && !HasKey(es, key)
    ensures AsMap(Add(es, key, value)) == AsMap(es)[key := value]
  {
    hide AsMap, Sorted, HasKey;
    var p := Rank(es, key);
    RankSplits(es, key);
    MapAround(es[..p], Entry(key, value), es[p..]);
    MapOfConcat(es[..p], es[p..]);
    assert es == es[..p] + es[p..];
  }

  lemma ExtraKey(m: Dict, n: Dict, key: int, value: string)
    requires key !in m && key !in n
    ensures n[key := value] + m - {key} == n + m
  {
  }

  lemma {:induction false} RemoveRefines(es: seq<Entry>, key: int)
    requires Sorted(es) && HasKey(es, key)
    ensures AsMap(Remove(es, key)) == AsMap(es) - {key}
  {
    RankFinds(es, key);
    hide AsMap, Sorted, HasKey, Rank;
    var p := Rank(es, key);
    RankSplits(es, key);
    var a, b := es[..p], es[p + 1..];
    MapAround(a, es[p], b);
    MapOfConcat(a, b);
    assert es == a + [es[p]] + b;
    ExtraKey(AsMap(a), AsMap(b), key, es[p].value);
  }

  lemma MissingKeyStays(s: State, key: int)
    requires !HasKey(s.entries, key)
    ensures Step(s, Delete(key)) == (s, Done)
  {
  }

  /** Every operation acts on the list exactly as on the map, reply included. */
  lemma {:induction false} StepRefinesMap(s: State, op: Op)
    requires Sorted(s.entries)
    ensures Sorted(Step(s, op).0.entries)
    ensures (AsMap(Step(s, op).0.entries), Step(s, op).1) == MapStep(AsMap(s.entries), op)
  {
    MapHas(s.entries, op.key);
    if op.Insert? && !HasKey(s.entries, op.key) {
      AddSorted(s.entries, op.key, op.value);
      AddRefines(s.entries, op.key, op.value);
    }
    if op.Delete? {
      RemoveSorted(s.entries, op.key);
      if HasKey(s.entries, op.key) { RemoveRefines(s.entries, op.key); }
      else { assert AsMap(s.entries) - {op.key} == AsMap(s.entries); }
    }
  }

  /** Every run, whatever the draws: same final map and same replies. */
  lemma {:induction false} RunRefinesMap(s: State, ops: seq<Op>)
    requires Sorted(s.entries)
    ensures Sorted(Run(s, ops).0.entries)
    ensures (AsMap(Run(s, ops).0.entries), Run(s, ops).1) == MapRun(AsMap(s.entries), ops)
    decreases |ops|
  {
    if ops != [] {
      StepRefinesMap(s, ops[0]);
      RunRefinesMap(Step(s, ops[0]).0, ops[1..]);
    }
  }

  lemma {:induction false} RunAppend(s: State, ops: seq<Op>, op: Op)
    ensures var (mid, replies) := Run(s, ops);
            var (end, reply) := Step(mid, op);
            Run(s, ops + [op]) == (end, replies + [reply])
    decreases |ops|
  {
    if ops == [] {
      var one := ops + [op];
      assert one == [op] && one[1..] == [];
      var (s1, reply) := Step(s, op);
      assert Run(s1, one[1..]) == (s1, []) && Run(s, ops) == (s, []);
      assert Run(s, one) == (s1, [reply] + []);
      assert [reply] + [] == [] + [reply];
    } else {
      assert (ops + [op])[1..] == ops[1..] + [op];
      var (s1, first) := Step(s, ops[0]);
      RunAppend(s1, ops[1..], op);
      var (mid, replies) := Run(s1, ops[1..]);
      assert [first] + (replies + [Step(mid, op).1]) == [first] + replies + [Step(mid, op).1];
    }
  }

  lemma {:induction false} SuccessesAppend(replies: seq<Reply>, reply: Reply)
    ensures Successes(replies + [reply]) == Successes(replies) + if reply == Code(0) then 1 else 0
  {
    if replies == [] {
      assert replies + [reply] == [reply];
    } else {
      assert (replies + [reply])[1..] == replies[1..] + [reply];
      SuccessesAppend(replies[1..], reply);
    }
  }

  lemma InsertCounts(s: State, key: int, value: string, draws: seq<nat>)
    ensures var (t, reply) := Step(s, Insert(key, value, draws));
            |t.entries| == |s.entries| + if reply == Code(0) then 1 else 0
  {
  }

  // ---------------------------------------------------------------- levels

  /** A tall node, a short one, and the tall one deleted: the level has come down from 2 to 1. */
  lemma TallThenShort()
    ensures Step(State([], 2, 0), Insert(1, "a", [1])) == (State([Entry(1, "a")], 2, 0), Code(0))
    ensures Step(State([Entry(1, "a")], 2, 0), Insert(5, "b", []))
         == (State([Entry(1, "a"), Entry(5, "b")], 1, 0), Code(0))
    ensures Step(State([Entry(1, "a"), Entry(5, "b")], 1, 0), Delete(1)) == (State([Entry(5, "b")], 1, -1), Done)
  {
    var none: seq<Entry>, one, two, three := [], [Entry(1, "a")], [Entry(1, "a"), Entry(5, "b")], [Entry(5, "b")];
    var draws := [1];
    OddRunOfOnes(draws);
    assert RandomLevel(draws, 2) == 2 && RandomLevel([], 2) == 1;
    RankIs(none, 1, 0);
    assert !HasKey(none, 1) && Add(none, 1, "a") == one;
    RankIs(one, 5, 1);
    assert !HasKey(one, 5) && Add(one, 5, "b") == two;
    RankIs(two, 1, 0);
    assert two[0].key == 1 && HasKey(two, 1) && two[1..] == three && Remove(two, 1) == three;
  }

  /** A drawn level lies between 1 and the current level, or is 0 when that is 0; each level in
      the range is drawn by some run of rand(). */
  lemma {:induction false} RandomLevelRange(level: nat, maxLevel: nat)
    ensures (exists draws :: RandomLevel(draws, maxLevel) == level)
        <==> if maxLevel == 0 then level == 0 else 1 <= level <= maxLevel
  {
    if 1 <= level <= maxLevel {
      var draws := seq(level - 1, _ => 1);
      OddRunOfOnes(draws);
      assert RandomLevel(draws, maxLevel) == level;
    }
    if level == 0 == maxLevel { assert RandomLevel([], maxLevel) == level; }
  }

  lemma {:induction false} OddRunIs(draws: seq<nat>, k: nat)
    requires k <= |draws| && forall i :: 0 <= i < k ==> draws[i] % 2 == 1
    requires k < |draws| ==> draws[k] % 2 == 0
    ensures OddRun(draws) == k
  {
    if k > 0 { OddRunIs(draws[1..], k - 1); }
  }

  /** k odd draws before an even one, or before the end, give level k + 1, capped. */
  lemma {:induction false} RandomLevelIs(draws: seq<nat>, k: nat, maxLevel: nat)
    requires k <= |draws| && forall i :: 0 <= i < k ==> draws[i] % 2 == 1
    requires k < |draws| ==> draws[k] % 2 == 0
    ensures RandomLevel(draws, maxLevel) <= k + 1 && RandomLevel(draws, maxLevel) <= maxLevel
    ensures RandomLevel(draws, maxLevel) in {k + 1, maxLevel}
  {
    OddRunIs(draws, k);
  }

  lemma {:induction false} OddRunOfOnes(draws: seq<nat>)
    requires forall i :: 0 <= i < |draws| ==> draws[i] == 1
    ensures OddRun(draws) == |draws|
  {
    if draws != [] { OddRunOfOnes(draws[1..]); }
  }

  lemma {:induction false} StepKeepsLevel(s: State, op: Op)
    ensures Step(s, op).0.maxLevel <= s.maxLevel
    ensures Step(s, op).1 == Code(0) ==> Step(s, op).0.maxLevel <= 1 + OddRun(op.draws)
    ensures op.Delete? && Step(s, op).0.entries == [] && s.entries != [] ==> Step(s, op).0.maxLevel == 0
  {
  }

  /** The level never grows over a run; it stays at or below every level drawn by an insert that
      succeeded, and once a deletion has emptied the list it is zero for good. */
  lemma {:induction false} LevelCollapse(s: State, before: seq<Op>, op: Op, after: seq<Op>)
    ensures var mid := Run(s, before).0;
            var next := Step(mid, op);
            var last := Run(s, before + [op] + after).0;
            && last.maxLevel <= mid.maxLevel <= s.maxLevel
            && (next.1 == Code(0) ==> last.maxLevel <= 1 + OddRun(op.draws))
            && (op.Delete? && mid.entries != [] && next.0.entries == [] ==> last.maxLevel == 0)
    decreases |before|
  {
    if before == [] {
      assert ([] + [op] + after)[1..] == after;
      StepKeepsLevel(s, op);
      LevelBound(Step(s, op).0, after);
    } else {
      assert (before + [op] + after)[1..] == before[1..] + [op] + after;
      LevelCollapse(Step(s, before[0]).0, before[1..], op, after);
    }
  }

  /** The level after the first i operations is what it was before them, drawn by one of them that
      inserted, or zero because one emptied the list; with LevelCollapse, the least of these. */
  lemma {:induction false} LevelIsAttained(s: State, ops: seq<Op>)
    ensures var level := Run(s, ops).0.maxLevel;
            || level == s.maxLevel
            || exists i :: 0 <= i < |ops| && SetsLevel(Run(s, ops[..i]).0, ops[i], level)
    decreases |ops|
  {
    if ops != [] {
      var rest, last := ops[..|ops| - 1], ops[|ops| - 1];
      assert ops == rest + [last];
      RunAppend(s, rest, last);
      var mid := Run(s, rest).0;
      LevelIsAttained(s, rest);
      var level := Step(mid, last).0.maxLevel;
      if level != mid.maxLevel {
        assert SetsLevel(mid, last, level);
      } else if level != s.maxLevel {
        var i :| 0 <= i < |rest| && SetsLevel(Run(s, rest[..i]).0, rest[i], level);
        assert rest[..i] == ops[..i];
      }
    }
  }

  predicate SetsLevel(s: State, op: Op, level: nat) {
    || (Step(s, op).1 == Code(0) && level == 1 + OddRun(op.draws))
    || (op.Delete? && s.entries != [] && Step(s, op).0.entries == [] && level == 0)
  }

  /** size(): the counter falls behind the number of keys by one with every insert that succeeds. */
  lemma {:induction false} CounterDrifts(s: State, ops: seq<Op>)
    requires Sorted(s.entries)
    ensures var (end, replies) := Run(s, ops);
            end.nodeCount - |end.entries| == s.nodeCount - |s.entries| - Successes(replies)
    decreases |ops|
  {
    if ops != [] {
      var (next, reply) := Step(s, ops[0]);
      StepRefinesMap(s, ops[0]);
      CounterDrifts(next, ops[1..]);
      assert ([reply] + Run(next, ops[1..]).1)[1..] == Run(next, ops[1..]).1;
      hide Run, Successes;
      if ops[0].Delete? && HasKey(s.entries, ops[0].key) { RankOfKey(s.entries, ops[0].key); }
    }
  }

  lemma {:induction false} RankOfKey(es: seq<Entry>, key: int)
    requires Sorted(es) && HasKey(es, key)
    ensures Rank(es, key) < |es| && es[Rank(es, key)].key == key
  {
    var i :| 0 <= i < |es| && es[i].key == key;
    RankIs(es, key, i);
  }

  lemma {:induction false} LevelBound(s: State, ops: seq<Op>)
    ensures Run(s, ops).0.maxLevel <= s.maxLevel
    decreases |ops|
  {
    if ops != [] { LevelBound(Step(s, ops[0]).0, ops[1..]); }
  }

  // ---------------------------------------------------------------- replay

  lemma {:induction false} MapRunSplit(m: Dict, a: seq<Op>, b: seq<Op>)
    ensures MapRun(m, a + b).0 == MapRun(MapRun(m, a).0, b).0
    decreases |a|
  {
    if a == [] {
      assert a + b == b;
    } else {
      assert (a + b)[1..] == a[1..] + b;
      MapRunSplit(MapStep(m, a[0]).0, a[1..], b);
    }
  }

  predicate Deletes(ops: seq<Op>, key: int) {
    exists i :: 0 <= i < |ops| && ops[i] == Delete(key)
  }

  predicate SameAt(m: Dict, n: Dict, key: int) {
    (key in m <==> key in n) && (key in m ==> m[key] == n[key])
  }

  lemma SameEverywhere(m: Dict, n: Dict)
    requires forall key :: SameAt(m, n, key)
    ensures m == n
  {
    forall key | key in m || key in n ensures key in m && key in n && m[key] == n[key] {
      assert SameAt(m, n, key);
    }
  }

  lemma {:induction false} RunFollowsKey(m: Dict, n: Dict, ops: seq<Op>, key: int)
    requires SameAt(m, n, key)
    ensures SameAt(MapRun(m, ops).0, MapRun(n, ops).0, key)
    decreases |ops|
  {
    if ops != [] { RunFollowsKey(MapStep(m, ops[0]).0, MapStep(n, ops[0]).0, ops[1..], key); }
  }

  /** A run that deletes the key somewhere forgets how the key started. */
  lemma {:induction false} DeleteForgets(m: Dict, n: Dict, ops: seq<Op>, key: int)
    requires Deletes(ops, key)
    ensures SameAt(MapRun(m, ops).0, MapRun(n, ops).0, key)
    decreases |ops|
  {
    var m1, n1 := MapStep(m, ops[0]).0, MapStep(n, ops[0]).0;
    if ops[0] == Delete(key) {
      RunFollowsKey(m1, n1, ops[1..], key);
    } else {
      var i :| 0 <= i < |ops| && ops[i] == Delete(key);
      assert ops[1..][i - 1] == Delete(key);
      DeleteForgets(m1, n1, ops[1..], key);
    }
  }

  /** Without a deletion a present key keeps its value. */
  lemma {:induction false} PresentStays(m: Dict, ops: seq<Op>, key: int)
    requires key in m && !Deletes(ops, key)
    ensures SameAt(m, MapRun(m, ops).0, key)
    decreases |ops|
  {
    if ops != [] {
      assert ops[0] != Delete(key);
      assert forall i :: 0 <= i < |ops[1..]| ==> ops[1..][i] == ops[i + 1];
      PresentStays(MapStep(m, ops[0]).0, ops[1..], key);
    }
  }

  /** Without an insert an absent key stays absent. */
  lemma {:induction false} AbsentAfterRun(m: Dict, ops: seq<Op>, key: int)
    requires key !in m && !Deletes(ops, key) && key !in MapRun(m, ops).0
    ensures forall i :: 0 <= i < |ops| ==> !(ops[i].Insert? && ops[i].key == key)
    decreases |ops|
  {
    if ops != [] {
      assert forall i :: 0 <= i < |ops[1..]| ==> ops[1..][i] == ops[i + 1];
      var m1 := MapStep(m, ops[0]).0;
      if key in m1 {
        PresentStays(m1, ops[1..], key);
        assert false;
      }
      AbsentAfterRun(m1, ops[1..], key);
      assert forall i :: 1 <= i < |ops| ==> ops[i] == ops[1..][i - 1];
    }
  }

  lemma {:induction false} UntouchedStaysAbsent(m: Dict, ops: seq<Op>, key: int)
    requires key !in m
    requires forall i :: 0 <= i < |ops| ==> !(ops[i].Insert? && ops[i].key == key)
    ensures key !in MapRun(m, ops).0
    decreases |ops|
  {
    if ops != [] { UntouchedStaysAbsent(MapStep(m, ops[0]).0, ops[1..], key); }
  }

  /** Replaying a log of operations onto its own result changes nothing, from any start. */
  lemma {:induction false} ReplayIsIdempotent(m: Dict, ops: seq<Op>)
    ensures MapRun(MapRun(m, ops).0, ops).0 == MapRun(m, ops).0
    ensures MapRun(m, ops + ops).0 == MapRun(m, ops).0
  {
    var once := MapRun(m, ops).0;
    var twice := MapRun(once, ops).0;
    forall key ensures SameAt(once, twice, key) {
      if Deletes(ops, key) {
        DeleteForgets(m, once, ops, key);
      } else if key in once {
        PresentStays(once, ops, key);
      } else if key !in m {
        AbsentAfterRun(m, ops, key);
        UntouchedStaysAbsent(once, ops, key);
      } else {
        PresentStays(m, ops, key);
      }
    }
    SameEverywhere(once, twice);
    MapRunSplit(m, ops, ops);
  }

  /** The log without the inserts that were refused and without searches. */
  function Effective(m: Dict, ops: seq<Op>): seq<Op>
    decreases |ops|
  {
    if ops == [] then []
    else
      var (m1, reply) := MapStep(m, ops[0]);
      (if reply == Code(0) || reply == Done then [ops[0]] else []) + Effective(m1, ops[1..])
  }

  /** Keeping only the operations that took effect, as the append-only log does, loses nothing. */
  lemma {:induction false} EffectiveReplays(m: Dict, ops: seq<Op>)
    ensures MapRun(m, Effective(m, ops)).0 == MapRun(m, ops).0
    ensures MapRun(MapRun(m, ops).0, Effective(m, ops)).0 == MapRun(m, ops).0
    decreases |ops|
  {
    EffectiveSameEnd(m, ops);
    ReplayIsIdempotent(m, Effective(m, ops));
  }

  lemma {:induction false} EffectiveSameEnd(m: Dict, ops: seq<Op>)
    ensures MapRun(m, Effective(m, ops)).0 == MapRun(m, ops).0
    decreases |ops|
  {
    if ops != [] {
      var (m1, reply) := MapStep(m, ops[0]);
      EffectiveSameEnd(m1, ops[1..]);
      if reply == Code(0) || reply == Done {
        assert Effective(m, ops)[1..] == Effective(m1, ops[1..]);
      } else {
        assert Effective(m, ops) == Effective(m1, ops[1..]);
      }
    }
  }
}
