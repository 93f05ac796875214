/** The linked structure of skiplist/skiplist.cpp and node/node.cpp on the heap, proved to
    take the steps of SkipListSpec. */
module SkipLists {
  import opened Wrappers
  import opened SkipListSpec
  import Theory = SkipListTheory
  import Decimal
  import opened DumpFormat
  import DumpTheory

  /** A node; freeCount counts how often it has been deleted. Every read of a field needs a
      node that has not been. */
  class Node {
    const key: int
    const value: string
    const nodeLevel: nat
    const forward: array<Node?>
    ghost var freeCount: nat

    constructor (k: int, v: string, level: nat)
      ensures key == k && value == v && nodeLevel == level && freeCount == 0
      ensures fresh(forward) && forward.Length == level + 1
      ensures forall i :: 0 <= i <= level ==> forward[i] == null
    {
      key, value, nodeLevel := k, v, level;
      forward := new Node?[level + 1](_ => null);
      freeCount := 0;
    }

    function Next(i: int): Node?
      requires freeCount == 0 && 0 <= i < forward.Length
      reads this, forward
    {
      forward[i]
    }

    function GetKey(): int
      requires freeCount == 0
      reads this
    {
      key
    }

    function GetValue(): string
      requires freeCount == 0
      reads this
    {
      value
    }

    method SetNext(i: int, n: Node?)
      requires freeCount == 0 && 0 <= i < forward.Length
      modifies forward
      ensures forward[..] == old(forward[..])[i := n]
    {
      forward[i] := n;
    }

    method Delete()
      modifies this
      ensures freeCount == old(freeCount) + 1
    {
      freeCount := freeCount + 1;
    }
  }

  class SkipList {
    const head: Node
    var maxLevel: nat
    var nodeCount: int
    ghost var nodes: seq<Node>  // the list, in order, without the head
    ghost var created: set<Node>  // every node there ever was, the head included
    ghost var Repr: set<object>

    /** The j-th node of the list, the head being number 0. */
    ghost function At(j: nat): Node
      requires j <= |nodes|
      reads this
    {
      if j == 0 then head else nodes[j - 1]
    }

    ghost function After(j: nat): Node?
      requires j <= |nodes|
      reads this
    {
      if j < |nodes| then nodes[j] else null
    }

    ghost predicate Owned()
      reads this
    {
      && this in Repr && head in created
      && (forall n :: n in created ==> n in Repr && n.forward in Repr && n.forward.Length == n.nodeLevel + 1)
      && (forall m, n :: m in created && n in created && m != n ==> m.forward != n.forward)
      && (forall j :: 0 <= j < |nodes| ==> nodes[j] in created && nodes[j] != head)
    }

    /** Strictly ascending keys, so no node occurs twice. */
    ghost predicate Ascending()
      reads this
    {
      forall i, j :: 0 <= i < j < |nodes| ==> nodes[i].key < nodes[j].key
    }

    /** Every level up to maxLevel is the same null-terminated chain through all the nodes, and
        every node is tall enough to be on it; nothing is said of the links above. */
    ghost predicate Linked()
      requires Owned()
      reads this, Repr
    {
      forall j :: 0 <= j <= |nodes| ==>
        At(j).nodeLevel >= maxLevel && forall i :: 0 <= i <= maxLevel ==> At(j).forward[i] == After(j)
    }

    /** The nodes in the list are the ones not deleted; every other node was deleted once. */
    ghost predicate Accounted()
      requires Owned()
      reads this, Repr
    {
      forall n :: n in created ==> n.freeCount == if n == head || n in nodes then 0 else 1
    }

    ghost predicate Valid()
      reads this, Repr
    {
      Owned() && Ascending() && Linked() && Accounted()
    }

    ghost function Entries(): (es: seq<Entry>)
      reads this
      ensures |es| == |nodes|
    {
      seq(|nodes|, i requires 0 <= i < |nodes| reads this => Entry(nodes[i].key, nodes[i].value))
    }

    ghost function Abs(): State
      reads this
    {
      State(Entries(), maxLevel, nodeCount)
    }

    /** The links above a level are as they were. */
    twostate predicate KeepsAbove(level: nat)
      reads *
    {
      forall n, i :: n in old(created) && level < i < n.forward.Length ==> n.forward[i] == old(n.forward[i])
    }

    /** What a walk from the head relies on: it meets only nodes that are in the list. */
    ghost predicate Walkable()
      requires Owned()
      reads this, Repr
    {
      forall j :: 0 <= j <= |nodes| ==>
        && At(j).freeCount == 0 && At(j).forward.Length > maxLevel
        && forall i :: 0 <= i <= maxLevel ==> At(j).forward[i] == After(j)
    }

    lemma FirstOnLevel(i: nat)
      requires Valid() && i <= maxLevel && nodes != []
      ensures i < head.forward.Length == head.nodeLevel + 1 && head.forward[i] == nodes[0]
      ensures head in created && nodes[0] in created && nodes[0] != head && nodes[0].key == Entries()[0].key
    {
      assert At(0) == head && After(0) == nodes[0];
    }

    lemma GoneIsDeleted(n: Node)
      requires Valid() && n in created && n != head && !HasKey(Entries(), n.key)
      ensures n.freeCount == 1
    {
      assert forall j :: 0 <= j < |nodes| ==> Entries()[j].key == nodes[j].key;
    }

    lemma ValidFacts()
      requires Valid()
      ensures Walkable() && Sorted(Entries())
    {
    }

    /** The nodes of the list are pairwise different objects and share no array. */
    lemma Separate(p: nat)
      requires Valid() && p <= |nodes|
      ensures forall j :: 0 <= j <= |nodes| && j != p ==> At(j) != At(p) && At(j).forward != At(p).forward
    {
      forall j | 0 <= j <= |nodes| && j != p ensures At(j) != At(p) {
        if j > 0 && p > 0 { assert At(j).key != At(p).key; }
      }
    }

    constructor (level: nat)
      ensures Valid() && fresh(Repr)
      ensures Abs() == State([], level, 0) && head.nodeLevel == level
      ensures |created| == 1 && created <= Repr
    {
      maxLevel, nodeCount, nodes := level, 0, [];
      head := new Node(0, "", level);
      new;
      created := {head};
      Repr := {this, head, head.forward};
    }

    /** One level of the descent: on from the p-th node while the next key is smaller. */
    method Advance(start: Node, i: nat, key: int, ghost p: nat) returns (current: Node, ghost q: nat)
      requires Valid() && i <= maxLevel
      requires p <= |nodes| && start == At(p) && p <= Rank(Entries(), key)
      ensures q == Rank(Entries(), key) && current == At(q)
    {
      ValidFacts();
      hide Valid;
      current, q := start, p;
      while current.Next(i) != null && current.Next(i).GetKey() < key
        invariant p <= q <= |nodes| && current == At(q) && q <= Rank(Entries(), key)
        invariant After(q) != null ==> q < |nodes| && After(q) == At(q + 1)
        decreases |nodes| - q
      {
        current := current.Next(i);
        q := q + 1;
      }
      assert q < |nodes| ==> Entries()[q].key == nodes[q].key;
    }

    lemma RankFacts(key: int)
      requires Valid()
      ensures var p := Rank(Entries(), key);
              && p <= |nodes| && (p < |nodes| ==> key <= nodes[p].key)
              && (HasKey(Entries(), key) <==> p < |nodes| && nodes[p].key == key)
    {
      Theory.RankFinds(Entries(), key);
      assert forall i :: 0 <= i < |nodes| ==> Entries()[i].key == nodes[i].key;
    }

    /** The descent shared by insert and delete: update[i] is the last node on level i with a
        smaller key. */
    method Descend(key: int) returns (current: Node, update: array<Node?>, ghost p: nat)
      requires Valid()
      ensures p == Rank(Entries(), key) && current == At(p)
      ensures fresh(update) && update.Length == maxLevel + 1
      ensures forall i :: 0 <= i <= maxLevel ==> update[i] == current
    {
      hide Valid, Rank;
      current := head;
      update := new Node?[maxLevel + 1](_ => null);
      p := 0;
      var i := maxLevel;
      while i >= 0
        invariant -1 <= i <= maxLevel && Valid()
        invariant p <= Rank(Entries(), key) && current == At(p)
        invariant i < maxLevel ==> p == Rank(Entries(), key)
        invariant forall j :: i < j <= maxLevel ==> update[j] == current
        modifies update
      {
        current, p := Advance(current, i, key, p);
        update[i] := current;
        i := i - 1;
      }
    }

    method SearchElement(key: int) returns (found: bool)
      requires Valid()
      ensures (Abs(), Found(found)) == Step(Abs(), Search(key))
    {
      ValidFacts();
      RankFacts(key);
      var current, i := head, maxLevel;
      ghost var p: nat := 0;
      while i >= 0
        invariant -1 <= i <= maxLevel
        invariant p <= |nodes| && p <= Rank(Entries(), key) && current == At(p)
        invariant i < maxLevel ==> p == Rank(Entries(), key)
      {
        current, p := Advance(current, i, key, p);
        i := i - 1;
      }
      var next := current.Next(0);
      return next != null && next.GetKey() == key;
    }

    /** A coin per draw until the first even one, capped by the current level. */
    method GetRandomLevel(draws: seq<nat>) returns (level: nat)
      ensures level == RandomLevel(draws, maxLevel)
    {
      var k := 1;
      while k - 1 < |draws| && draws[k - 1] % 2 == 1
        invariant 1 <= k <= |draws| + 1
        invariant OddRun(draws) == k - 1 + OddRun(draws[k - 1..])
      {
        k := k + 1;
      }
      level := if k < maxLevel then k else maxLevel;
    }

    /** Hangs a new node behind its predecessor on the levels 0 to level. */
    method Link(inserted: Node, update: array<Node?>, level: nat, ghost pred: Node, ghost after: Node?)
      requires level < update.Length && forall i :: 0 <= i <= level ==> update[i] == pred
      requires pred.freeCount == 0 && inserted.freeCount == 0
      requires pred.forward != inserted.forward && update != pred.forward && update != inserted.forward
      requires level < pred.forward.Length && level < inserted.forward.Length
      requires forall i :: 0 <= i <= level ==> pred.forward[i] == after
      modifies pred.forward, inserted.forward
      ensures forall i :: 0 <= i <= level ==> inserted.forward[i] == after && pred.forward[i] == inserted
      ensures forall i :: level < i < pred.forward.Length ==> pred.forward[i] == old(pred.forward[i])
    {
      for i := 0 to level + 1
        invariant forall k :: 0 <= k < i ==> inserted.forward[k] == after && pred.forward[k] == inserted
        invariant forall k :: i <= k <= level ==> pred.forward[k] == after
        invariant forall k :: level < k < pred.forward.Length ==> pred.forward[k] == old(pred.forward[k])
      {
        inserted.SetNext(i, update[i].Next(i));
        update[i].SetNext(i, inserted);
      }
    }

    /** The state after a new node has been linked in at position p on levels 0 to maxLevel. */
    twostate predicate Spliced(new inserted: Node, p: nat)
      requires old(Valid()) && p <= |old(nodes)|
      reads *
    {
      && nodes == old(nodes)[..p] + [inserted] + old(nodes)[p..]
      && created == old(created) + {inserted}
      && Repr == old(Repr) + {inserted, inserted.forward}
      && fresh(inserted) && fresh(inserted.forward)
      && inserted.freeCount == 0 && inserted.forward.Length == inserted.nodeLevel + 1
      && inserted.nodeLevel == maxLevel <= old(maxLevel)
      && (forall n :: n in old(created) ==> n.freeCount == old(n.freeCount))
      && (forall i :: 0 <= i <= maxLevel ==> inserted.forward[i] == old(After(p)))
      && (forall i :: 0 <= i <= maxLevel ==> old(At(p)).forward[i] == inserted)
      && (forall j, i :: 0 <= j <= |old(nodes)| && j != p && 0 <= i <= maxLevel ==>
            old(At(j)).forward[i] == old(At(j).forward[i]))
    }

    twostate lemma SplicedOwned(new inserted: Node, p: nat)
      requires old(Valid()) && p <= |old(nodes)| && Spliced(inserted, p)
      ensures Owned() && fresh(Repr - old(Repr))
    {
      forall j | 0 <= j < |nodes| ensures nodes[j] in created && nodes[j] != head {
        assert nodes[j] == if j < p then old(nodes)[j] else if j == p then inserted else old(nodes)[j - 1];
      }
    }

    twostate lemma SplicedAccounted(new inserted: Node, p: nat)
      requires old(Valid()) && p <= |old(nodes)| && Spliced(inserted, p) && Owned()
      ensures Accounted()
    {
      forall n | n in created ensures n in nodes <==> n == inserted || n in old(nodes) {
        assert old(nodes) == old(nodes)[..p] + old(nodes)[p..];
      }
    }

    twostate lemma SplicedLinked(new inserted: Node, p: nat)
      requires old(Valid()) && p <= |old(nodes)| && Spliced(inserted, p) && Owned()
      ensures Linked()
    {
      forall j | 0 <= j <= |nodes|
        ensures At(j).nodeLevel >= maxLevel
        ensures forall i :: 0 <= i <= maxLevel ==> At(j).forward[i] == After(j)
      {
        if j == p + 1 {
          assert At(j) == inserted && After(j) == old(After(p));
        } else {
          var k := if j <= p then j else j - 1;
          assert At(j) == old(At(k));
          assert After(j) == if k == p then inserted else old(After(k));
          assert forall i :: 0 <= i <= maxLevel ==> old(At(k).forward[i]) == old(After(k));
        }
      }
    }

    lemma SortedIsAscending()
      requires Sorted(Entries())
      ensures Ascending()
    {
      assert forall i :: 0 <= i < |nodes| ==> Entries()[i].key == nodes[i].key;
    }

    twostate lemma SplicedEntries(new inserted: Node, p: nat)
      requires old(Valid()) && p <= |old(nodes)| && Spliced(inserted, p)
      requires p == Rank(old(Entries()), inserted.key)
      ensures Entries() == Add(old(Entries()), inserted.key, inserted.value)
    {
    }

    twostate lemma SplicedValid(new inserted: Node, p: nat)
      requires old(Valid()) && p <= |old(nodes)| && Spliced(inserted, p)
      requires p == Rank(old(Entries()), inserted.key) && !HasKey(old(Entries()), inserted.key)
      ensures Valid() && fresh(Repr - old(Repr))
      ensures Entries() == Add(old(Entries()), inserted.key, inserted.value)
    {
      SplicedOwned(inserted, p);
      SplicedEntries(inserted, p);
      Theory.AddSorted(old(Entries()), inserted.key, inserted.value);
      SortedIsAscending();
      SplicedLinked(inserted, p);
      SplicedAccounted(inserted, p);
    }

    /** Creates the node and links it in behind current, the node at position p. */
    method Place(key: int, value: string, level: nat, current: Node, update: array<Node?>, ghost p: nat)
      requires Valid() && p == Rank(Entries(), key) && !HasKey(Entries(), key) && current == At(p)
      requires level <= maxLevel < update.Length && update !in Repr
      requires forall i :: 0 <= i <= maxLevel ==> update[i] == current
      modifies Repr
      ensures Valid() && fresh(Repr - old(Repr)) && created >= old(created)
      ensures Abs() == State(Add(old(Entries()), key, value), level, old(nodeCount)) && KeepsAbove(level)
      ensures |created| == |old(created)| + 1
    {
      hide HasKey, Rank;
      ValidFacts();
      var inserted := new Node(key, value, level);
      Link(inserted, update, level, current, After(p));
      nodes := nodes[..p] + [inserted] + nodes[p..];
      created := created + {inserted};
      Repr := Repr + {inserted, inserted.forward};
      maxLevel := level;
      assert Spliced(inserted, p);
      hide Spliced, Valid;
      SplicedValid(inserted, p);
    }

    method InsertElement(key: int, value: string, draws: seq<nat>) returns (code: int)
      requires Valid()
      modifies Repr
      ensures Valid() && fresh(Repr - old(Repr)) && created >= old(created)
      ensures (Abs(), Code(code)) == Step(old(Abs()), Insert(key, value, draws))
      ensures KeepsAbove(maxLevel)
      ensures |created| == |old(created)| + if code == 0 then 1 else 0
    {
      var current, update, p := Descend(key);
      RankFacts(key);
      ValidFacts();
      hide Valid, HasKey, Rank;
      var next := current.Next(0);
      if next != null && next.GetKey() == key { return 1; }
      var level := GetRandomLevel(draws);
      if level > maxLevel { assert false; }  // the branch that would raise the level is dead
      Place(key, value, level, current, update, p);
      code := 0;
    }

    /** Takes a node out of every level on which its predecessor points to it. */
    method Unlink(victim: Node, update: array<Node?>, ghost pred: Node, ghost after: Node?)
      requires maxLevel < update.Length && forall i :: 0 <= i <= maxLevel ==> update[i] == pred
      requires pred.freeCount == 0 && victim.freeCount == 0
      requires pred.forward != victim.forward && update != pred.forward
      requires maxLevel < pred.forward.Length && maxLevel < victim.forward.Length
      requires forall i :: 0 <= i <= maxLevel ==> pred.forward[i] == victim && victim.forward[i] == after
      modifies pred.forward
      ensures forall i :: 0 <= i <= maxLevel ==> pred.forward[i] == after
      ensures forall i :: maxLevel < i < pred.forward.Length ==> pred.forward[i] == old(pred.forward[i])
    {
      for i := 0 to maxLevel + 1
        invariant forall k :: 0 <= k < i ==> pred.forward[k] == after
        invariant forall k :: i <= k <= maxLevel ==> pred.forward[k] == victim
        invariant forall k :: maxLevel < k < pred.forward.Length ==> pred.forward[k] == old(pred.forward[k])
      {
        if update[i].Next(i) != victim { break; }
        update[i].SetNext(i, victim.Next(i));
      }
    }

    /** Drops the levels on which the head has no successor. */
    method LowerLevel()
      requires head.freeCount == 0 && maxLevel < head.forward.Length
      requires forall i :: 0 <= i <= maxLevel ==> head.forward[i] == head.forward[0]
      modifies this`maxLevel
      ensures maxLevel == if head.forward[0] == null then 0 else old(maxLevel)
    {
      while maxLevel > 0 && head.Next(maxLevel) == null
        invariant maxLevel <= old(maxLevel)
        invariant maxLevel < old(maxLevel) ==> head.forward[0] == null
      {
        maxLevel := maxLevel - 1;
      }
    }

    /** The state after the node at position p of the list has been taken out and deleted. */
    twostate predicate Cut(p: nat)
      requires old(Valid()) && p < |old(nodes)|
      reads *
    {
      && nodes == old(nodes)[..p] + old(nodes)[p + 1..]
      && created == old(created) && Repr == old(Repr) && maxLevel <= old(maxLevel)
      && (forall n :: n in created ==>
            n.freeCount == if n == old(nodes)[p] then old(n.freeCount) + 1 else old(n.freeCount))
      && (forall i :: 0 <= i <= maxLevel ==> old(At(p)).forward[i] == old(After(p + 1)))
      && (forall n, i :: n in created && n != old(At(p)) && 0 <= i < n.forward.Length ==>
            n.forward[i] == old(n.forward[i]))
    }

    twostate lemma CutAccounted(p: nat)
      requires old(Valid()) && p < |old(nodes)| && Cut(p)
      ensures Owned() && Accounted()
    {
      var victim := old(nodes)[p];
      forall n | n in created ensures n in nodes <==> n != victim && n in old(nodes) {
        assert old(nodes) == old(nodes)[..p] + [victim] + old(nodes)[p + 1..];
      }
      assert forall j :: 0 <= j < |nodes| ==> nodes[j] == old(nodes)[if j < p then j else j + 1];
    }

    twostate lemma CutLinked(p: nat)
      requires old(Valid()) && p < |old(nodes)| && Cut(p) && Owned()
      ensures Linked()
    {
      forall j | 0 <= j <= |nodes|
        ensures At(j).nodeLevel >= maxLevel
        ensures forall i :: 0 <= i <= maxLevel ==> At(j).forward[i] == After(j)
      {
        var k := if j <= p then j else j + 1;
        assert At(j) == old(At(k)) && (k != p ==> old(At(k)) != old(At(p)));
        assert After(j) == if k == p then old(After(p + 1)) else old(After(k));
        assert forall i :: 0 <= i <= maxLevel ==> old(At(k).forward[i]) == old(After(k));
      }
    }

    twostate lemma CutEntries(p: nat)
      requires old(Valid()) && p < |old(nodes)| && Cut(p)
      requires p == Rank(old(Entries()), old(nodes)[p].key)
      ensures Entries() == Remove(old(Entries()), old(nodes)[p].key)
    {
      assert old(Entries())[p].key == old(nodes)[p].key;
    }

    twostate lemma CutValid(p: nat)
      requires old(Valid()) && p < |old(nodes)| && Cut(p)
      requires p == Rank(old(Entries()), old(nodes)[p].key)
      ensures Valid() && Entries() == Remove(old(Entries()), old(nodes)[p].key)
      ensures created == old(created) && Repr == old(Repr)
    {
      CutAccounted(p);
      CutEntries(p);
      Theory.RemoveSorted(old(Entries()), old(nodes)[p].key);
      SortedIsAscending();
      CutLinked(p);
    }

    /** Unlinks the victim, the node at position p of the list, lowers the level and deletes it. */
    method Excise(victim: Node, update: array<Node?>, ghost pred: Node, ghost p: nat)
      requires Valid() && p < |nodes| && nodes[p] == victim && pred == At(p)
      requires maxLevel < update.Length && update !in Repr
      requires forall i :: 0 <= i <= maxLevel ==> update[i] == pred
      modifies Repr
      ensures Cut(p) && nodeCount == old(nodeCount) - 1
      ensures maxLevel == if nodes == [] then 0 else old(maxLevel)
      ensures KeepsAbove(old(maxLevel))
    {
      ValidFacts();
      Separate(p);
      ghost var first := if p == 0 then After(1) else After(0);
      assert At(p + 1) == victim && After(p) == victim && At(0) == head;
      Unlink(victim, update, pred, After(p + 1));
      assert forall i :: 0 <= i <= maxLevel ==> head.forward[i] == first;
      nodes := nodes[..p] + nodes[p + 1..];
      LowerLevel();
      victim.Delete();
      nodeCount := nodeCount - 1;
    }

    method Erase(victim: Node, update: array<Node?>, ghost pred: Node, ghost p: nat)
      requires Valid() && p < |nodes| && nodes[p] == victim && pred == At(p)
      requires p == Rank(Entries(), victim.key) && HasKey(Entries(), victim.key)
      requires maxLevel < update.Length && update !in Repr
      requires forall i :: 0 <= i <= maxLevel ==> update[i] == pred
      modifies Repr
      ensures Valid() && Repr == old(Repr) && created == old(created)
      ensures (Abs(), Done) == Step(old(Abs()), Delete(victim.key)) && KeepsAbove(old(maxLevel))
    {
      hide Valid, Cut, Rank, HasKey;
      Excise(victim, update, pred, p);
      CutValid(p);
    }

    method DeleteElement(key: int)
      requires Valid()
      modifies Repr
      ensures Valid() && Repr == old(Repr) && created == old(created)
      ensures (Abs(), Done) == Step(old(Abs()), Delete(key))
      ensures KeepsAbove(old(maxLevel))
    {
      hide Valid, HasKey, Rank, Step;
      var current, update, p := Descend(key);
      RankFacts(key);
      WalkStep(p);
      if p < |nodes| { WalkStep(p + 1); }
      var victim := current.Next(0);
      if victim == null || victim.GetKey() != key {
        Theory.MissingKeyStays(Abs(), key);
        return;
      }
      Erase(victim, update, current, p);
    }

    lemma WalkStep(p: nat)
      requires Valid() && p <= |nodes|
      ensures At(p).freeCount == 0 && At(p).forward.Length > 0 && At(p).forward[0] == After(p)
      ensures p < |nodes| ==> After(p) == At(p + 1) && Entries()[p] == Entry(At(p + 1).key, At(p + 1).value)
    {
    }

    /** What dump_file writes. */
    method DumpFile() returns (text: string)
      requires Valid()
      ensures text == DumpText(Entries()) && Sorted(Entries())
    {
      ValidFacts();
      hide Valid, Sorted, Walkable, Entries, DumpText, DumpTheory.Pending;
      text := "";
      WalkStep(0);
      var node := head.Next(0);
      ghost var es, p := Entries(), 0;
      DumpTheory.PendingStart(es);
      while node != null
        invariant p <= |nodes| && node == After(p) && DumpTheory.Pending(text, es, p)
        decreases |nodes| - p
      {
        WalkStep(p);
        WalkStep(p + 1);
        DumpTheory.PendingStep(text, es, p);
        text := text + DumpLine(Entry(node.GetKey(), node.GetValue())) + "\n";
        node := node.Next(0);
        p := p + 1;
      }
      DumpTheory.PendingEnd(text, es);
    }

    /** The loop of load_file over the text of the file; ok is false when stoi throws. The i-th
        call of insert_element draws draws(i). */
    method LoadFile(text: string, draws: nat -> seq<nat>) returns (ok: bool)
      requires Valid()
      modifies Repr
      ensures Valid() && fresh(Repr - old(Repr)) && created >= old(created)
      ensures Abs() == Run(old(Abs()), LoadOps(text, draws)).0
      ensures ok == Pairs(EMPTY, Lines(text)).1
      ensures |created| - |nodes| == old(|created| - |nodes|)
    {
      hide Valid, Step, Run, LoadOps, Pairs, Lines;
      var rest, buffers, i := text, EMPTY, 0;
      ghost var goal := DumpTheory.Remaining(Abs(), EMPTY, text, draws, 0);
      DumpTheory.AllRemains(Abs(), text, draws);
      while rest != ""
        invariant Valid() && fresh(Repr - old(Repr)) && created >= old(created)
        invariant DumpTheory.Remaining(Abs(), buffers, rest, draws, i) == goal
        invariant |created| - |nodes| == old(|created| - |nodes|)
        decreases |rest|
      {
        DumpTheory.LoadLine(Abs(), buffers, rest, draws, i);
        buffers := ReadPair(FirstLine(rest), buffers);
        rest := AfterFirstLine(rest);
        if buffers.key != "" && buffers.value != "" {
          match Decimal.Stoi(buffers.key)
          case Err(_) => return false;
          case Ok(key) =>
            Theory.InsertCounts(Abs(), key, buffers.value, draws(i));
            var code := InsertElement(key, buffers.value, draws(i));
            i := i + 1;
        }
      }
      DumpTheory.NothingRemains(Abs(), buffers, draws, i);
      ok := true;
    }

    ghost function Suffix(p: nat): set<Node>
      requires p <= |nodes| + 1
      reads this
    {
      set j | p <= j <= |nodes| :: At(j)
    }

    /** clear: the successors first, then the node. */
    method Clear(node: Node?, ghost p: nat)
      requires p <= |nodes| + 1 && node == if p <= |nodes| then At(p) else null
      requires forall j :: p <= j <= |nodes| ==>
        At(j).freeCount == 0 && At(j).forward.Length > 0 && At(j).forward[0] == After(j)
      requires forall j, k :: p <= j < k <= |nodes| ==> At(j) != At(k)
      modifies Suffix(p)
      ensures forall j :: p <= j <= |nodes| ==> At(j).freeCount == 1
      decreases |nodes| + 1 - p
    {
      if node == null { return; }
      assert node == At(p);
      var next := node.Next(0);
      assert next == if p + 1 <= |nodes| then At(p + 1) else null;
      Clear(next, p + 1);
      node.Delete();
    }

    /** The destructor: afterwards every node there ever was has been deleted exactly once. */
    method Destroy()
      requires Valid()
      modifies Repr
      ensures created == old(created)
      ensures forall n :: n in created ==> n.freeCount == 1
    {
      ValidFacts();
      forall j, k | 0 <= j < k <= |nodes| ensures At(j) != At(k) { Separate(k); }
      Clear(head, 0);
      assert forall n :: n in created && old(n.freeCount) == 0 ==> n == At(0) || n in nodes;
      forall n | n in nodes ensures n.freeCount == 1 {
        var j :| 0 <= j < |nodes| && nodes[j] == n;
        assert At(j + 1) == n;
      }
    }

    method Perform(op: Op) returns (reply: Reply)
      requires Valid()
      modifies Repr
      ensures Valid() && fresh(Repr - old(Repr)) && created >= old(created)
      ensures (Abs(), reply) == Step(old(Abs()), op)
      ensures |created| == |old(created)| + if reply == Code(0) then 1 else 0
    {
      match op
      case Insert(key, value, draws) =>
        var code := InsertElement(key, value, draws);
        reply := Code(code);
      case Delete(key) =>
        DeleteElement(key);
        reply := Done;
      case Search(key) =>
        var found := SearchElement(key);
        reply := Found(found);
    }
  }

  /** A whole lifetime: whatever the operations and the draws, the replies are those of a map
      that starts empty; the nodes allocated for it are the head and one for each insert that
      succeeded, and at the end each of them has been deleted exactly once. */
  method Lifetime(level: nat, ops: seq<Op>) returns (replies: seq<Reply>, ghost all: set<Node>)
    ensures replies == MapRun(map[], ops).1
    ensures fresh(all) && |all| == 1 + Successes(replies)
    ensures forall n :: n in all ==> n.freeCount == 1
  {
    var list := new SkipList(level);
    ghost var start := list.Abs();
    replies := [];
    for i := 0 to |ops|
      invariant list.Valid() && fresh(list.Repr)
      invariant (list.Abs(), replies) == Run(start, ops[..i])
      invariant |list.created| == 1 + Successes(replies)
    {
      var reply := list.Perform(ops[i]);
      Theory.RunAppend(start, ops[..i], ops[i]);
      Theory.SuccessesAppend(replies, reply);
      assert ops[..i + 1] == ops[..i] + [ops[i]];
      replies := replies + [reply];
    }
    assert ops[..|ops|] == ops;
    Theory.RunRefinesMap(start, ops);
    all := list.created;
    assert all <= list.Repr;
    list.Destroy();
  }

  /** Links to deleted nodes do occur: here the head keeps one on a level that is no longer used. */
  method StaleLink() returns (list: SkipList)
    ensures list.Valid() && list.maxLevel == 1 && list.head.forward.Length == 3
    ensures list.head.forward[2] != null && list.head.forward[2].freeCount == 1
  {
    list := new SkipList(2);
    Theory.TallThenShort();
    hide SkipList.Valid, Step;
    var code := list.InsertElement(1, "a", [1]);
    list.FirstOnLevel(2);
    ghost var tall := list.nodes[0];
    code := list.InsertElement(5, "b", []);
    list.DeleteElement(1);
    list.GoneIsDeleted(tall);
  }
}
