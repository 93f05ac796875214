/** The skip list of skiplist/skiplist.cpp as a value: its entries in key order, its level and
    its counter, with one step per public operation. */
module SkipListSpec {

  datatype Entry = Entry(key: int, value: string)

  /** An operation; draws are the rand() results insert_element reads for the new level. */
  datatype Op = Insert(key: int, value: string, draws: seq<nat>) | Delete(key: int) | Search(key: int)

  /** insert_element returns a code, delete_element nothing, search_element a bool. */
  datatype Reply = Code(code: int) | Done | Found(found: bool)

  datatype State = State(entries: seq<Entry>, maxLevel: nat, nodeCount: int)

  predicate Sorted(es: seq<Entry>) {
    forall i, j :: 0 <= i < j < |es| ==> es[i].key < es[j].key
  }

  predicate HasKey(es: seq<Entry>, key: int) {
    exists i :: 0 <= i < |es| && es[i].key == key
  }

  /** The number of leading entries with smaller keys. */
  function Rank(es: seq<Entry>, key: int): (p: nat)
    ensures p <= |es|
    ensures forall i :: 0 <= i < p ==> es[i].key < key
    ensures p < |es| ==> key <= es[p].key
  {
    if es == [] || key <= es[0].key then 0 else 1 + Rank(es[1..], key)
  }

  function Add(es: seq<Entry>, key: int, value: string): seq<Entry> {
    var p := Rank(es, key);
    es[..p] + [Entry(key, value)] + es[p..]
  }

  function Remove(es: seq<Entry>, key: int): seq<Entry> {
    var p := Rank(es, key);
    if p < |es| && es[p].key == key then es[..p] + es[p + 1..] else es
  }

  /** Length of the longest prefix of odd draws. */
  function OddRun(draws: seq<nat>): nat {
    if draws == [] || draws[0] % 2 == 0 then 0 else 1 + OddRun(draws[1..])
  }

  function RandomLevel(draws: seq<nat>, maxLevel: nat): nat {
    var k := 1 + OddRun(draws);
    if k < maxLevel then k else maxLevel
  }

  function Step(s: State, op: Op): (State, Reply) {
    match op
    case Insert(key, value, draws) =>
      if HasKey(s.entries, key) then (s, Code(1))
      else (State(Add(s.entries, key, value), RandomLevel(draws, s.maxLevel), s.nodeCount), Code(0))
    case Delete(key) =>
      if !HasKey(s.entries, key) then (s, Done)
      else
        var es := Remove(s.entries, key);
        (State(es, if es == [] then 0 else s.maxLevel, s.nodeCount - 1), Done)
    case Search(key) => (s, Found(HasKey(s.entries, key)))
  }

  function Run(s: State, ops: seq<Op>): (State, seq<Reply>)
    decreases |ops|
  {
    if ops == [] then (s, [])
    else
      var (s1, reply) := Step(s, ops[0]);
      var (s2, replies) := Run(s1, ops[1..]);
      (s2, [reply] + replies)
  }

  /** How many inserts succeeded. */
  function Successes(replies: seq<Reply>): nat {
    if replies == [] then 0 else (if replies[0] == Code(0) then 1 else 0) + Successes(replies[1..])
  }

  // ---------------------------------------------------------------- a plain finite map

  type Dict = map<int, string>

  function AsMap(es: seq<Entry>): Dict {
    if es == [] then map[] else AsMap(es[1..])[es[0].key := es[0].value]
  }

  function MapStep(m: Dict, op: Op): (Dict, Reply) {
    match op
    case Insert(key, value, _) => if key in m then (m, Code(1)) else (m[key := value], Code(0))
    case Delete(key) => (m - {key}, Done)
    case Search(key) => (m, Found(key in m))
  }

  function MapRun(m: Dict, ops: seq<Op>): (Dict, seq<Reply>)
    decreases |ops|
  {
    if ops == [] then (m, [])
    else
      var (m1, reply) := MapStep(m, ops[0]);
      var (m2, replies) := MapRun(m1, ops[1..]);
      (m2, [reply] + replies)
  }
}
