/** What loading a file does to a map, and loading a dump in particular. */
module DumpTheory {
  import opened Wrappers
  import opened Decimal
  import opened Text
  import opened SkipListSpec
  import opened SkipListTheory
  import opened DumpFormat

  // ---------------------------------------------------------------- loading is a merge

  lemma {:induction false} InsertsMerge(m: Dict, pairs: seq<Entry>, draws: nat -> seq<nat>, i: nat)
    ensures MapRun(m, Inserts(pairs, draws, i)).0 == AsMap(pairs) + m
    decreases |pairs|
  {
    if pairs != [] {
      var ops := Inserts(pairs, draws, i);
      assert ops[1..] == Inserts(pairs[1..], draws, i + 1);
      InsertsMerge(MapStep(m, ops[0]).0, pairs[1..], draws, i + 1);
    }
  }

  /** Loading any text: present keys keep their values, and of several lines for a new key the
      first wins. Loading the same text again changes nothing. */
  lemma {:induction false} LoadMerges(m: Dict, text: string, draws: nat -> seq<nat>, again: nat -> seq<nat>)
    ensures var pairs := Pairs(EMPTY, Lines(text)).0;
            var once := MapRun(m, LoadOps(text, draws)).0;
            && once == AsMap(pairs) + m
            && MapRun(once, LoadOps(text, again)).0 == once
  {
    var pairs := Pairs(EMPTY, Lines(text)).0;
    InsertsMerge(m, pairs, draws, 0);
    InsertsMerge(AsMap(pairs) + m, pairs, again, 0);
  }

  /** The value of the first pair with the given key. */
  lemma {:induction false} FirstPairWins(pairs: seq<Entry>, j: nat)
    requires j < |pairs| && forall i :: 0 <= i < j ==> pairs[i].key != pairs[j].key
    ensures pairs[j].key in AsMap(pairs) && AsMap(pairs)[pairs[j].key] == pairs[j].value
  {
    if j > 0 {
      assert forall i :: 0 <= i < |pairs| - 1 ==> pairs[1..][i] == pairs[i + 1];
      FirstPairWins(pairs[1..], j - 1);
    }
  }

  // ---------------------------------------------------------------- one line at a time

  /** What is left to do, as a state: the inserts of the remaining lines applied to s. */
  function Remaining(s: State, b: Buffers, rest: string, draws: nat -> seq<nat>, i: nat): (State, bool) {
    var (pairs, ok) := Pairs(b, Lines(rest));
    (Run(s, Inserts(pairs, draws, i)).0, ok)
  }

  lemma AllRemains(s: State, text: string, draws: nat -> seq<nat>)
    ensures Remaining(s, EMPTY, text, draws, 0)
         == (Run(s, LoadOps(text, draws)).0, Pairs(EMPTY, Lines(text)).1)
  {
  }

  lemma NothingRemains(s: State, b: Buffers, draws: nat -> seq<nat>, i: nat)
    ensures Remaining(s, b, "", draws, i) == (s, true)
  {
  }

  /** The three ways an iteration of load_file can go. */
  lemma LoadLine(s: State, b: Buffers, rest: string, draws: nat -> seq<nat>, i: nat)
    requires rest != ""
    ensures var c := ReadPair(FirstLine(rest), b);
            Remaining(s, b, rest, draws, i)
            == if c.key == "" || c.value == "" then Remaining(s, c, AfterFirstLine(rest), draws, i)
               else match Stoi(c.key)
                 case Err(_) => (s, false)
                 case Ok(key) =>
                   Remaining(Step(s, Insert(key, c.value, draws(i))).0, c, AfterFirstLine(rest), draws, i + 1)
  {
    hide Step, Find, Stoi;
    var line, tail := FirstLine(rest), Lines(AfterFirstLine(rest));
    assert Lines(rest)[0] == line && Lines(rest)[1..] == tail;
    var c := ReadPair(line, b);
    if c.key != "" && c.value != "" && Stoi(c.key).Ok? {
      var pair, pairs := Entry(Stoi(c.key).value, c.value), Pairs(c, tail).0;
      assert ([pair] + pairs)[1..] == pairs;
      var ops := Inserts([pair] + pairs, draws, i);
      assert ops[1..] == Inserts(pairs, draws, i + 1);
    }
  }

  // ---------------------------------------------------------------- lines without a colon

  predicate HasColon(line: string) { Find(line, ':') < |line| }

  function WithColon(lines: seq<string>): seq<string> {
    if lines == [] then []
    else (if HasColon(lines[0]) then [lines[0]] else []) + WithColon(lines[1..])
  }

  /** The pair left in the buffers that a line without a colon inserts once more. */
  function Leftover(b: Buffers): seq<Entry> {
    if b.key == "" || b.value == "" || Stoi(b.key).Err? then [] else [Entry(Stoi(b.key).value, b.value)]
  }

  predicate Readable(b: Buffers) { b.key == "" || b.value == "" || Stoi(b.key).Ok? }

  lemma PairsStep(b: Buffers, lines: seq<string>)
    requires lines != [] && Readable(ReadPair(lines[0], b))
    ensures var c := ReadPair(lines[0], b);
            && Pairs(b, lines).0 == Leftover(c) + Pairs(c, lines[1..]).0
            && Pairs(b, lines).1 == Pairs(c, lines[1..]).1
  {
  }

  lemma UnreadableStops(b: Buffers, lines: seq<string>)
    requires lines != [] && !Readable(ReadPair(lines[0], b))
    ensures Pairs(b, lines) == ([], false)
  {
  }

  lemma WithColonStep(line: string, lines: seq<string>)
    ensures WithColon([line] + lines) == if HasColon(line) then [line] + WithColon(lines) else WithColon(lines)
  {
    assert ([line] + lines)[1..] == lines;
  }

  lemma {:induction false} LeftoverIsHarmless(b: Buffers, lines: seq<string>)
    requires Readable(b)
    ensures Pairs(b, lines).1 == Pairs(b, WithColon(lines)).1
    ensures AsMap(Pairs(b, lines).0) + AsMap(Leftover(b))
         == AsMap(Pairs(b, WithColon(lines)).0) + AsMap(Leftover(b))
    decreases |lines|
  {
    if lines != [] {
      hide Pairs, Leftover, WithColon, AsMap;
      var line, rest, kept := lines[0], lines[1..], WithColon(lines[1..]);
      var c := ReadPair(line, b);
      assert lines == [line] + rest;
      WithColonStep(line, rest);
      if Readable(c) {
        LeftoverIsHarmless(c, rest);
        PairsStep(b, lines);
        MapOfConcat(Leftover(c), Pairs(c, rest).0);
        if HasColon(line) {
          assert ([line] + kept)[1..] == kept;
          PairsStep(b, [line] + kept);
          MapOfConcat(Leftover(c), Pairs(c, kept).0);
        }
      } else {
        UnreadableStops(b, lines);
        UnreadableStops(b, [line] + kept);
      }
    }
  }

  /** Lines without a colon can be left out: they re-insert what is there already. */
  lemma {:induction false} ColonlessLinesDoNothing(lines: seq<string>)
    ensures Pairs(EMPTY, lines).1 == Pairs(EMPTY, WithColon(lines)).1
    ensures AsMap(Pairs(EMPTY, lines).0) == AsMap(Pairs(EMPTY, WithColon(lines)).0)
  {
    LeftoverIsHarmless(EMPTY, lines);
    assert AsMap(Leftover(EMPTY)) == map[];
    assert forall m: Dict :: m + map[] == m;
  }

  // ---------------------------------------------------------------- dump, then load

  /** The text so far and the dump of the entries from p on make up the whole dump. */
  predicate Pending(text: string, es: seq<Entry>, p: nat) {
    p <= |es| && text + DumpText(es[p..]) == DumpText(es)
  }

  lemma PendingStart(es: seq<Entry>)
    ensures Pending("", es, 0)
  {
    assert es[0..] == es;
  }

  lemma PendingStep(text: string, es: seq<Entry>, p: nat)
    requires Pending(text, es, p) && p < |es|
    ensures Pending(text + DumpLine(es[p]) + "\n", es, p + 1)
  {
    hide DumpLine;
    assert es[p..][1..] == es[p + 1..];
  }

  lemma PendingEnd(text: string, es: seq<Entry>)
    requires Pending(text, es, |es|)
    ensures text == DumpText(es)
  {
  }

  predicate NewlineFree(es: seq<Entry>) {
    forall i :: 0 <= i < |es| ==> '\n' !in es[i].value
  }

  predicate Int32Keys(es: seq<Entry>) {
    forall i :: 0 <= i < |es| ==> -INT32_MAX - 1 <= es[i].key <= INT32_MAX
  }

  function DumpLines(es: seq<Entry>): seq<string> {
    seq(|es|, i requires 0 <= i < |es| => DumpLine(es[i]))
  }

  /** The entries with the semicolon that load_file does not take off again. */
  function WithSemicolons(es: seq<Entry>): seq<Entry> {
    seq(|es|, i requires 0 <= i < |es| => Entry(es[i].key, es[i].value + ";"))
  }

  lemma DumpLineHasNoNewline(e: Entry)
    requires '\n' !in e.value
    ensures '\n' !in DumpLine(e)
  {
    var digits := IntToString(e.key);
    assert forall i :: 0 <= i < |digits| ==> digits[i] != '\n';
  }

  lemma FirstLineOfDump(line: string, rest: string)
    requires '\n' !in line
    ensures var text := line + "\n" + rest;
            FirstLine(text) == line && AfterFirstLine(text) == rest
  {
    var text := line + "\n" + rest;
    assert text[..|line|] == line && text[|line|] == '\n';
    FindIs(text, '\n', |line|);
    assert text[|line| + 1..] == rest;
  }

  /** getline takes lines one by one; the last needs no newline, and an empty rest is no line. */
  lemma {:induction false} LinesAreSplit(line: string, rest: string)
    requires '\n' !in line
    ensures Lines(line + "\n" + rest) == [line] + Lines(rest)
    ensures Lines(line) == if line == "" then [] else [line]
  {
    FirstLineOfDump(line, rest);
    NoNewline(line);
    assert line[..|line|] == line;
    assert Lines("") == [];
  }

  lemma {:induction false} NoNewline(line: string)
    requires '\n' !in line
    ensures Find(line, '\n') == |line|
  {
    if line != "" { NoNewline(line[1..]); }
  }

  /** A line is cut at its first colon. Without key or value it inserts nothing, with a key that
      stoi does not take it ends the loading, and otherwise it inserts the pair. */
  lemma {:induction false} LineInserts(key: string, value: string, b: Buffers, rest: seq<string>)
    requires ':' !in key
    ensures var line, next := key + ":" + value, Pairs(Buffers(key, value), rest);
            Pairs(b, [line] + rest)
            == if key == "" || value == "" then next
               else if Stoi(key).Err? then ([], false)
               else ([Entry(Stoi(key).value, value)] + next.0, next.1)
  {
    var line := key + ":" + value;
    assert line[..|key|] == key && line[|key|] == ':' && line[|key| + 1..] == value;
    FindIs(line, ':', |key|);
    assert ([line] + rest)[1..] == rest;
    hide Stoi, Find;
  }

  /** A line without a colon does what the line before it with one did. */
  lemma {:induction false} ColonlessLineRepeats(line: string, b: Buffers, rest: seq<string>)
    requires ':' !in line && ':' !in b.key
    ensures Pairs(b, [line] + rest) == Pairs(b, [b.key + ":" + b.value] + rest)
  {
    var p, again := Find(line, ':'), b.key + ":" + b.value;
    assert p == |line|;
    assert again[..|b.key|] == b.key && again[|b.key|] == ':' && again[|b.key| + 1..] == b.value;
    FindIs(again, ':', |b.key|);
    assert ReadPair(line, b) == b == ReadPair(again, b);
    assert ([line] + rest)[1..] == rest == ([again] + rest)[1..];
    hide Find, ReadPair, Stoi;
  }

  /** One line per entry, in list order. */
  lemma {:induction false} DumpHasOneLinePerEntry(es: seq<Entry>)
    requires NewlineFree(es)
    ensures Lines(DumpText(es)) == DumpLines(es)
  {
    if es != [] {
      FirstLineOfDump(DumpLine(es[0]), DumpText(es[1..])) by { DumpLineHasNoNewline(es[0]); }
      DumpHasOneLinePerEntry(es[1..]);
      hide FirstLine, AfterFirstLine, DumpLine;
      FirstOfDump(es);
    }
  }

  lemma {:induction false} ReadDumpLine(e: Entry, b: Buffers)
    ensures ReadPair(DumpLine(e), b) == Buffers(IntToString(e.key), e.value + ";")
  {
    var digits, line := IntToString(e.key), DumpLine(e);
    assert forall i :: 0 <= i < |digits| ==> digits[i] != ':';
    assert line[..|digits|] == digits && line[|digits|] == ':';
    FindIs(line, ':', |digits|);
    assert line[|digits| + 1..] == e.value + ";";
  }

  lemma {:induction false} LeftoverOfDumpLine(e: Entry, b: Buffers)
    requires -INT32_MAX - 1 <= e.key <= INT32_MAX
    ensures var c := ReadPair(DumpLine(e), b);
            Readable(c) && Leftover(c) == [Entry(e.key, e.value + ";")]
  {
    ReadDumpLine(e, b);
    PrintParseExact(e.key);
  }

  lemma FirstOfDump(es: seq<Entry>)
    requires es != []
    ensures DumpLines(es) != [] && DumpLines(es)[0] == DumpLine(es[0])
    ensures DumpLines(es)[1..] == DumpLines(es[1..])
    ensures WithSemicolons(es) == [Entry(es[0].key, es[0].value + ";")] + WithSemicolons(es[1..])
  {
  }

  lemma {:induction false} PairsOfDump(es: seq<Entry>, b: Buffers)
    requires Int32Keys(es)
    ensures Pairs(b, DumpLines(es)) == (WithSemicolons(es), true)
    decreases |es|
  {
    if es == [] {
      assert DumpLines(es) == [] && WithSemicolons(es) == [];
    } else {
      hide Pairs, Leftover, ReadPair, DumpLine, DumpLines, WithSemicolons;
      var c := ReadPair(DumpLine(es[0]), b);
      LeftoverOfDumpLine(es[0], b);
      FirstOfDump(es);
      PairsStep(b, DumpLines(es));
      PairsOfDump(es[1..], c);
    }
  }

  lemma {:induction false} LinesHaveNoNewline(text: string)
    ensures forall line :: line in Lines(text) ==> '\n' !in line
    decreases |text|
  {
    if text != "" { LinesHaveNoNewline(AfterFirstLine(text)); }
  }

  lemma {:induction false} PairsHaveNoNewline(b: Buffers, lines: seq<string>)
    requires '\n' !in b.value && forall line :: line in lines ==> '\n' !in line
    ensures NewlineFree(Pairs(b, lines).0)
    decreases |lines|
  {
    if lines != [] {
      assert '\n' !in lines[0];
      PairsHaveNoNewline(ReadPair(lines[0], b), lines[1..]);
    }
  }

  lemma {:induction false} ValuesOfMap(es: seq<Entry>, key: int)
    requires NewlineFree(es) && key in AsMap(es)
    ensures '\n' !in AsMap(es)[key]
  {
    if es[0].key != key {
      assert forall i :: 0 <= i < |es| - 1 ==> es[1..][i] == es[i + 1];
      ValuesOfMap(es[1..], key);
    }
  }

  /** Loading a dump into an empty list restores every key with a semicolon added to its value,
      exactly when no value contains a newline; values may contain colons. */
  lemma {:induction false} DumpThenLoad(es: seq<Entry>, draws: nat -> seq<nat>)
    requires Sorted(es) && Int32Keys(es)
    ensures MapRun(map[], LoadOps(DumpText(es), draws)).0 == AsMap(WithSemicolons(es)) <==> NewlineFree(es)
    ensures NewlineFree(es) ==> Pairs(EMPTY, Lines(DumpText(es))).1
  {
    var pairs := Pairs(EMPTY, Lines(DumpText(es))).0;
    InsertsMerge(map[], pairs, draws, 0);
    assert AsMap(pairs) + map[] == AsMap(pairs);
    if NewlineFree(es) {
      DumpHasOneLinePerEntry(es);
      PairsOfDump(es, EMPTY);
    }
    if AsMap(pairs) == AsMap(WithSemicolons(es)) {
      LinesHaveNoNewline(DumpText(es));
      PairsHaveNoNewline(EMPTY, Lines(DumpText(es)));
      forall i | 0 <= i < |es| ensures '\n' !in es[i].value {
        FirstPairWins(WithSemicolons(es), i);
        ValuesOfMap(pairs, es[i].key);
        assert forall c :: c in es[i].value ==> c in es[i].value + ";";
      }
    }
  }
}
