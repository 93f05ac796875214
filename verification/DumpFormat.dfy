/** The text format of dump_file and load_file (skiplist/skiplist.cpp). */
module DumpFormat {
  import opened Wrappers
  import opened Decimal
  import opened Text
  import opened SkipListSpec

  /** One dumped line without its newline: the semicolon is written as part of it. */
  function DumpLine(e: Entry): string {
    IntToString(e.key) + ":" + e.value + ";"
  }

  function DumpText(es: seq<Entry>): string {
    if es == [] then "" else DumpLine(es[0]) + "\n" + DumpText(es[1..])
  }

  /** getline: the text up to a newline, and what is left after it. */
  function FirstLine(text: string): string { text[..Find(text, '\n')] }

  function AfterFirstLine(text: string): (rest: string)
    requires text != ""
    ensures |rest| < |text|
  {
    var p := Find(text, '\n');
    if p < |text| then text[p + 1..] else ""
  }

  function Lines(text: string): seq<string>
    decreases |text|
  {
    if text == "" then [] else [FirstLine(text)] + Lines(AfterFirstLine(text))
  }

  /** The two strings load_file reads every line into. */
  datatype Buffers = Buffers(key: string, value: string)

  const EMPTY := Buffers("", "")

  /** get_key_value_from_string: a line without a colon leaves both buffers alone. */
  function ReadPair(line: string, previous: Buffers): Buffers {
    var p := Find(line, ':');
    if p == |line| then previous else Buffers(line[..p], line[p + 1..])
  }

  /** The pairs load_file hands to insert_element, and whether it got through every line
      without an exception from stoi. */
  function Pairs(buffers: Buffers, lines: seq<string>): (seq<Entry>, bool)
    decreases |lines|
  {
    if lines == [] then ([], true)
    else
      var b := ReadPair(lines[0], buffers);
      if b.key == "" || b.value == "" then Pairs(b, lines[1..])
      else match Stoi(b.key)
        case Err(_) => ([], false)
        case Ok(key) =>
          var (rest, ok) := Pairs(b, lines[1..]);
          ([Entry(key, b.value)] + rest, ok)
  }

  /** The insert_element calls for those pairs; the i-th call draws draws(i). */
  function Inserts(pairs: seq<Entry>, draws: nat -> seq<nat>, i: nat): seq<Op> {
    if pairs == [] then []
    else [Insert(pairs[0].key, pairs[0].value, draws(i))] + Inserts(pairs[1..], draws, i + 1)
  }

  function LoadOps(text: string, draws: nat -> seq<nat>): seq<Op> {
    Inserts(Pairs(EMPTY, Lines(text)).0, draws, 0)
  }
}
