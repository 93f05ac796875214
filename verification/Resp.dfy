/** The RESP2 codec of network/redis_protocol.cpp as functions; a char stands for one byte. */
module Resp {
  import opened Wrappers
  import opened Decimal

  const CRLF := "\r\n"

  /** RedisValue and the shared pointer RedisValuePtr. */
  datatype Value = Str(text: string) | Int(number: Int64) | Array(items: seq<ValuePtr>)
  datatype ValuePtr = Null | To(value: Value)

  /** RedisCommand. */
  datatype Command = Command(name: string, arguments: seq<string>)

  // ---------------------------------------------------------------- writing

  function BulkString(s: string): (r: string)
    ensures |r| >= |s| + 6
  {
    "$" + NatToString(|s|) + CRLF + s + CRLF
  }

  function Integer(n: int): (r: string)
    ensures |r| >= 4
  {
    ":" + IntToString(n) + CRLF
  }

  function SimpleString(s: string): string { "+" + s + CRLF }

  function ErrorString(s: string): string { "-" + s + CRLF }

  function BulkStrings(ss: seq<string>): string {
    if ss == [] then "" else BulkString(ss[0]) + BulkStrings(ss[1..])
  }

  function ArrayHeader(n: nat): (r: string)
    ensures |r| >= 4
  {
    "*" + NatToString(n) + CRLF
  }

  function CreateArray(ss: seq<string>): string {
    ArrayHeader(|ss|) + BulkStrings(ss)
  }

  function Serialize(v: Value): (s: string)
    ensures |s| >= 4
    decreases v
  {
    match v
    case Str(text) => BulkString(text)
    case Int(number) => Integer(number)
    case Array(items) => CreateArray(SerializeItems(items))
  }

  /** The strings handed to createArray: null items are skipped. */
  function SerializeItems(items: seq<ValuePtr>): seq<string>
    decreases items
  {
    if items == [] then []
    else match items[0]
      case Null => SerializeItems(items[1..])
      case To(v) => assert v < items[0]; [Serialize(v)] + SerializeItems(items[1..])
  }

  // ---------------------------------------------------------------- reading

  function LineEnd(data: string, pos: nat): (e: nat)
    requires pos <= |data|
    ensures pos <= e <= |data|
    ensures forall i :: pos <= i < e ==> data[i] != '\r'
    ensures e < |data| ==> data[e] == '\r'
    decreases |data| - pos
  {
    if pos < |data| && data[pos] != '\r' then LineEnd(data, pos + 1) else pos
  }

  predicate CrlfAt(data: string, pos: nat) {
    pos + 2 <= |data| && data[pos] == '\r' && data[pos + 1] == '\n'
  }

  function SkipCrlf(data: string, pos: nat): (p: nat)
    ensures pos <= p && (pos <= |data| ==> p <= |data|)
  {
    if CrlfAt(data, pos) then pos + 2 else pos
  }

  /** readLine: the text up to a carriage return, and the position after the line. */
  function ReadLine(data: string, pos: nat): (r: (string, nat))
    requires pos <= |data|
    ensures pos <= r.1 <= |data|
  {
    var e := LineEnd(data, pos);
    (data[pos..e], SkipCrlf(data, e))
  }

  function Drop(data: string, pos: nat): string {
    if pos <= |data| then data[pos..] else ""
  }

  /** parseInteger with its final position. */
  function ParseInteger(data: string): (ValuePtr, nat)
    requires data != ""
  {
    var (line, pos) := ReadLine(data, 1);
    match Stoll(line)
    case Err(_) => (Null, pos)
    case Ok(n) => (To(Int(n)), pos)
  }

  /** parseBulkString with its final position. */
  function ParseBulkString(data: string): (r: (ValuePtr, nat))
    requires data != ""
    ensures r.0.To? ==> r.0.value.Str? && |r.0.value.text| < |data|
  {
    var (line, pos) := ReadLine(data, 1);
    if line == "-1" then (Null, pos)
    else match Stoll(line)
      case Err(_) => (Null, pos)
      case Ok(length) =>
        if length < 0 || pos + length + 2 > |data| then (Null, pos)
        else (To(Str(data[pos..pos + length])), SkipCrlf(data, pos + length))
  }

  function Parse(data: string): ValuePtr
    decreases |data|, 0
  {
    if data == "" then Null
    else if data[0] == '+' || data[0] == '-' then To(Str(ReadLine(data, 1).0))
    else if data[0] == ':' then ParseInteger(data).0
    else if data[0] == '$' then ParseBulkString(data).0
    else if data[0] == '*' then
      var (line, pos) := ReadLine(data, 1);
      match Stoll(line)
      case Err(_) => Null
      case Ok(length) => if length < 0 then Null else To(Array(Elements(data[pos..], length)))
    else Null
  }

  /** The items parseArray reads from the text after the header: each step parses the
      remaining text and moves on by the length of the item's re-serialization. */
  function Elements(rest: string, count: nat): seq<ValuePtr>
    decreases |rest|, 1
  {
    if count == 0 || rest == "" then []
    else match Parse(rest)
      case Null => []
      case To(v) => [To(v)] + Elements(Drop(rest, |Serialize(v)|), count - 1)
  }

  /** How far parseArray advances over its items. */
  function Advances(items: seq<ValuePtr>): nat {
    if items == [] then 0 else (if items[0].To? then |Serialize(items[0].value)| else 0) + Advances(items[1..])
  }

  // ---------------------------------------------------------------- commands

  function ToUpper(c: char): char {
    if 'a' <= c <= 'z' then (c as int - 32) as char else c
  }

  function Upper(s: string): (r: string)
    ensures |r| == |s|
    ensures forall i :: 0 <= i < |s| && 'a' <= s[i] <= 'z' ==> r[i] as int == s[i] as int - 'a' as int + 'A' as int
    ensures forall i :: 0 <= i < |s| && !('a' <= s[i] <= 'z') ==> r[i] == s[i]
  {
    seq(|s|, i requires 0 <= i < |s| => ToUpper(s[i]))
  }

  predicate IsText(item: ValuePtr) {
    item.To? && item.value.Str?
  }

  /** The texts of the string items, in order. */
  function Texts(items: seq<ValuePtr>): seq<string> {
    if items == [] then []
    else (if IsText(items[0]) then [items[0].value.text] else []) + Texts(items[1..])
  }

  function ParseCommand(data: string): Command {
    match Parse(data)
    case To(Array(items)) =>
      if items == [] then Command("", [])
      else Command(if IsText(items[0]) then Upper(items[0].value.text) else "", Texts(items[1..]))
    case _ => Command("", [])
  }
}
