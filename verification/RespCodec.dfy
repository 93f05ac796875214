/** The loops of network/redis_protocol.cpp, each proved to compute its function in Resp. */
module RespCodec {
  import opened Wrappers
  import opened Decimal
  import Resp
  import RespTheory

  type Value = Resp.Value
  type ValuePtr = Resp.ValuePtr

  method ReadLine(data: string, pos: nat) returns (line: string, end: nat)
    requires pos <= |data|
    ensures (line, end) == Resp.ReadLine(data, pos)
  {
    line, end := "", pos;
    while end < |data| && data[end] != '\r'
      invariant pos <= end <= |data|
      invariant line == data[pos..end]
      invariant Resp.LineEnd(data, pos) == Resp.LineEnd(data, end)
    {
      line := line + [data[end]];
      end := end + 1;
    }
    if end + 1 < |data| && data[end] == '\r' && data[end + 1] == '\n' {
      end := end + 2;
    }
  }

  method ReadBytes(data: string, pos: nat, length: nat) returns (bytes: string, end: nat)
    ensures pos + length <= |data| ==> bytes == data[pos..pos + length] && end == pos + length
    ensures pos + length > |data| ==> bytes == "" && end == pos
  {
    if pos + length > |data| { return "", pos; }
    bytes, end := data[pos..pos + length], pos + length;
  }

  method ParseBulkString(data: string) returns (value: ValuePtr, end: nat)
    requires data != ""
    ensures (value, end) == Resp.ParseBulkString(data)
  {
    var lengthText, pos := ReadLine(data, 1);
    if lengthText == "-1" { return Resp.Null, pos; }
    match Stoll(lengthText)
    case Err(_) => return Resp.Null, pos;
    case Ok(length) =>
      if length < 0 || pos + length + 2 > |data| { return Resp.Null, pos; }
      var text;
      text, end := ReadBytes(data, pos, length);
      if end + 2 <= |data| && data[end] == '\r' && data[end + 1] == '\n' {
        end := end + 2;
      }
      value := Resp.To(Resp.Str(text));
  }

  method Parse(data: string) returns (value: ValuePtr)
    ensures value == Resp.Parse(data)
    decreases |data|, 1, 0
  {
    if data == "" { return Resp.Null; }
    var end;
    match data[0]
    case '+' =>
      var text;
      text, end := ReadLine(data, 1);
      value := Resp.To(Resp.Str(text));
    case '-' =>
      var text;
      text, end := ReadLine(data, 1);
      value := Resp.To(Resp.Str(text));
    case ':' => value := Resp.ParseInteger(data).0;
    case '$' => value, end := ParseBulkString(data);
    case '*' => value, end := ParseArray(data);
    case _ => value := Resp.Null;
  }

  lemma ElementsGoOn(data: string, pos: nat, count: nat) returns (rest: seq<ValuePtr>)
    requires count > 0 && pos < |data| && Resp.Parse(data[pos..]).To?
    ensures var item := Resp.Parse(data[pos..]);
            && rest == Resp.Elements(Resp.Drop(data, pos + |Resp.Serialize(item.value)|), count - 1)
            && Resp.Elements(Resp.Drop(data, pos), count) == [item] + rest
  {
    var advance := |Resp.Serialize(Resp.Parse(data[pos..]).value)|;
    rest := Resp.Elements(Resp.Drop(data, pos + advance), count - 1);
    assert Resp.Drop(data[pos..], advance) == Resp.Drop(data, pos + advance);
  }

  lemma ElementsEnd(data: string, pos: nat, count: nat)
    requires count == 0 || pos >= |data| || Resp.Parse(data[pos..]) == Resp.Null
    ensures Resp.Elements(Resp.Drop(data, pos), count) == []
  {
    RespTheory.EmptyElements(Resp.Drop(data, pos), count);
  }

  lemma AdvancesOfNothing()
    ensures Resp.Advances([]) == 0
  {
  }

  lemma AdvancesAppend(items: seq<ValuePtr>, item: ValuePtr)
    ensures Resp.Advances(items + [item])
         == Resp.Advances(items) + if item.To? then |Resp.Serialize(item.value)| else 0
  {
    if items != [] {
      assert (items + [item])[1..] == items[1..] + [item];
    }
  }

  /** The loop never learns how far the sub-parser read; it advances by the re-serialized length. */
  method ParseItems(data: string, start: nat, length: nat) returns (items: seq<ValuePtr>, pos: nat)
    requires 1 <= start && data != ""
    ensures items == Resp.Elements(Resp.Drop(data, start), length)
    ensures pos == start + Resp.Advances(items)
    decreases |data|, 0, 0
  {
    hide Resp.Parse, Resp.Elements, Resp.Serialize, Resp.Advances, Resp.Drop;
    items := [];
    pos := start;
    AdvancesOfNothing();
    ghost var ahead := Resp.Elements(Resp.Drop(data, start), length);
    ghost var all := ahead;
    for i := 0 to length
      invariant 1 <= pos == start + Resp.Advances(items)
      invariant ahead == Resp.Elements(Resp.Drop(data, pos), length - i)
      invariant all == items + ahead
    {
      if pos >= |data| {
        ElementsEnd(data, pos, length - i);
        return;
      }
      var item := Parse(data[pos..]);
      if item == Resp.Null {
        ElementsEnd(data, pos, length - i);
        return;
      }
      ghost var rest := ElementsGoOn(data, pos, length - i);
      AdvancesAppend(items, item);
      assert items + ([item] + rest) == (items + [item]) + rest;
      items, ahead := items + [item], rest;
      pos := pos + |Resp.Serialize(item.value)|;
    }
    ElementsEnd(data, pos, 0);
  }

  method ParseArray(data: string) returns (value: ValuePtr, pos: nat)
    requires data != "" && data[0] == '*'
    ensures value == Resp.Parse(data)
    ensures pos == Resp.ReadLine(data, 1).1 + if value.To? then Resp.Advances(value.value.items) else 0
    decreases |data|, 0, 1
  {
    RespTheory.ParseArrayCases(data);
    hide Resp.Parse, Resp.Elements;
    var lengthText;
    lengthText, pos := ReadLine(data, 1);
    match Stoll(lengthText)
    case Err(_) => value := Resp.Null;
    case Ok(length) =>
      if length < 0 { return Resp.Null, pos; }
      var items;
      items, pos := ParseItems(data, pos, length);
      value := Resp.To(Resp.Array(items));
  }

  lemma TextsAppend(items: seq<ValuePtr>, item: ValuePtr)
    ensures Resp.Texts(items + [item])
         == Resp.Texts(items) + (if Resp.IsText(item) then [item.value.text] else [])
  {
    if items != [] {
      assert (items + [item])[1..] == items[1..] + [item];
    }
  }

  method ParseCommand(data: string) returns (cmd: Resp.Command)
    ensures cmd == Resp.ParseCommand(data)
  {
    hide Resp.Parse, Resp.Serialize, Resp.Upper;
    cmd := Resp.Command("", []);
    var value := Parse(data);
    if value == Resp.Null || !value.value.Array? { return; }
    var items := value.value.items;
    if items == [] { return; }
    if Resp.IsText(items[0]) {
      cmd := cmd.(name := Resp.Upper(items[0].value.text));
    }
    var i := 1;
    while i < |items|
      invariant 1 <= i <= |items|
      invariant cmd.name == if Resp.IsText(items[0]) then Resp.Upper(items[0].value.text) else ""
      invariant cmd.arguments == Resp.Texts(items[1..i])
    {
      TextsAppend(items[1..i], items[i]);
      assert items[1..i + 1] == items[1..i] + [items[i]];
      if Resp.IsText(items[i]) {
        cmd := cmd.(arguments := cmd.arguments + [items[i].value.text]);
      }
      i := i + 1;
    }
    assert items[1..i] == items[1..];
  }

  lemma BulkStringsAppend(ss: seq<string>, s: string)
    ensures Resp.BulkStrings(ss + [s]) == Resp.BulkStrings(ss) + Resp.BulkString(s)
  {
    if ss != [] {
      assert (ss + [s])[1..] == ss[1..] + [s];
      BulkStringsAppend(ss[1..], s);
    }
  }

  method CreateArray(values: seq<string>) returns (result: string)
    ensures result == Resp.CreateArray(values)
  {
    result := Resp.ArrayHeader(|values|);
    for i := 0 to |values|
      invariant result == Resp.ArrayHeader(|values|) + Resp.BulkStrings(values[..i])
    {
      BulkStringsAppend(values[..i], values[i]);
      assert values[..i + 1] == values[..i] + [values[i]];
      result := result + Resp.BulkString(values[i]);
    }
    assert values[..|values|] == values;
  }
}
