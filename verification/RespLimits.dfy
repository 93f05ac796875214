/** The codec away from the happy path: cut-off input, hostile input, non-canonical frames. */
module RespLimits {
  import opened Wrappers
  import opened Decimal
  import opened Resp
  import opened RespTheory

  // ---------------------------------------------------------------- cut-off input

  /** How many leading strings have their whole encodings within the first m bytes. */
  function Fitting(ss: seq<string>, m: nat): (k: nat)
    ensures k <= |ss|
  {
    if ss == [] || m < |BulkString(ss[0])| then 0
    else 1 + Fitting(ss[1..], m - |BulkString(ss[0])|)
  }

  lemma {:induction false} FittingIsMaximal(ss: seq<string>, m: nat)
    ensures var k := Fitting(ss, m);
            && |BulkStrings(ss[..k])| <= m
            && (k < |ss| ==> m < |BulkStrings(ss[..k + 1])|)
  {
    if ss != [] && |BulkString(ss[0])| <= m {
      var k := Fitting(ss, m);
      FittingIsMaximal(ss[1..], m - |BulkString(ss[0])|);
      assert ss[..k][1..] == ss[1..][..k - 1];
      if k < |ss| { assert ss[..k + 1][1..] == ss[1..][..k]; }
    }
  }

  lemma {:induction false} ReadCutLine(head: char, line: string, tail: string)
    requires '\r' !in line
    requires tail == "" || tail == "\r"
    ensures ReadLine([head] + line + tail, 1) == (line, 1 + |line|)
  {
    var data := [head] + line + tail;
    assert data[1..1 + |line|] == line;
    assert forall i :: 1 <= i < 1 + |line| ==> data[i] == line[i - 1];
    LineEndIs(data, 1, 1 + |line|);
  }

  /** The part of a header "<head><number>CRLF" that arrived when it is not complete. */
  predicate CutHeader(n: nat, line: string, tail: string) {
    var s := NatToString(n);
    1 <= |line| <= |s| && line == s[..|line|] && (tail == "" || (tail == "\r" && line == s))
  }

  lemma {:induction false} CutHeaderCases(head: char, n: nat, body: string, m: nat) returns (line: string, tail: string)
    requires 2 <= m < |NatToString(n)| + 3
    ensures CutHeader(n, line, tail)
    ensures ([head] + NatToString(n) + CRLF + body)[..m] == [head] + line + tail
  {
    var s := NatToString(n);
    line := s[..if m - 1 <= |s| then m - 1 else |s|];
    tail := if m - 1 <= |s| then "" else "\r";
  }

  lemma {:induction false} CutHeaderNumber(head: char, n: nat, line: string, tail: string)
    requires n <= INT64_MAX && CutHeader(n, line, tail)
    ensures ReadLine([head] + line + tail, 1) == (line, 1 + |line|)
    ensures Stoll(line).Ok? && 0 <= Stoll(line).value <= n
    ensures tail == "\r" ==> Stoll(line) == Ok(n)
    ensures line != "-1"
  {
    TruncatedNumber(n, |line|);
    ReadCutLine(head, line, tail);
    PrintParseExact(n);
    assert line[0] == NatToString(n)[0];
  }

  lemma {:induction false} ParseCutBulk(s: string, m: nat)
    requires |s| <= INT64_MAX && m < |BulkString(s)|
    ensures Parse(BulkString(s)[..m]) == Null
  {
    var header := NatToString(|s|);
    var body := s + CRLF;
    assert BulkString(s) == ['$'] + header + CRLF + body;
    var data := BulkString(s)[..m];
    if m == 1 {
      ReadCutLine('$', "", "");
      assert data == ['$'] + "" + "";
    } else if 2 <= m < |header| + 3 {
      var line, tail := CutHeaderCases('$', |s|, body, m);
      CutHeaderNumber('$', |s|, line, tail);
    } else if m >= 2 {
      var arrived := body[..m - |header| - 3];
      assert data == "$" + header + CRLF + arrived;
      ParseBulkBody(|s|, arrived);
    }
  }

  lemma {:induction false} TruncatedElements(ss: seq<string>, m: nat)
    requires Sizable(ss) && m <= |BulkStrings(ss)|
    ensures Elements(BulkStrings(ss)[..m], |ss|) == Pointers(Strs(ss[..Fitting(ss, m)]))
  {
    hide Parse, Elements;
    if ss == [] {
      EmptyElements("", 0);
      assert Strs(ss[..0]) == [] && Pointers(Strs(ss[..0])) == [];
    } else {
      var s := ss[0];
      var size := |BulkString(s)|;
      if m < size {
        assert BulkStrings(ss)[..m] == BulkString(s)[..m];
        ParseCutBulk(s, m);
        EmptyElements(BulkString(s)[..m], |ss|);
        assert Pointers(Strs(ss[..0])) == [];
      } else {
        var tail := BulkStrings(ss[1..])[..m - size];
        assert BulkStrings(ss)[..m] == Serialize(Str(s)) + tail;
        ParseBulkFrame(s, tail);
        ElementsStep(Str(s), tail, |ss| - 1);
        TruncatedElements(ss[1..], m - size);
        var k := Fitting(ss, m);
        assert ss[..k][1..] == ss[1..][..k - 1];
        assert Strs(ss[..k])[1..] == Strs(ss[..k][1..]);
        PointersStep(Strs(ss[..k]));
      }
    }
  }

  lemma {:induction false} ParseCutArrayHeader(n: nat, body: string, m: nat)
    requires n <= INT64_MAX && m < |ArrayHeader(n)|
    ensures Parse((ArrayHeader(n) + body)[..m]) == if m <= 1 then Null else To(Array([]))
  {
    assert ArrayHeader(n) + body == ['*'] + NatToString(n) + CRLF + body;
    var data := (ArrayHeader(n) + body)[..m];
    if m == 1 {
      ReadCutLine('*', "", "");
      assert data == ['*'] + "" + "";
    } else if m > 1 {
      var line, tail := CutHeaderCases('*', n, body, m);
      CutHeaderNumber('*', n, line, tail);
      ParseArrayAt(data, line, 1 + |line|, Stoll(line).value);
      assert Parse("\r") == Null;
      EmptyElements(tail, Stoll(line).value);
      assert data[1 + |line|..] == tail;
    }
  }

  /** The strings of an array whose encodings are complete in the first m bytes. */
  function Arrived(ss: seq<string>, m: nat): seq<string> {
    var header := |ArrayHeader(|ss|)|;
    if m < header then [] else ss[..Fitting(ss, m - header)]
  }

  /** Any byte prefix of an encoded array parses to exactly the strings that arrived whole. */
  lemma {:induction false} TruncationSafety(ss: seq<string>, m: nat)
    requires Sizable(ss) && m <= |CreateArray(ss)|
    ensures Parse(CreateArray(ss)[..m])
         == if m <= 1 then Null else To(Array(Pointers(Strs(Arrived(ss, m)))))
  {
    hide Parse, Elements;
    var header := ArrayHeader(|ss|);
    if m < |header| {
      ParseCutArrayHeader(|ss|, BulkStrings(ss), m);
      assert Pointers(Strs([])) == [];
    } else {
      var body := BulkStrings(ss)[..m - |header|];
      assert CreateArray(ss)[..m] == header + body;
      ParseArrayFrame(|ss|, body);
      TruncatedElements(ss, m - |header|);
    }
  }

  // ---------------------------------------------------------------- hostile input

  /** Fewest bytes that can make an array of k items: the header that declares k, four bytes for
      every item but the last and one for the last; none take a star and a digit. */
  function FewestBytes(k: nat): nat {
    if k == 0 then 2 else 4 * k + |NatToString(k)|
  }

  /** No null anywhere, every string shorter than n, and no array with more items than n bytes
      can make. */
  predicate Moderate(v: Value, n: nat)
    decreases v
  {
    match v
    case Str(text) => |text| < n
    case Int(_) => true
    case Array(items) =>
      FewestBytes(|items|) <= n && forall i :: 0 <= i < |items| ==> items[i].To? && Moderate(items[i].value, n)
  }

  lemma {:induction false} ModerateGrows(v: Value, m: nat, n: nat)
    requires Moderate(v, m) && m <= n
    ensures Moderate(v, n)
    decreases v
  {
    if v.Array? {
      forall i | 0 <= i < |v.items| ensures Moderate(v.items[i].value, n) {
        ModerateGrows(v.items[i].value, m, n);
      }
    }
  }

  lemma {:induction false} ElementsAreModerate(rest: string, count: nat)
    ensures var items := Elements(rest, count);
            && (items != [] ==> 4 * (|items| - 1) < |rest| && Parse(rest).To?)
            && forall i :: 0 <= i < |items| ==> items[i].To? && Moderate(items[i].value, |rest|)
    decreases |rest|, 1
  {
    hide Parse, Serialize;
    if count > 0 && rest != "" && Parse(rest).To? {
      var v := Parse(rest).value;
      var tail := Drop(rest, |Serialize(v)|);
      ParseIsModerate(rest);
      ElementsAreModerate(tail, count - 1);
      var items := Elements(tail, count - 1);
      forall i | 0 <= i < |items| ensures Moderate(items[i].value, |rest|) {
        ModerateGrows(items[i].value, |tail|, |rest|);
      }
      assert items != [] ==> tail != "";
    }
  }

  lemma {:induction false} LongerNumber(k: nat, n: nat)
    requires k <= n
    ensures |NatToString(k)| <= |NatToString(n)|
  {
    if k >= 10 { LongerNumber(k / 10, n / 10); }
  }

  lemma {:induction false} ElementsWithinCount(rest: string, count: nat)
    ensures |Elements(rest, count)| <= count
    decreases |rest|, 1
  {
    hide Parse, Serialize;
    if count > 0 && rest != "" && Parse(rest).To? {
      ElementsWithinCount(Drop(rest, |Serialize(Parse(rest).value)|), count - 1);
    }
  }

  /** An item can only follow a header line that ends with CRLF and is as long as the number of
      items takes to write. */
  lemma HeaderBeforeItems(data: string, k: nat)
    requires data != "" && data[0] == '*'
    requires var (line, pos) := ReadLine(data, 1);
             Parse(data[pos..]).To? && Stoll(line).Ok? && 0 <= k <= Stoll(line).value
    ensures ReadLine(data, 1).1 >= 3 + |NatToString(k)|
  {
    var (line, pos) := ReadLine(data, 1);
    assert data[pos..] != "" && data[pos..][0] == data[pos] && data[pos] != '\r';
    PrintIsShortest(line, Stoll(line).value);
    LongerNumber(k, Stoll(line).value);
  }

  /** Whatever count an array header declares, the result holds fewer than |data| / 4 items,
      at every depth, and no null item. */
  lemma {:induction false} ParseIsModerate(data: string)
    ensures Parse(data).To? ==> Moderate(Parse(data).value, |data|)
    decreases |data|, 0
  {
    if Parse(data).To? && data[0] == '*' {
      ParseArrayCases(data);
      hide Parse, Elements;
      var (line, pos) := ReadLine(data, 1);
      var rest := data[pos..];
      var items := Parse(data).value.items;
      ElementsAreModerate(rest, Stoll(line).value);
      forall i | 0 <= i < |items| ensures Moderate(items[i].value, |data|) {
        ModerateGrows(items[i].value, |rest|, |data|);
      }
      if items == [] {
        assert line != "";
      } else {
        ElementsWithinCount(rest, Stoll(line).value);
        HeaderBeforeItems(data, |items|);
      }
    }
  }

  lemma {:induction false} ParseEmptyString(text: string)
    requires text == "+"
    ensures Parse(text) == To(Str(""))
    ensures Elements(text, 1) == [To(Str(""))]
  {
    ReadCutLine('+', "", "");
    assert text == ['+'] + "" + "";
    EmptyElements(Drop(text, |Serialize(Str(""))|), 0);
  }

  /** For every number of items the bound is met: that many items from that many bytes. */
  lemma {:induction false} BoundIsTight(k: nat) returns (data: string)
    requires k <= INT64_MAX
    ensures |data| == FewestBytes(k)
    ensures Parse(data).To? && Parse(data).value.Array? && |Parse(data).value.items| == k
  {
    if k == 0 {
      data := (ArrayHeader(0) + "")[..2];
      ParseCutArrayHeader(0, "", 2);
    } else {
      data := ZerosThenEmpty(k, seq(k - 1, _ => Int(0)));
    }
  }

  lemma ZerosThenEmpty(k: nat, zeros: seq<Value>) returns (data: string)
    requires 1 <= k <= INT64_MAX && |zeros| == k - 1
    requires forall i :: 0 <= i < |zeros| ==> zeros[i] == Int(0)
    ensures |data| == FewestBytes(k)
    ensures Parse(data).To? && Parse(data).value.Array? && |Parse(data).value.items| == k
  {
    var body := Encodings(zeros) + "+";
    data := ArrayHeader(k) + body;
    ZerosAreShort(zeros);
    ParseEmptyString("+");
    assert |Pointers(zeros)| == |zeros|;
    hide Parse, Elements, Encodings, Pointers;
    ParseArrayFrame(k, body);
    ScalarElements(zeros, "+", 1);
    assert |Elements(body, k)| == k;
  }

  lemma {:induction false} ZerosAreShort(vs: seq<Value>)
    requires forall i :: 0 <= i < |vs| ==> vs[i] == Int(0)
    ensures |Encodings(vs)| == 4 * |vs|
  {
    if vs != [] {
      assert IntToString(0) == "0";
      ZerosAreShort(vs[1..]);
    }
  }

  /** What a tree takes up: four per value, and the bytes of its strings. */
  function Weight(v: Value): nat
    decreases v
  {
    match v
    case Str(text) => 4 + |text|
    case Int(_) => 4
    case Array(items) => 4 + ItemsWeight(items)
  }

  function ItemsWeight(items: seq<ValuePtr>): nat
    decreases items
  {
    if items == [] then 0
    else match items[0]
      case Null => ItemsWeight(items[1..])
      case To(v) => assert v < items[0]; Weight(v) + ItemsWeight(items[1..])
  }

  lemma {:induction false} EncodingOutweighs(v: Value)
    ensures Weight(v) <= |Serialize(v)|
    decreases v
  {
    if v.Array? { EncodingsOutweigh(v.items); }
  }

  lemma {:induction false} EncodingsOutweigh(items: seq<ValuePtr>)
    ensures ItemsWeight(items) <= |BulkStrings(SerializeItems(items))|
    decreases items
  {
    if items != [] {
      EncodingsOutweigh(items[1..]);
      if items[0].To? {
        assert items[0].value < items[0];
        EncodingOutweighs(items[0].value);
        assert SerializeItems(items)[1..] == SerializeItems(items[1..]);
      }
    }
  }

  lemma {:induction false} ElementsAreLight(rest: string, count: nat)
    ensures ItemsWeight(Elements(rest, count)) <= if Elements(rest, count) == [] then 0 else |rest| + 3
    decreases |rest|, 1
  {
    hide Parse, Serialize, Weight;
    if count > 0 && rest != "" && Parse(rest).To? {
      var v := Parse(rest).value;
      var tail := Drop(rest, |Serialize(v)|);
      ParseIsLight(rest);
      EncodingOutweighs(v);
      ElementsAreLight(tail, count - 1);
      var items := Elements(tail, count - 1);
      assert Elements(rest, count)[1..] == items;
      assert items != [] ==> tail != "";
    }
  }

  /** The whole result, at all depths together, is no larger than the input: every item but the
      last of an array is paid for by the bytes the parser advances over. */
  lemma {:induction false} ParseIsLight(data: string)
    ensures Parse(data).To? ==> Weight(Parse(data).value) <= |data| + 3
    decreases |data|, 0
  {
    if Parse(data).To? && data[0] == '*' {
      ParseArrayCases(data);
      hide Parse, Elements;
      var (line, pos) := ReadLine(data, 1);
      ElementsAreLight(data[pos..], Stoll(line).value);
      if Parse(data).value.items != [] {
        ElementsAreModerate(data[pos..], Stoll(line).value);
        HeaderBeforeItems(data, 0);
      }
    }
  }

  // ---------------------------------------------------------------- the advance of parseArray

  /** The bytes of a line end that are missing at a position. */
  function MissingCrlf(data: string, pos: nat): nat {
    if CrlfAt(data, pos) then 0 else 2
  }

  /** On every integer the parser accepts: the advance differs from the bytes it consumed by the
      missing line end and the surplus characters of the number. With its CRLF the advance is exact
      if and only if the number is written the canonical way, and too short otherwise. */
  lemma {:induction false} IntegerAdvance(data: string, n: Int64)
    requires data != "" && data[0] == ':' && Parse(data) == To(Int(n))
    ensures var line := ReadLine(data, 1).0;
            var surplus := |line| - |IntToString(n)|;
            && surplus >= 0 && (surplus == 0 <==> line == IntToString(n))
            && |Serialize(Int(n))| - ParseInteger(data).1 == MissingCrlf(data, 1 + |line|) - surplus
  {
    PrintIsShortest(ReadLine(data, 1).0, n);
  }

  /** The same for every bulk string: two line ends may be missing, and the surplus characters are
      those of the length. */
  lemma {:induction false} BulkAdvance(data: string, text: string)
    requires data != "" && data[0] == '$' && Parse(data) == To(Str(text))
    ensures var (line, start) := ReadLine(data, 1);
            var surplus := |line| - |NatToString(|text|)|;
            && surplus >= 0 && (surplus == 0 <==> line == NatToString(|text|))
            && |Serialize(Str(text))| - ParseBulkString(data).1
               == MissingCrlf(data, 1 + |line|) + MissingCrlf(data, start + |text|) - surplus
  {
    AcceptedBulk(data, text);
    hide Parse, ParseBulkString, ReadLine, NatToString;
    PrintIsShortest(ReadLine(data, 1).0, |text|);
  }

  lemma AcceptedBulk(data: string, text: string)
    requires data != "" && data[0] == '$' && Parse(data) == To(Str(text))
    ensures var (line, start) := ReadLine(data, 1);
            && Stoll(line) == Ok(|text|) && start == 3 + |line| - MissingCrlf(data, 1 + |line|)
            && ParseBulkString(data).1 == start + |text| + 2 - MissingCrlf(data, start + |text|)
  {
    hide Parse, Stoll, LineEnd;
    ParseBulkCase(data);
  }

  lemma ParseBulkCase(data: string)
    requires data != "" && data[0] == '$'
    ensures Parse(data) == ParseBulkString(data).0
  {
    hide ParseBulkString;
  }

  /** On a simple string or an error the advance always overshoots. */
  lemma {:induction false} SimpleAdvance(data: string)
    requires data != "" && (data[0] == '+' || data[0] == '-')
    ensures var (text, end) := ReadLine(data, 1);
            && Parse(data) == To(Str(text))
            && |Serialize(Str(text))| - end == |NatToString(|text|)| + 2 + MissingCrlf(data, 1 + |text|)
  {
  }

  /** What the items gain when an array is written: each becomes a bulk string, with its own
      length line and two line ends. */
  function Wrapping(items: seq<ValuePtr>): nat {
    if items == [] then 0
    else (if items[0].To? then 5 + |NatToString(|Serialize(items[0].value)|)| else 0) + Wrapping(items[1..])
  }

  lemma {:induction false} SerializedLength(items: seq<ValuePtr>)
    requires forall i :: 0 <= i < |items| ==> items[i].To?
    ensures |SerializeItems(items)| == |items|
    ensures |BulkStrings(SerializeItems(items))| == Advances(items) + Wrapping(items)
  {
    if items != [] {
      SerializedLength(items[1..]);
      assert SerializeItems(items) == [Serialize(items[0].value)] + SerializeItems(items[1..]);
    }
  }

  lemma ArrayLength(items: seq<ValuePtr>)
    requires forall i :: 0 <= i < |items| ==> items[i].To?
    ensures |Serialize(Array(items))| == 3 + |NatToString(|items|)| + Advances(items) + Wrapping(items)
  {
    SerializedLength(items);
    hide Advances, Wrapping, SerializeItems, BulkStrings, NatToString;
  }

  lemma ItemsAreDeclared(data: string, items: seq<ValuePtr>)
    requires data != "" && data[0] == '*' && Parse(data) == To(Array(items))
    ensures |ReadLine(data, 1).0| >= |NatToString(|items|)|
    ensures forall i :: 0 <= i < |items| ==> items[i].To?
  {
    var (line, start) := ReadLine(data, 1);
    ParseIsModerate(data);
    ParseArrayCases(data);
    hide Parse, Elements;
    ElementsWithinCount(data[start..], Stoll(line).value);
    PrintIsShortest(line, Stoll(line).value);
    LongerNumber(|items|, Stoll(line).value);
  }

  /** On every array the parser accepts: its own loop ends Advances(items) behind its header line,
      and the advance over the whole differs from that by the missing line end, the surplus
      characters of the header and what its items gain by being written as bulk strings. */
  lemma {:induction false} ArrayAdvance(data: string, items: seq<ValuePtr>)
    requires data != "" && data[0] == '*' && Parse(data) == To(Array(items))
    ensures var (line, start) := ReadLine(data, 1);
            var surplus := |line| - |NatToString(|items|)|;
            && surplus >= 0
            && |Serialize(Array(items))| - (start + Advances(items))
               == MissingCrlf(data, 1 + |line|) - surplus + Wrapping(items)
  {
    ItemsAreDeclared(data, items);
    ArrayLength(items);
    hide Parse, Serialize, Advances, Wrapping, NatToString;
  }

  lemma {:induction false} ScalarLengths(vs: seq<Value>)
    ensures |Encodings(vs)| == Advances(Pointers(vs))
    ensures Wrapping(Pointers(vs)) == 0 <==> vs == []
  {
    if vs != [] {
      PointersStep(vs);
      ScalarLengths(vs[1..]);
    }
  }

  /** On a nested array of canonical scalars the advance overshoots unless the array is empty, or
      its header is padded with exactly as many zeros as its items gain. */
  lemma {:induction false} PaddedArrayAdvance(zeros: string, vs: seq<Value>, rest: string)
    requires forall i :: 0 <= i < |zeros| ==> zeros[i] == '0'
    requires |vs| <= INT64_MAX && forall v :: v in vs ==> Scalar(v)
    ensures var frame := ['*'] + (zeros + NatToString(|vs|)) + CRLF + Encodings(vs);
            && Parse(frame + rest) == To(Array(Pointers(vs)))
            && |Serialize(Array(Pointers(vs)))| - |frame| == Wrapping(Pointers(vs)) - |zeros|
            && (Wrapping(Pointers(vs)) == 0 <==> vs == [])
  {
    ArrayLength(Pointers(vs));
    ScalarLengths(vs);
    hide Advances, Wrapping;
    PaddedArrayParses(zeros, vs, rest);
  }

  lemma PaddedHeader(zeros: string, n: nat, body: string)
    requires n <= INT64_MAX && forall i :: 0 <= i < |zeros| ==> zeros[i] == '0'
    ensures Parse(['*'] + (zeros + NatToString(n)) + CRLF + body) == To(Array(Elements(body, n)))
  {
    var line := zeros + NatToString(n);
    var data := ['*'] + line + CRLF + body;
    ReadWholeLine('*', line, body);
    LeadingZeros(zeros, n);
    ParseArrayAt(data, line, |line| + 3, n);
    hide Parse, Elements, ReadLine;
    assert data[|line| + 3..] == body;
  }

  lemma PaddedArrayParses(zeros: string, vs: seq<Value>, rest: string)
    requires forall i :: 0 <= i < |zeros| ==> zeros[i] == '0'
    requires |vs| <= INT64_MAX && forall v :: v in vs ==> Scalar(v)
    ensures Parse(['*'] + (zeros + NatToString(|vs|)) + CRLF + Encodings(vs) + rest) == To(Array(Pointers(vs)))
  {
    hide Parse, Elements, Serialize, NatToString;
    var head := ['*'] + (zeros + NatToString(|vs|)) + CRLF;
    assert head + Encodings(vs) + rest == head + (Encodings(vs) + rest);
    PaddedHeader(zeros, |vs|, Encodings(vs) + rest);
    ScalarElements(vs, rest, 0);
    EmptyElements(rest, 0);
    assert Pointers(vs) + [] == Pointers(vs);
  }

  // ---------------------------------------------------------------- malformed items

  /** A malformed item, such as a null bulk string, ends the array: the canonical scalars before
      it are returned and everything from it on is dropped. */
  lemma {:induction false} MalformedItemEndsArray(vs: seq<Value>, rest: string, more: nat)
    requires |vs| + more <= INT64_MAX && forall v :: v in vs ==> Scalar(v)
    requires Parse(rest) == Null
    ensures Parse(ArrayHeader(|vs| + more) + (Encodings(vs) + rest)) == To(Array(Pointers(vs)))
  {
    hide Parse, Elements, Serialize;
    ParseArrayFrame(|vs| + more, Encodings(vs) + rest);
    ScalarElements(vs, rest, more);
    EmptyElements(rest, more);
    assert Pointers(vs) + [] == Pointers(vs);
  }

  lemma {:induction false} NullBulkIsNull(rest: string)
    ensures Parse("$-1\r\n" + rest) == Null
  {
    assert "$-1\r\n" + rest == ['$'] + "-1" + CRLF + rest;
    ReadWholeLine('$', "-1", rest);
  }
}
