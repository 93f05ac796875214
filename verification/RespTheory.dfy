/** What the codec guarantees: round trips, exact consumption, truncation, work bound. */
module RespTheory {
  import opened Wrappers
  import opened Decimal
  import opened Resp

  // ---------------------------------------------------------------- one frame

  lemma {:induction false} LineEndIs(data: string, pos: nat, e: nat)
    requires pos <= e <= |data|
    requires forall i :: pos <= i < e ==> data[i] != '\r'
    requires e < |data| ==> data[e] == '\r'
    ensures LineEnd(data, pos) == e
    decreases e - pos
  {
    if pos < e { LineEndIs(data, pos + 1, e); }
  }

  lemma {:induction false} ReadWholeLine(head: char, line: string, rest: string)
    requires '\r' !in line
    ensures ReadLine([head] + line + CRLF + rest, 1) == (line, |line| + 3)
  {
    var data := [head] + line + CRLF + rest;
    var e := 1 + |line|;
    assert data[1..e] == line;
    assert forall i :: 1 <= i < e ==> data[i] == line[i - 1];
    assert data[e] == '\r' && data[e + 1] == '\n';
    LineEndIs(data, 1, e);
  }

  lemma ParseBulkAt(data: string, line: string, pos: nat, n: nat)
    requires data != "" && data[0] == '$'
    requires ReadLine(data, 1) == (line, pos) && line != "-1" && Stoll(line) == Ok(n)
    ensures Parse(data) == if pos + n + 2 <= |data| then To(Str(data[pos..pos + n])) else Null
  {
    hide Stoll, ReadLine, Elements;
  }

  lemma ParseArrayAt(data: string, line: string, pos: nat, n: nat)
    requires data != "" && data[0] == '*'
    requires ReadLine(data, 1) == (line, pos) && Stoll(line) == Ok(n)
    ensures Parse(data) == To(Array(Elements(data[pos..], n)))
  {
  }

  lemma ParseArrayCases(data: string)
    requires data != "" && data[0] == '*'
    ensures var (line, pos) := ReadLine(data, 1);
            Parse(data)
            == match Stoll(line)
               case Err(_) => Null
               case Ok(n) =>
                 if n < 0 then Null else To(Array(Elements(Drop(data, pos), n)))
  {
  }

  lemma NotMinusOne(line: string)
    requires line != "" && IsDigit(line[0])
    ensures line != "-1"
  {
  }

  /** A complete length line followed by whatever arrived of the body. */
  lemma {:induction false} ParseBulkBody(n: nat, body: string)
    requires n <= INT64_MAX
    ensures Parse("$" + NatToString(n) + CRLF + body)
         == if n + 2 <= |body| then To(Str(body[..n])) else Null
  {
    var line := NatToString(n);
    var data := ['$'] + line + CRLF + body;
    assert "$" + line + CRLF + body == data;
    ReadWholeLine('$', line, body);
    PrintParseExact(n);
    NotMinusOne(line);
    var pos := |line| + 3;
    ParseBulkAt(data, line, pos, n);
    hide Parse;
    assert data[pos..] == body;
    if n + 2 <= |body| { assert data[pos..pos + n] == body[..n]; }
  }

  /** An encoded string is read back, and the parser stops right behind it. */
  lemma {:induction false} BulkConsumed(s: string, rest: string)
    requires |s| <= INT64_MAX
    ensures ParseBulkString(BulkString(s) + rest) == (To(Str(s)), |BulkString(s)|)
  {
    hide BulkString, ParseBulkString, ReadLine, Stoll, IntToString;
    var line, data := NatToString(|s|), BulkString(s) + rest;
    BulkShape(s, rest);
    ReadWholeLine('$', line, s + CRLF + rest);
    LengthIsRead(|s|);
    NotMinusOne(line);
    BulkBody(data, line, s, rest);
  }

  lemma BulkShape(s: string, rest: string)
    ensures |BulkString(s)| == |NatToString(|s|)| + |s| + 5
    ensures BulkString(s) + rest == ['$'] + NatToString(|s|) + CRLF + (s + CRLF + rest)
  {
    hide NatToString;
  }

  lemma LengthIsRead(n: nat)
    requires n <= INT64_MAX
    ensures Stoll(NatToString(n)) == Ok(n)
  {
    PrintParseExact(n);
  }

  lemma BulkBody(data: string, line: string, s: string, rest: string)
    requires data == ['$'] + line + CRLF + (s + CRLF + rest)
    requires ReadLine(data, 1) == (line, |line| + 3) && line != "-1" && Stoll(line) == Ok(|s|)
    ensures ParseBulkString(data) == (To(Str(s)), |line| + |s| + 5)
  {
    hide ReadLine, Stoll;
    var pos := |line| + 3;
    assert data[pos..pos + |s|] == s;
    assert data[pos + |s|] == '\r' && data[pos + |s| + 1] == '\n';
  }

  /** So is an encoded integer. */
  lemma {:induction false} IntegerConsumed(n: Int64, rest: string)
    ensures ParseInteger(Integer(n) + rest) == (To(Int(n)), |Integer(n)|)
  {
    var line := IntToString(n);
    assert Integer(n) + rest == [':'] + line + CRLF + rest;
    ReadWholeLine(':', line, rest);
    PrintParseExact(n);
  }

  /** A simple string or an error is read back, as a string, exactly if it has no carriage return. */
  lemma {:induction false} SimpleRoundTrip(s: string, rest: string)
    ensures Parse(SimpleString(s) + rest) == To(Str(s)) <==> '\r' !in s
    ensures Parse(ErrorString(s) + rest) == To(Str(s)) <==> '\r' !in s
  {
    LineRoundTrip('+', s, rest);
    LineRoundTrip('-', s, rest);
  }

  lemma LineRoundTrip(head: char, s: string, rest: string)
    requires head == '+' || head == '-'
    ensures Parse([head] + s + CRLF + rest) == To(Str(s)) <==> '\r' !in s
  {
    var data := [head] + s + CRLF + rest;
    if '\r' !in s { ReadWholeLine(head, s, rest); }
    LineHasNoReturn(data);
  }

  lemma LineHasNoReturn(data: string)
    requires data != ""
    ensures '\r' !in ReadLine(data, 1).0
  {
  }

  /** Exactly which texts parse to null. */
  lemma {:induction false} ParseIsNull(data: string)
    ensures Parse(data) == Null <==>
              if data == "" || data[0] !in "+-:$*" then true
              else
                var (line, start) := ReadLine(data, 1);
                && data[0] !in "+-"
                && (Stoll(line).Err?
                    || (data[0] != ':' && Stoll(line).value < 0)
                    || (data[0] == '$' && |data| - start < Stoll(line).value + 2))
  {
    PrintParseExact(-1);
    assert IntToString(-1) == "-1";
    hide Elements;
  }

  lemma {:induction false} ParseBulkFrame(s: string, rest: string)
    requires |s| <= INT64_MAX
    ensures Parse(BulkString(s) + rest) == To(Str(s))
  {
    var body := s + CRLF + rest;
    assert BulkString(s) + rest == "$" + NatToString(|s|) + CRLF + body;
    ParseBulkBody(|s|, body);
    assert body[..|s|] == s;
  }

  lemma {:induction false} ParseIntegerFrame(n: Int64, rest: string)
    ensures Parse(Integer(n) + rest) == To(Int(n))
  {
    var line := IntToString(n);
    assert Integer(n) + rest == [':'] + line + CRLF + rest;
    ReadWholeLine(':', line, rest);
    PrintParseExact(n);
  }

  lemma {:induction false} ParseArrayFrame(n: nat, body: string)
    requires n <= INT64_MAX
    ensures Parse(ArrayHeader(n) + body) == To(Array(Elements(body, n)))
  {
    var line := NatToString(n);
    var data := ArrayHeader(n) + body;
    assert data == ['*'] + line + CRLF + body;
    ReadWholeLine('*', line, body);
    PrintParseExact(n);
    ParseArrayAt(data, line, |line| + 3, n);
    hide Parse;
    assert data[|line| + 3..] == body;
  }

  // ---------------------------------------------------------------- arrays of scalars

  /** A string or integer the wire can carry. */
  predicate Scalar(v: Value) {
    v.Int? || (v.Str? && |v.text| <= INT64_MAX)
  }

  function Encodings(vs: seq<Value>): string {
    if vs == [] then "" else Serialize(vs[0]) + Encodings(vs[1..])
  }

  function Pointers(vs: seq<Value>): seq<ValuePtr> {
    seq(|vs|, i requires 0 <= i < |vs| => To(vs[i]))
  }

  lemma {:induction false} ParseScalarFrame(v: Value, rest: string)
    requires Scalar(v)
    ensures Parse(Serialize(v) + rest) == To(v)
  {
    if v.Str? { ParseBulkFrame(v.text, rest); } else { ParseIntegerFrame(v.number, rest); }
  }

  lemma {:induction false} ElementsStep(v: Value, tail: string, count: nat)
    requires Parse(Serialize(v) + tail) == To(v)
    ensures Elements(Serialize(v) + tail, count + 1) == [To(v)] + Elements(tail, count)
  {
    var data := Serialize(v) + tail;
    assert Drop(data, |Serialize(v)|) == tail;
  }

  lemma EncodingsStep(vs: seq<Value>, rest: string)
    requires vs != []
    ensures Encodings(vs) + rest == Serialize(vs[0]) + (Encodings(vs[1..]) + rest)
  {
  }

  lemma PointersStep(vs: seq<Value>)
    requires vs != []
    ensures Pointers(vs) == [To(vs[0])] + Pointers(vs[1..])
  {
  }

  lemma EmptyElements(rest: string, count: nat)
    requires count == 0 || rest == "" || Parse(rest) == Null
    ensures Elements(rest, count) == []
  {
  }

  /** Canonical scalars at the front are read one by one; what follows them is parsed next. */
  lemma {:induction false} ScalarElements(vs: seq<Value>, rest: string, more: nat)
    requires forall v :: v in vs ==> Scalar(v)
    ensures Elements(Encodings(vs) + rest, |vs| + more) == Pointers(vs) + Elements(rest, more)
  {
    hide Parse, Serialize, Elements;
    if vs == [] {
      assert Encodings(vs) + rest == rest && Pointers(vs) == [];
    } else {
      hide Encodings, Pointers;
      var v, tail := vs[0], Encodings(vs[1..]) + rest;
      EncodingsStep(vs, rest);
      ParseScalarFrame(v, tail);
      ElementsStep(v, tail, |vs| - 1 + more);
      ScalarElements(vs[1..], rest, more);
      PointersStep(vs);
    }
  }

  /** An array of canonically encoded strings and integers parses to exactly those values,
      whatever bytes follow. */
  lemma {:induction false} CanonicalArrayRoundTrip(vs: seq<Value>, rest: string)
    requires |vs| <= INT64_MAX
    requires forall v :: v in vs ==> Scalar(v)
    ensures Parse(ArrayHeader(|vs|) + Encodings(vs) + rest) == To(Array(Pointers(vs)))
  {
    hide Parse, Elements, Serialize;
    ParseArrayFrame(|vs|, Encodings(vs) + rest);
    assert ArrayHeader(|vs|) + Encodings(vs) + rest == ArrayHeader(|vs|) + (Encodings(vs) + rest);
    ScalarElements(vs, rest, 0);
    EmptyElements(rest, 0);
    assert Pointers(vs) + [] == Pointers(vs);
  }

  /** What fits into a vector of std::string. */
  predicate Sizable(ss: seq<string>) {
    |ss| <= INT64_MAX && forall s :: s in ss ==> |s| <= INT64_MAX
  }

  function Strs(ss: seq<string>): seq<Value> {
    seq(|ss|, i requires 0 <= i < |ss| => Str(ss[i]))
  }

  lemma {:induction false} BulkStringsAreEncodings(ss: seq<string>)
    ensures Encodings(Strs(ss)) == BulkStrings(ss)
  {
    if ss != [] {
      assert Strs(ss)[1..] == Strs(ss[1..]);
      BulkStringsAreEncodings(ss[1..]);
    }
  }

  lemma {:induction false} CreateArrayRoundTrip(ss: seq<string>, rest: string)
    requires Sizable(ss)
    ensures Parse(CreateArray(ss) + rest) == To(Array(Pointers(Strs(ss))))
  {
    BulkStringsAreEncodings(ss);
    CanonicalArrayRoundTrip(Strs(ss), rest);
  }

  lemma {:induction false} TextsOfStrs(ss: seq<string>)
    ensures Texts(Pointers(Strs(ss))) == ss
  {
    if ss != [] {
      assert Pointers(Strs(ss))[1..] == Pointers(Strs(ss[1..]));
      TextsOfStrs(ss[1..]);
    }
  }

  /** A command built by createArray is read back exactly, upper-cased, for arbitrary bytes in
      the name and arguments and arbitrary trailing bytes. */
  lemma {:induction false} CommandRoundTrip(name: string, args: seq<string>, rest: string)
    requires Sizable([name] + args)
    ensures ParseCommand(CreateArray([name] + args) + rest) == Command(Upper(name), args)
  {
    var ss := [name] + args;
    CreateArrayRoundTrip(ss, rest);
    assert Pointers(Strs(ss))[1..] == Pointers(Strs(args));
    TextsOfStrs(args);
  }

  /** Only a non-empty array makes a command: any other input, such as a plain line of text, gives
      the empty command. The name is empty if the first item is no string. */
  lemma {:induction false} CommandNeedsArray(data: string)
    ensures ParseCommand(data) != Command("", []) ==>
              Parse(data).To? && Parse(data).value.Array? && Parse(data).value.items != []
    ensures data == "" || data[0] != '*' ==> ParseCommand(data) == Command("", [])
    ensures Parse(data).To? && Parse(data).value.Array? && Parse(data).value.items != [] ==>
              var first := Parse(data).value.items[0];
              ParseCommand(data).name == if IsText(first) then Upper(first.value.text) else ""
  {
    hide Elements;
  }

  lemma {:induction false} TextsConcat(a: seq<ValuePtr>, b: seq<ValuePtr>)
    ensures Texts(a + b) == Texts(a) + Texts(b)
  {
    if a == [] {
      assert a + b == b;
    } else {
      assert (a + b)[1..] == a[1..] + b;
      TextsConcat(a[1..], b);
    }
  }

  /** An item that is no string is passed over: the arguments are as if it were not there. */
  lemma {:induction false} OtherItemsAreSkipped(a: seq<string>, other: ValuePtr, b: seq<string>)
    requires !IsText(other)
    ensures Texts(Pointers(Strs(a)) + [other] + Pointers(Strs(b))) == a + b
  {
    TextsOfStrs(a);
    TextsOfStrs(b);
    TextsConcat(Pointers(Strs(a)) + [other], Pointers(Strs(b)));
    TextsConcat(Pointers(Strs(a)), [other]);
  }

  // ---------------------------------------------------------------- whole value trees

  /** The tree without its null items, which serialize leaves out. */
  function Prune(v: Value): Value
    decreases v
  {
    match v
    case Array(items) => Array(PruneItems(items))
    case _ => v
  }

  function PruneItems(items: seq<ValuePtr>): (r: seq<ValuePtr>)
    decreases items
  {
    if items == [] then []
    else match items[0]
      case Null => PruneItems(items[1..])
      case To(v) => assert v < items[0]; [To(Prune(v))] + PruneItems(items[1..])
  }

  predicate NullFree(v: Value)
    decreases v
  {
    v.Array? ==> forall i :: 0 <= i < |v.items| ==> v.items[i].To? && NullFree(v.items[i].value)
  }

  /** Parsing, then parsing again every string item that an array came back with. */
  function Decode(data: string): ValuePtr
    decreases |data|, 1
  {
    match Parse(data)
    case To(Array(items)) => To(Array(DecodeItems(items, |data|)))
    case other => other
  }

  function DecodeItems(items: seq<ValuePtr>, bound: nat): seq<ValuePtr>
    decreases bound, 0, |items|
  {
    if items == [] then []
    else
      var first := if IsText(items[0]) && |items[0].value.text| < bound
                   then Decode(items[0].value.text) else Null;
      [first] + DecodeItems(items[1..], bound)
  }

  lemma {:induction false} PartsAreShorter(ss: seq<string>, s: string)
    requires s in ss
    ensures |s| + 6 <= |BulkStrings(ss)| && |ss| <= |BulkStrings(ss)|
  {
    if s != ss[0] { PartsAreShorter(ss[1..], s); }
    if |ss| > 1 { PartsAreShorter(ss[1..], ss[1]); }
  }

  lemma {:induction false} PartsAreSizable(ss: seq<string>)
    requires |CreateArray(ss)| <= INT64_MAX
    ensures Sizable(ss) && forall s :: s in ss ==> |s| < |CreateArray(ss)|
  {
    forall s | s in ss ensures |s| < |CreateArray(ss)| && |ss| <= INT64_MAX {
      PartsAreShorter(ss, s);
    }
    assert ss != [] ==> ss[0] in ss;
  }

  lemma {:induction false} DecodeSerializedItems(items: seq<ValuePtr>, bound: nat)
    requires bound <= INT64_MAX
    requires forall s :: s in SerializeItems(items) ==> |s| < bound
    ensures DecodeItems(Pointers(Strs(SerializeItems(items))), bound) == PruneItems(items)
    decreases items
  {
    if items != [] {
      var ss := SerializeItems(items);
      DecodeSerializedItems(items[1..], bound) by {
        assert forall s :: s in SerializeItems(items[1..]) ==> s in ss;
      }
      match items[0] {
        case Null =>
        case To(v) =>
          assert ss[0] in ss;
          assert v < items[0];
          DecodeSerialize(v);
          assert Pointers(Strs(ss))[1..] == Pointers(Strs(SerializeItems(items[1..])));
      }
    }
  }

  /** Decoding an encoded tree yields the tree without its null items; every string and every
      64-bit integer leaf comes back. */
  lemma {:induction false} DecodeSerialize(v: Value)
    requires |Serialize(v)| <= INT64_MAX
    ensures Decode(Serialize(v)) == To(Prune(v))
    decreases v
  {
    var data := Serialize(v);
    assert data + "" == data;
    match v {
      case Str(text) => ParseBulkFrame(text, "");
      case Int(number) => ParseIntegerFrame(number, "");
      case Array(items) =>
        var ss := SerializeItems(items);
        PartsAreSizable(ss);
        CreateArrayRoundTrip(ss, "");
        DecodeSerializedItems(items, |data|);
    }
  }

  lemma {:induction false} SerializePruned(v: Value)
    ensures Serialize(Prune(v)) == Serialize(v)
    decreases v
  {
    if v.Array? { SerializePrunedItems(v.items); }
  }

  lemma {:induction false} SerializePrunedItems(items: seq<ValuePtr>)
    ensures SerializeItems(PruneItems(items)) == SerializeItems(items)
    decreases items
  {
    if items != [] {
      SerializePrunedItems(items[1..]);
      if items[0].To? {
        assert items[0].value < items[0];
        SerializePruned(items[0].value);
        assert PruneItems(items)[1..] == PruneItems(items[1..]);
      }
    }
  }

  /** Two trees have the same encoding exactly when they differ only in null items. */
  lemma {:induction false} SerializeInjective(v: Value, w: Value)
    requires |Serialize(v)| <= INT64_MAX
    ensures Serialize(v) == Serialize(w) <==> Prune(v) == Prune(w)
  {
    SerializePruned(v);
    SerializePruned(w);
    if Serialize(v) == Serialize(w) {
      DecodeSerialize(v);
      DecodeSerialize(w);
    }
  }

  lemma {:induction false} PruneKeepsLength(items: seq<ValuePtr>)
    ensures |PruneItems(items)| <= |items|
    ensures |PruneItems(items)| == |items| <==> forall i :: 0 <= i < |items| ==> items[i].To?
    ensures |PruneItems(items)| == |items| ==>
              forall i :: 0 <= i < |items| ==> PruneItems(items)[i] == To(Prune(items[i].value))
    decreases items
  {
    if items != [] {
      var tail := items[1..];
      PruneKeepsLength(tail);
      assert forall i :: 1 <= i < |items| ==> items[i] == tail[i - 1];
      assert forall i :: 0 <= i < |tail| ==> tail[i] == items[i + 1];
    }
  }

  lemma {:induction false} PruneIsIdentity(v: Value)
    ensures Prune(v) == v <==> NullFree(v)
    decreases v
  {
    if v.Array? {
      var items := v.items;
      PruneKeepsLength(items);
      forall i | 0 <= i < |items| && items[i].To?
        ensures Prune(items[i].value) == items[i].value <==> NullFree(items[i].value)
      {
        PruneIsIdentity(items[i].value);
      }
      if NullFree(v) { assert PruneItems(items) == items; }
    }
  }

  /** The round trip is exact on precisely the trees without null items. */
  lemma {:induction false} DecodeSerializeExact(v: Value)
    requires |Serialize(v)| <= INT64_MAX
    ensures Decode(Serialize(v)) == To(v) <==> NullFree(v)
  {
    DecodeSerialize(v);
    PruneIsIdentity(v);
  }
}
