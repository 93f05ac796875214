/** The master's command log and the framing of commands (replication/replication_manager.cpp). */
module ReplicationLog {
  import opened Wrappers
  import opened Decimal
  import opened Text

  // ---------------------------------------------------------------- framing

  /** serializeReplicationCommand: length, colon, command. */
  function Frame(command: string): string {
    NatToString(|command|) + ":" + command
  }

  /** deserializeReplicationCommand; stoi may throw. A negative length becomes a huge size_t in
      substr and so takes all that is left, as does one that is too long. */
  function Unframe(data: string): Result<string, NumberError> {
    var p := Find(data, ':');
    if p == |data| then Ok("")
    else match Stoi(data[..p])
      case Err(e) => Err(e)
      case Ok(n) => if n < 0 || p + 1 + n > |data| then Ok(data[p + 1..]) else Ok(data[p + 1..p + 1 + n])
  }

  /** A framed command comes back whole, whatever it contains and whatever follows it, exactly
      when its length fits an int; a longer one makes stoi throw. */
  lemma {:induction false} FrameRoundTrip(command: string, rest: string)
    ensures Unframe(Frame(command) + rest) == Ok(command) <==> |command| <= INT32_MAX
    ensures |command| > INT32_MAX ==> Unframe(Frame(command) + rest) == Err(OutOfRange)
  {
    var digits, data := NatToString(|command|), Frame(command) + rest;
    assert data == digits + ([':'] + command + rest);
    assert data[..|digits|] == digits && data[|digits|] == ':';
    assert forall i :: 0 <= i < |digits| ==> digits[i] != ':';
    FindIs(data, ':', |digits|);
    PrintParseExact(|command|);
    var p := |digits|;
    assert data[p + 1..p + 1 + |command|] == command;
  }

  lemma FrameParts(command: string, rest: string)
    ensures var digits, data := NatToString(|command|), Frame(command) + rest;
            && Find(data, ':') == |digits| && data[..|digits|] == digits
            && data[|digits| + 1..] == command + rest
  {
    var digits, data := NatToString(|command|), Frame(command) + rest;
    assert data == digits + ([':'] + command + rest);
    assert forall i :: 0 <= i < |digits| ==> digits[i] != ':';
    FindIs(data, ':', |digits|);
  }

  /** Frames in a row can be told apart: no frame starts another one. */
  lemma {:induction false} FramesArePrefixFree(a: string, x: string, b: string, y: string)
    requires Frame(a) + x == Frame(b) + y
    ensures a == b && x == y
  {
    FrameParts(a, x);
    FrameParts(b, y);
    IntToStringInjective(|a|, |b|);
    assert (a + x)[..|a|] == a && (b + y)[..|b|] == b;
    assert (a + x)[|a|..] == x && (b + y)[|b|..] == y;
  }

  lemma {:induction false} NoColonReadsEmpty(data: string)
    ensures Unframe(data) == Ok("") || ':' in data
  {
    if ':' !in data { assert Find(data, ':') == |data|; }
  }

  /** A length takes as much as there is, up to itself. */
  lemma {:induction false} LengthTakesWhatIsThere(n: nat, body: string)
    requires n <= INT32_MAX
    ensures Unframe(NatToString(n) + ":" + body) == Ok(if n <= |body| then body[..n] else body)
  {
    var digits := NatToString(n);
    var data := digits + ":" + body;
    assert data[..|digits|] == digits && data[|digits|] == ':' && data[|digits| + 1..] == body;
    assert forall i :: 0 <= i < |digits| ==> digits[i] != ':';
    FindIs(data, ':', |digits|);
    PrintParseExact(n);
    UnframeAt(data, body, |digits|, n);
  }

  lemma UnframeAt(data: string, body: string, p: nat, n: nat)
    requires p < |data| && Find(data, ':') == p && data[p + 1..] == body && Stoi(data[..p]) == Ok(n)
    ensures Unframe(data) == Ok(if n <= |body| then body[..n] else body)
  {
    hide Find, Stoi;
    if n <= |body| { assert data[p + 1..p + 1 + n] == body[..n]; }
  }

  /** A frame cut off anywhere is not noticed: it reads back as what arrived of the command. */
  lemma {:induction false} CutFrameReadsBack(command: string, m: nat)
    requires |command| <= INT32_MAX && m <= |Frame(command)|
    ensures var p := |NatToString(|command|)|;
            Unframe(Frame(command)[..m]) == Ok(if m <= p then "" else command[..m - p - 1])
  {
    hide Unframe;
    var digits, data := NatToString(|command|), Frame(command)[..m];
    hide NatToString;
    if m <= |digits| {
      assert forall i :: 0 <= i < m ==> data[i] == digits[i];
      NoColonReadsEmpty(data);
    } else {
      var body := command[..m - |digits| - 1];
      assert data == digits + ":" + body;
      LengthTakesWhatIsThere(|command|, body);
      assert body[..|body|] == body;
    }
  }

  /** A negative length takes everything. */
  lemma {:induction false} NegativeLengthTakesAll(n: int, rest: string)
    requires 0 < n <= INT32_MAX + 1
    ensures Unframe(IntToString(-n) + ":" + rest) == Ok(rest)
  {
    var digits := IntToString(-n);
    var data := digits + ":" + rest;
    assert data[..|digits|] == digits && data[|digits|] == ':' && data[|digits| + 1..] == rest;
    assert forall i :: 0 <= i < |digits| ==> digits[i] != ':';
    FindIs(data, ':', |digits|);
    PrintParseExact(-n);
  }

  /** A text that reads back as a command needs a length, of two characters if the command is
      longer than nine, and a colon in front of it. */
  lemma ReadBackIsLong(data: string, command: string)
    requires command != "" && Unframe(data) == Ok(command)
    ensures |data| >= |command| + if |command| <= 9 then 2 else 3
  {
    var p := Find(data, ':');
    if p == 1 {
      var n := Stoi(data[..p]).value;
      PrintIsShortest(data[..p], n);
      assert n < 10;
    }
  }

  lemma LongFramesAreBeaten(command: string)
    requires |command| >= 100
    ensures exists data :: Unframe(data) == Ok(command) && |Frame(command)| > |data|
  {
    hide Unframe;
    LengthOfNumber(|command|);
    MinusOne();
    hide NatToString, IntToString;
    NegativeLengthTakesAll(1, command);
    var data := IntToString(-1) + ":" + command;
    assert Unframe(data) == Ok(command) && |Frame(command)| > |data|;
  }

  lemma MinusOne()
    ensures IntToString(-1) == "-1"
  {
  }

  /** Of all texts that read back as a command its frame is a shortest exactly for commands of one
      to 99 characters: "-1:" in front of a longer one takes up less, and nothing at all reads back
      as the empty one. */
  lemma {:induction false} FrameIsShortest(command: string)
    ensures (forall data :: Unframe(data) == Ok(command) ==> |Frame(command)| <= |data|)
       <==> 1 <= |command| <= 99
  {
    if command == "" {
      assert Unframe("") == Ok("");
    } else if |command| >= 100 {
      LongFramesAreBeaten(command);
    } else {
      LengthOfNumber(|command|);
      hide Unframe;
      forall data | Unframe(data) == Ok(command) ensures |Frame(command)| <= |data| {
        ReadBackIsLong(data, command);
      }
    }
  }

  lemma LengthOfNumber(n: nat)
    ensures |NatToString(n)| >= if n < 10 then 1 else if n < 100 then 2 else 3
    ensures n < 100 ==> |NatToString(n)| <= 2
  {
    if n >= 10 { assert NatToString(n) == NatToString(n / 10) + NatToString(n % 10); }
    if n >= 100 { assert |NatToString(n / 10)| >= 2; }
  }

  // ---------------------------------------------------------------- other messages

  function HandshakeReply(offset: int): string {
    "MASTER:OK:" + IntToString(offset)
  }

  function SyncMessage(from: int, to: int): string {
    "SYNC:" + IntToString(from) + ":" + IntToString(to)
  }

  /** handleSyncRequest, for a slave that is so many commands behind. */
  function SyncAnswer(behind: int): string {
    if behind <= 0 then "SYNC:OK:0" else "SYNC:START:" + IntToString(behind)
  }

  /** The offsets can be read back from the messages. */
  lemma {:induction false} MessagesReadBack(from: int, to: int)
    ensures var reply := HandshakeReply(to);
            reply[..10] == "MASTER:OK:" && ParsePrefix(reply[10..]) == Some(to)
    ensures var message := SyncMessage(from, to);
            var p := |IntToString(from)| + 6;
            && |message| >= p && message[..5] == "SYNC:" && ParsePrefix(message[5..]) == Some(from)
            && message[p - 1] == ':' && ParsePrefix(message[p..]) == Some(to)
  {
    var message, p := SyncMessage(from, to), |IntToString(from)| + 6;
    assert HandshakeReply(to)[10..] == IntToString(to);
    assert message[5..] == IntToString(from) + (":" + IntToString(to));
    assert message[p..] == IntToString(to);
    PrintParseExact(to);
    PrintParse(from, ":" + IntToString(to));
  }

  /** A slave that is not behind is told so, any other by how much. */
  lemma {:induction false} SyncAnswerReadsBack(behind: int)
    ensures behind <= 0 <==> SyncAnswer(behind) == "SYNC:OK:0"
    ensures behind > 0 ==> var answer := SyncAnswer(behind);
              |answer| > 11 && answer[..11] == "SYNC:START:" && ParsePrefix(answer[11..]) == Some(behind)
  {
    if behind > 0 {
      assert SyncAnswer(behind)[11..] == IntToString(behind);
      assert SyncAnswer(behind)[5] == 'S';
      PrintParseExact(behind);
    }
  }

  // ---------------------------------------------------------------- the log

  datatype LogEntry = LogEntry(offset: int, command: string)

  function Trim(log: seq<LogEntry>, max: nat): seq<LogEntry>
    decreases |log|
  {
    if |log| > max then Trim(log[1..], max) else log
  }

  /** logReplicationEntry: the log after a command was appended under the given offset. */
  function Append(log: seq<LogEntry>, offset: int, command: string, max: nat): seq<LogEntry> {
    Trim(log + [LogEntry(offset, command)], max)
  }

  /** processReplicationQueue: the entries it broadcasts and the offset it ends with. */
  function Drain(log: seq<LogEntry>, current: int): (seq<LogEntry>, int) {
    if log == [] then ([], current)
    else if log[0].offset > current then
      var (rest, last) := Drain(log[1..], log[0].offset);
      ([log[0]] + rest, last)
    else Drain(log[1..], current)
  }

  /** The log is the tail of the history: consecutive offsets ending just below the next one,
      and no more entries than allowed. */
  predicate Logged(history: seq<string>, log: seq<LogEntry>, offset: int, max: nat) {
    && offset == |history|
    && |log| <= max && |log| <= |history|
    && forall i :: 0 <= i < |log| ==>
         log[i] == LogEntry(|history| - |log| + i, history[|history| - |log| + i])
  }

  lemma {:induction false} TrimIsTail(log: seq<LogEntry>, max: nat)
    ensures Trim(log, max) == if |log| <= max then log else log[|log| - max..]
    decreases |log|
  {
    if |log| > max { TrimIsTail(log[1..], max); }
  }

  lemma {:induction false} AppendKeepsLogged(history: seq<string>, log: seq<LogEntry>, command: string, max: nat)
    requires Logged(history, log, |history|, max)
    ensures Logged(history + [command], Append(log, |history|, command, max), |history| + 1, max)
  {
    TrimIsTail(log + [LogEntry(|history|, command)], max);
  }

  /** Draining broadcasts something exactly when some entry lies above the offset. */
  lemma {:induction false} DrainIsSilent(log: seq<LogEntry>, current: int)
    ensures Drain(log, current).0 == [] <==> forall i :: 0 <= i < |log| ==> log[i].offset <= current
    ensures Drain(log, current).0 == [] ==> Drain(log, current).1 == current
  {
    if log != [] {
      assert forall i :: 1 <= i < |log| ==> log[i] == log[1..][i - 1];
      assert forall i :: 0 <= i < |log| - 1 ==> log[1..][i] == log[i + 1];
      if log[0].offset <= current { DrainIsSilent(log[1..], current); }
    }
  }

  /** On a log kept by Append, draining broadcasts nothing and leaves the offset alone. */
  lemma {:induction false} DrainAfterAppendIsSilent(history: seq<string>, log: seq<LogEntry>, offset: int, max: nat)
    requires Logged(history, log, offset, max)
    ensures Drain(log, offset) == ([], offset) && Logged(history, [], offset, max)
  {
    DrainIsSilent(log, offset);
  }
}
