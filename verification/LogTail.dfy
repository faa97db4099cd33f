/**
 Tailing a build log that another process appends to: read the row, send what was added since the last read,
 stop when the build is over. Logs are UTF-8 bytes.
 */
module LogTail {
  import opened Common

  const NEWLINE: byte := 10
  const RETURN: byte := 13
  const BUILDING := "building"
  const APP_TURNS: nat := 1200
  const SERVERLESS_TURNS: nat := 150

  /** What a query of the build row answers; Gone stands for a missing row or a failed query. */
  datatype Reply = Row(status: string, logs: Bytes) | Gone

  datatype Event = Line(text: Bytes) | Finished(status: string)

  // ---------- strings of the Rust standard library ----------

  function FindByte(b: Bytes, c: byte, p: nat): (r: nat)
    requires p <= |b|
    ensures p <= r <= |b|
    ensures forall k :: p <= k < r ==> b[k] != c
    ensures r < |b| ==> b[r] == c
    decreases |b| - p
  {
    if p == |b| || b[p] == c then p else FindByte(b, c, p + 1)
  }

  function StripReturn(b: Bytes): Bytes {
    if |b| > 0 && b[|b| - 1] == RETURN then b[..|b| - 1] else b
  }

  /** `str::lines`: a final newline ends the last line and does not start another one. */
  function Lines(b: Bytes): seq<Bytes>
    decreases |b|
  {
    if |b| == 0 then [] else
    var n := FindByte(b, NEWLINE, 0);
    if n == |b| then [b] else [StripReturn(b[..n])] + Lines(b[n + 1..])
  }

  /** The byte at `n` starts a character, or `n` is an end of the string. */
  predicate IsCharBoundary(b: Bytes, n: nat) {
    n == 0 || n == |b| || (n < |b| && !(0x80 <= b[n] < 0xC0))
  }

  /** `str::get(n..)` */
  function Suffix(b: Bytes, n: nat): Option<Bytes> {
    if n <= |b| && IsCharBoundary(b, n) then Some(b[n..]) else None
  }

  // ---------- specification ----------

  /** The slice sent in one turn. */
  function Slice(lastLen: nat, logs: Bytes): Option<Bytes> {
    if |logs| > lastLen then Suffix(logs, lastLen) else None
  }

  /** The two loops differ where a slice would split a character, and in what they do when the row is gone. */
  function NextLen(serverless: bool, lastLen: nat, logs: Bytes): nat {
    if Slice(lastLen, logs).Some? || (serverless && |logs| > lastLen) then |logs| else lastLen
  }

  function Slices(serverless: bool, replies: seq<Reply>, lastLen: nat): seq<Bytes>
    decreases |replies|
  {
    if |replies| == 0 then [] else
    match replies[0]
    case Gone => if serverless then Slices(serverless, replies[1..], lastLen) else []
    case Row(status, logs) =>
      var slice := Slice(lastLen, logs);
      var here := if slice.Some? then [slice.value] else [];
      if status != BUILDING then here
      else here + Slices(serverless, replies[1..], NextLen(serverless, lastLen, logs))
  }

  function Ending(serverless: bool, replies: seq<Reply>): Option<string>
    decreases |replies|
  {
    if |replies| == 0 then None else
    match replies[0]
    case Gone => if serverless then Ending(serverless, replies[1..]) else None
    case Row(status, _) => if status != BUILDING then Some(status) else Ending(serverless, replies[1..])
  }

  function LineEvents(slices: seq<Bytes>): seq<Event> {
    if |slices| == 0 then [] else ToEvents(Lines(slices[0])) + LineEvents(slices[1..])
  }

  function ToEvents(lines: seq<Bytes>): (r: seq<Event>)
    ensures |r| == |lines|
    ensures forall i :: 0 <= i < |r| ==> r[i] == Line(lines[i])
  {
    if |lines| == 0 then [] else [Line(lines[0])] + ToEvents(lines[1..])
  }

  function FinishEvents(ending: Option<string>): seq<Event> {
    if ending.None? then [] else [Finished(ending.value)]
  }

  // ---------- the loops ----------

  method SendLines(appended: Bytes) returns (events: seq<Event>)
    ensures events == ToEvents(Lines(appended))
  {
    events := [];
    var lines := Lines(appended);
    for i := 0 to |lines|
      invariant |events| == i && forall k :: 0 <= k < i ==> events[k] == Line(lines[k])
    {
      events := events + [Line(lines[i])];
    }
  }

  /** The loop of the app build stream; `replies` are the answers of its queries. */
  method TailAppBuild(replies: seq<Reply>) returns (events: seq<Event>)
    requires |replies| == APP_TURNS
    ensures events == Sent(false, replies)
  {
    events := [];
    var lastLen: nat := 0;
    assert replies[0..] == replies;
    for turn := 0 to APP_TURNS
      invariant Remaining(false, replies[turn..], lastLen, events) == Sent(false, replies)
    {
      TurnEvents(false, replies[turn..], lastLen, events);
      assert replies[turn..][1..] == replies[turn + 1..];
      if replies[turn].Gone? {
        return;
      }
      var (status, logs) := (replies[turn].status, replies[turn].logs);
      if |logs| > lastLen {
        var appended := Suffix(logs, lastLen);
        if appended.Some? {
          var sent := SendLines(appended.value);
          events := events + sent;
          lastLen := |logs|;
        }
      }
      if status != BUILDING {
        events := events + [Finished(status)];
        return;
      }
    }
    assert replies[APP_TURNS..] == [];
  }

  /** The loop of the serverless build stream. */
  method TailServerlessBuild(replies: seq<Reply>) returns (events: seq<Event>)
    requires |replies| == SERVERLESS_TURNS
    ensures events == Sent(true, replies)
  {
    events := [];
    var lastLen: nat := 0;
    assert replies[0..] == replies;
    for turn := 0 to SERVERLESS_TURNS
      invariant Remaining(true, replies[turn..], lastLen, events) == Sent(true, replies)
    {
      TurnEvents(true, replies[turn..], lastLen, events);
      assert replies[turn..][1..] == replies[turn + 1..];
      if replies[turn].Row? {
        var (status, logs) := (replies[turn].status, replies[turn].logs);
        if |logs| > lastLen {
          var appended := Suffix(logs, lastLen);
          if appended.Some? {
            var sent := SendLines(appended.value);
            events := events + sent;
          }
          lastLen := |logs|;
        }
        if status != BUILDING {
          events := events + [Finished(status)];
          return;
        }
      }
    }
    assert replies[SERVERLESS_TURNS..] == [];
  }

  /** What has been sent once the loop is over, if `events` were sent before the next of `replies`. */
  ghost function Remaining(serverless: bool, replies: seq<Reply>, lastLen: nat, events: seq<Event>): seq<Event> {
    events + LineEvents(Slices(serverless, replies, lastLen)) + FinishEvents(Ending(serverless, replies))
  }

  /** Everything a stream sends: the lines of its slices, then the status that ended it. */
  ghost function Sent(serverless: bool, replies: seq<Reply>): seq<Event> {
    Remaining(serverless, replies, 0, [])
  }

  ghost function AfterRow(serverless: bool, replies: seq<Reply>, lastLen: nat, events: seq<Event>): seq<Event>
    requires |replies| > 0 && replies[0].Row?
  {
    var logs, status := replies[0].logs, replies[0].status;
    var slice := Slice(lastLen, logs);
    var sent := if slice.Some? then events + ToEvents(Lines(slice.value)) else events;
    if status != BUILDING then sent + [Finished(status)]
    else Remaining(serverless, replies[1..], NextLen(serverless, lastLen, logs), sent)
  }

  /** One turn: what is sent before and after the next reply. */
  lemma TurnEvents(serverless: bool, replies: seq<Reply>, lastLen: nat, events: seq<Event>)
    requires |replies| > 0
    ensures replies[0].Gone? ==>
      Remaining(serverless, replies, lastLen, events)
      == if serverless then Remaining(serverless, replies[1..], lastLen, events) else events
    ensures replies[0].Row? ==>
      Remaining(serverless, replies, lastLen, events) == AfterRow(serverless, replies, lastLen, events)
  {
    if replies[0].Row? {
      var (logs, status) := (replies[0].logs, replies[0].status);
      var slice := Slice(lastLen, logs);
      var rest := if status != BUILDING
        then [] else Slices(serverless, replies[1..], NextLen(serverless, lastLen, logs));
      var here: seq<Bytes> := if slice.Some? then [slice.value] else [];
      assert Slices(serverless, replies, lastLen) == here + rest;
      OneMoreSlice(here, rest, events, FinishEvents(Ending(serverless, replies)));
      if slice.Some? {
        assert here[1..] == [];
      }
    }
  }

  lemma OneMoreSlice(here: seq<Bytes>, rest: seq<Bytes>, events: seq<Event>, tail: seq<Event>)
    requires |here| <= 1
    ensures events + LineEvents(here + rest) + tail
      == (if here == [] then events else events + ToEvents(Lines(here[0]))) + LineEvents(rest) + tail
  {
    if here == [] {
      assert here + rest == rest;
    } else {
      assert (here + rest)[1..] == rest;
    }
  }

  /** A slice that would begin inside a character is not sent. One loop waits for the next read, the other moves on. */
  lemma SplitCharacterIsNotSent(lastLen: nat, logs: Bytes)
    requires 0 < lastLen < |logs| && 0x80 <= logs[lastLen] < 0xC0
    ensures Slice(lastLen, logs) == None
    ensures NextLen(false, lastLen, logs) == lastLen && NextLen(true, lastLen, logs) == |logs|
  {}

  // ---------- nothing is lost or repeated ----------

  function Concat(slices: seq<Bytes>): Bytes {
    if |slices| == 0 then [] else slices[0] + Concat(slices[1..])
  }

  /** Every row read extends what was read before by whole characters. */
  ghost predicate AppendOnly(replies: seq<Reply>, read: Bytes)
    decreases |replies|
  {
    if |replies| == 0 then true
    else if replies[0].Gone? then AppendOnly(replies[1..], read)
    else read <= replies[0].logs && IsCharBoundary(replies[0].logs, |read|) && AppendOnly(replies[1..], replies[0].logs)
  }

  /** The log as last read before the loop ends. */
  function LastRead(serverless: bool, replies: seq<Reply>, read: Bytes): Bytes
    decreases |replies|
  {
    if |replies| == 0 then read else
    match replies[0]
    case Gone => if serverless then LastRead(serverless, replies[1..], read) else read
    case Row(status, logs) => if status != BUILDING then logs else LastRead(serverless, replies[1..], logs)
  }

  /** The slices sent are, one after the other, the whole log as last read. */
  lemma {:induction false} SlicesAreTheLog(serverless: bool, replies: seq<Reply>, read: Bytes)
    requires AppendOnly(replies, read)
    ensures read + Concat(Slices(serverless, replies, |read|)) == LastRead(serverless, replies, read)
    ensures forall slice <- Slices(serverless, replies, |read|) :: |slice| > 0
    decreases |replies|
  {
    if |replies| == 0 {
    } else if replies[0].Gone? {
      if serverless { SlicesAreTheLog(serverless, replies[1..], read); }
    } else {
      var logs := replies[0].logs;
      var rest := Slices(serverless, replies[1..], |logs|);
      SlicesAreTheLog(serverless, replies[1..], logs);
      if |logs| > |read| {
        assert NextLen(serverless, |read|, logs) == |logs|;
        assert read + logs[|read|..] == logs;
        assert ([logs[|read|..]] + rest)[1..] == rest;
        assert [logs[|read|..]][1..] == [];
        assert read + (logs[|read|..] + Concat(rest)) == logs + Concat(rest);
      } else {
        assert logs == read && [] + rest == rest;
      }
    }
  }

  // ---------- lines ----------

  function LinesOf(slices: seq<Bytes>): seq<Bytes> {
    if |slices| == 0 then [] else Lines(slices[0]) + LinesOf(slices[1..])
  }

  predicate EndsLine(b: Bytes) {
    |b| > 0 && b[|b| - 1] == NEWLINE
  }

  lemma FirstLine(b: Bytes)
    requires FindByte(b, NEWLINE, 0) < |b|
    ensures Lines(b) == [StripReturn(b[..FindByte(b, NEWLINE, 0)])] + Lines(b[FindByte(b, NEWLINE, 0) + 1..])
  {}

  /** The first line of `a` is that of a longer text as well. */
  lemma FirstLineOfJoined(a: Bytes, b: Bytes)
    requires FindByte(a, NEWLINE, 0) < |a|
    ensures var n := FindByte(a, NEWLINE, 0);
      Lines(a + b) == [StripReturn(a[..n])] + Lines(a[n + 1..] + b)
  {
    var n := FindByte(a, NEWLINE, 0);
    assert (a + b)[n] == NEWLINE;
    assert FindByte(a + b, NEWLINE, 0) == n;
    assert (a + b)[..n] == a[..n] && (a + b)[n + 1..] == a[n + 1..] + b;
    FirstLine(a + b);
  }

  lemma AppendFirst(x: seq<Bytes>, y: seq<Bytes>, z: seq<Bytes>)
    ensures x + (y + z) == (x + y) + z && x + [] == x
  {}

  /** Cutting a text in two keeps its lines if the cut is behind a newline, and makes one line too many otherwise. */
  lemma {:induction false} LinesOfCut(a: Bytes, b: Bytes)
    requires |a| > 0 && |b| > 0
    ensures EndsLine(a) ==> Lines(a + b) == Lines(a) + Lines(b)
    ensures !EndsLine(a) ==> |Lines(a + b)| + 1 == |Lines(a)| + |Lines(b)|
    decreases |a|
  {
    var n := FindByte(a, NEWLINE, 0);
    if n < |a| {
      var rest := a[n + 1..];
      FirstLine(a);
      FirstLineOfJoined(a, b);
      AppendFirst([StripReturn(a[..n])], Lines(rest), Lines(b));
      if n + 1 == |a| {
        assert rest + b == b && rest == [];
      } else {
        assert EndsLine(rest) == EndsLine(a);
        LinesOfCut(rest, b);
      }
    } else {
      JoinedLine(a, b, FindByte(a + b, NEWLINE, 0), FindByte(b, NEWLINE, 0));
    }
  }

  lemma JoinedNewline(a: Bytes, b: Bytes, m: nat, k: nat)
    requires FindByte(a, NEWLINE, 0) == |a| && m == FindByte(a + b, NEWLINE, 0) && k == FindByte(b, NEWLINE, 0)
    ensures m == |a| + k
  {
    var s := a + b;
    assert forall i :: |a| <= i < |s| ==> s[i] == b[i - |a|];
    if k < |b| { assert s[|a| + k] == NEWLINE; }
  }

  lemma JoinedLine(a: Bytes, b: Bytes, m: nat, k: nat)
    requires |a| > 0 && |b| > 0
    requires FindByte(a, NEWLINE, 0) == |a| && m == FindByte(a + b, NEWLINE, 0) && k == FindByte(b, NEWLINE, 0)
    ensures |Lines(a + b)| == |Lines(b)| && |Lines(a)| == 1
  {
    JoinedNewline(a, b, m, k);
    if k < |b| {
      FirstLine(a + b);
      FirstLine(b);
      assert (a + b)[m + 1..] == b[k + 1..];
    }
  }

  // ---------- what the lines are ----------

  /** Each part followed by a newline. */
  function Terminated(parts: seq<Bytes>): Bytes {
    if |parts| == 0 then [] else parts[0] + [NEWLINE] + Terminated(parts[1..])
  }

  /** The parts with a newline behind each one, but the last one only if the text ends in a newline. */
  ghost predicate SplitsInto(b: Bytes, parts: seq<Bytes>) {
    && (forall part <- parts :: NEWLINE !in part)
    && if |b| == 0 || b[|b| - 1] == NEWLINE then b == Terminated(parts)
       else |parts| > 0 && |parts[|parts| - 1]| > 0 && b == Terminated(parts[..|parts| - 1]) + parts[|parts| - 1]
  }

  /** What is sent of a part: all of it, less a RETURN just before the newline that ends it. */
  ghost predicate LineOf(line: Bytes, part: Bytes, ended: bool) {
    if ended && |part| > 0 && part[|part| - 1] == RETURN then line == part[..|part| - 1] else line == part
  }

  /** The lines of a text are the stretches between its newlines. */
  lemma {:induction false} LinesExactly(b: Bytes) returns (parts: seq<Bytes>)
    ensures SplitsInto(b, parts) && LinesOfParts(Lines(b), parts, EndsLine(b))
    decreases |b|
  {
    var n := FindByte(b, NEWLINE, 0);
    if |b| == 0 {
      parts := [];
    } else if n == |b| {
      parts := [b];
      assert Terminated(parts[..0]) + b == b;
    } else {
      var rest := b[n + 1..];
      var more := LinesExactly(rest);
      parts := [b[..n]] + more;
      SplitOneMore(b, n, more);
      FirstLine(b);
      LinesOneMore(b[..n], Lines(rest), more, EndsLine(rest), EndsLine(b));
    }
  }

  ghost predicate LinesOfParts(lines: seq<Bytes>, parts: seq<Bytes>, ended: bool) {
    && |lines| == |parts|
    && forall k :: 0 <= k < |parts| ==> LineOf(lines[k], parts[k], k < |parts| - 1 || ended)
  }

  lemma LinesOneMore(first: Bytes, lines: seq<Bytes>, parts: seq<Bytes>, restEnded: bool, ended: bool)
    requires LinesOfParts(lines, parts, restEnded)
    requires if |parts| == 0 then ended else ended == restEnded
    ensures LinesOfParts([StripReturn(first)] + lines, [first] + parts, ended)
  {
    var (ls, ps) := ([StripReturn(first)] + lines, [first] + parts);
    forall k | 0 <= k < |ps| ensures LineOf(ls[k], ps[k], k < |ps| - 1 || ended) {
      if k > 0 {
        assert ls[k] == lines[k - 1] && ps[k] == parts[k - 1];
      }
    }
  }

  lemma SplitOneMore(b: Bytes, n: nat, more: seq<Bytes>)
    requires n < |b| && b[n] == NEWLINE && NEWLINE !in b[..n] && SplitsInto(b[n + 1..], more)
    ensures SplitsInto(b, [b[..n]] + more)
    ensures EndsLine(b) <==> |b[n + 1..]| == 0 || EndsLine(b[n + 1..])
    ensures |b[n + 1..]| == 0 <==> more == []
  {
    var (rest, parts) := (b[n + 1..], [b[..n]] + more);
    assert b == b[..n] + [NEWLINE] + rest;
    assert parts[1..] == more;
    if |rest| == 0 {
      TerminatedIsEmpty(more);
    } else if !EndsLine(rest) {
      var m := |more| - 1;
      assert parts[..|parts| - 1] == [b[..n]] + more[..m];
      assert ([b[..n]] + more[..m])[1..] == more[..m];
      assert b[..n] + [NEWLINE] + (Terminated(more[..m]) + more[m])
        == b[..n] + [NEWLINE] + Terminated(more[..m]) + more[m];
    }
  }

  lemma TerminatedIsEmpty(parts: seq<Bytes>)
    ensures |parts| > 0 ==> |Terminated(parts)| > 0
  {}

  /** A text without RETURN is its lines, put together again. */
  lemma LinesPutTogether(b: Bytes)
    requires RETURN !in b
    ensures SplitsInto(b, Lines(b))
  {
    var parts := LinesExactly(b);
    forall k | 0 <= k < |parts| ensures Lines(b)[k] == parts[k] {
      PartIsInText(b, parts, k);
    }
    assert Lines(b) == parts;
  }

  lemma PartIsInText(b: Bytes, parts: seq<Bytes>, k: nat)
    requires SplitsInto(b, parts) && k < |parts|
    ensures forall c <- parts[k] :: c in b
  {
    if |b| == 0 || b[|b| - 1] == NEWLINE {
      PartIsTerminated(parts, k);
    } else if k < |parts| - 1 {
      PartIsTerminated(parts[..|parts| - 1], k);
    }
  }

  lemma {:induction false} PartIsTerminated(parts: seq<Bytes>, k: nat)
    requires k < |parts|
    ensures forall c <- parts[k] :: c in Terminated(parts)
  {
    if k > 0 {
      PartIsTerminated(parts[1..], k - 1);
    }
  }

  // ---------- when the loops end ----------

  predicate GoesOn(serverless: bool, r: Reply) {
    (r.Row? && r.status == "building") || (serverless && r.Gone?)
  }

  /** Reply `k` is the last of the first `n` that has a row. */
  ghost predicate LastRowAt(replies: seq<Reply>, n: nat, k: nat) {
    k < n <= |replies| && replies[k].Row? && forall m :: k < m < n ==> replies[m].Gone?
  }

  ghost predicate NoRow(replies: seq<Reply>, n: nat) {
    n <= |replies| && forall k :: 0 <= k < n ==> replies[k].Gone?
  }

  lemma LastRowOfTail(replies: seq<Reply>, n: nat, k: nat)
    requires 0 < n && LastRowAt(replies, n, k)
    ensures if k == 0 then NoRow(replies[1..], n - 1) else LastRowAt(replies[1..], n - 1, k - 1)
  {}

  lemma NoRowOfTail(replies: seq<Reply>, n: nat)
    requires 0 < n && NoRow(replies, n)
    ensures replies[0].Gone? && NoRow(replies[1..], n - 1)
  {}

  /** The number of replies a loop reads, and the status it reports. */
  lemma {:induction false} StreamEnds(serverless: bool, replies: seq<Reply>) returns (n: nat)
    ensures n <= |replies| && forall k :: 0 <= k < n - 1 ==> GoesOn(serverless, replies[k])
    ensures n < |replies| ==> n > 0 && !GoesOn(serverless, replies[n - 1])
    ensures Ending(serverless, replies) ==
      if n > 0 && replies[n - 1].Row? && replies[n - 1].status != "building" then Some(replies[n - 1].status) else None
    decreases |replies|
  {
    if |replies| == 0 {
      n := 0;
    } else if !GoesOn(serverless, replies[0]) {
      n := 1;
    } else {
      var rest := StreamEnds(serverless, replies[1..]);
      n := rest + 1;
      assert forall k :: 0 < k < |replies| ==> replies[k] == replies[1..][k - 1];
    }
  }

  /** The log it read last is that of the last row among these replies. */
  lemma {:induction false} LastReadExactly(serverless: bool, replies: seq<Reply>, read: Bytes, n: nat)
    requires n <= |replies| && forall k :: 0 <= k < n - 1 ==> GoesOn(serverless, replies[k])
    requires n < |replies| ==> n > 0 && !GoesOn(serverless, replies[n - 1])
    ensures NoRow(replies, n) ==> LastRead(serverless, replies, read) == read
    ensures forall k: nat :: LastRowAt(replies, n, k) ==> LastRead(serverless, replies, read) == replies[k].logs
    decreases |replies|
  {
    if |replies| > 0 && GoesOn(serverless, replies[0]) {
      assert n > 0;
      assert forall k :: 0 < k < |replies| ==> replies[k] == replies[1..][k - 1];
      var now := if replies[0].Row? then replies[0].logs else read;
      LastReadExactly(serverless, replies[1..], now, n - 1);
      if NoRow(replies, n) { NoRowOfTail(replies, n); }
      forall k: nat | LastRowAt(replies, n, k) ensures LastRead(serverless, replies, read) == replies[k].logs {
        LastRowOfTail(replies, n, k);
      }
    } else {
      assert n <= 1;
    }
  }

  /** Positions where one slice ends in the middle of a line and another follows. */
  function BrokenCuts(slices: seq<Bytes>): nat {
    if |slices| <= 1 then 0 else (if EndsLine(slices[0]) then 0 else 1) + BrokenCuts(slices[1..])
  }

  lemma {:induction false} LineCount(slices: seq<Bytes>)
    requires forall s <- slices :: |s| > 0
    ensures |LinesOf(slices)| == |Lines(Concat(slices))| + BrokenCuts(slices)
    ensures BrokenCuts(slices) == 0 ==> LinesOf(slices) == Lines(Concat(slices))
    ensures |slices| > 0 ==> |Concat(slices)| > 0
  {
    if |slices| == 1 {
      assert Concat(slices) == slices[0] + Concat([]) == slices[0];
    } else if |slices| > 1 {
      LineCount(slices[1..]);
      LinesOfCut(slices[0], Concat(slices[1..]));
    }
  }

  lemma {:induction false} LineEventsAreLines(slices: seq<Bytes>)
    ensures LineEvents(slices) == ToEvents(LinesOf(slices))
  {
    if |slices| > 0 {
      LineEventsAreLines(slices[1..]);
      ToEventsAppend(Lines(slices[0]), LinesOf(slices[1..]));
    }
  }

  lemma ToEventsAppend(a: seq<Bytes>, b: seq<Bytes>)
    ensures ToEvents(a + b) == ToEvents(a) + ToEvents(b)
  {}

  /**
   The lines sent are the lines of the log exactly when every append that was followed by another one ended
   in a newline; otherwise every append that did not shows as one line too many.
   */
  lemma LinesAreTheLogExactly(serverless: bool, replies: seq<Reply>)
    requires AppendOnly(replies, [])
    ensures var slices := Slices(serverless, replies, 0);
      var log := LastRead(serverless, replies, []);
      && Sent(serverless, replies) == ToEvents(LinesOf(slices)) + FinishEvents(Ending(serverless, replies))
      && (LinesOf(slices) == Lines(log) <==> BrokenCuts(slices) == 0)
      && |LinesOf(slices)| == |Lines(log)| + BrokenCuts(slices)
  {
    var slices := Slices(serverless, replies, 0);
    SlicesAreTheLog(serverless, replies, []);
    LineCount(slices);
    LineEventsAreLines(slices);
    assert [] + Concat(slices) == Concat(slices);
    assert [] + LineEvents(slices) == LineEvents(slices);
  }

  /**
   What arrives, in terms of the log alone. When every append ended a line, the texts sent are the stretches between
   the newlines of the log as last read, and a log without RETURN is these texts put together again.
   */
  lemma SentIsTheLog(serverless: bool, replies: seq<Reply>) returns (parts: seq<Bytes>)
    requires AppendOnly(replies, []) && BrokenCuts(Slices(serverless, replies, 0)) == 0
    ensures var log := LastRead(serverless, replies, []);
      var (sent, n) := (Sent(serverless, replies), |parts|);
      && SplitsInto(log, parts) && |sent| >= n
      && (forall k :: 0 <= k < n ==> sent[k].Line? && LineOf(sent[k].text, parts[k], k < n - 1 || EndsLine(log)))
      && sent[n..] == FinishEvents(Ending(serverless, replies))
      && (RETURN !in log ==> forall k :: 0 <= k < n ==> sent[k].text == parts[k])
  {
    var log := LastRead(serverless, replies, []);
    LinesAreTheLogExactly(serverless, replies);
    parts := LinesExactly(log);
    if RETURN !in log {
      forall k | 0 <= k < |parts| ensures Lines(log)[k] == parts[k] {
        PartIsInText(log, parts, k);
      }
    }
  }
}
