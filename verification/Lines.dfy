/** server/lines.c: one field in, one message out. A socket delivers a script of read events and
    takes writes according to a script of outcomes, so every schedule of interrupted reads and short
    writes is some script. */
module Lines {
  import opened Strings

  /** What one `read(fd, &ch, 1)` does; the end of the script is end of file. */
  datatype Event = Byte(b: Octet) | Interrupted | Failed

  /** Octets before the first delimiter, failure or end of file. */
  function Payload(events: seq<Event>): (p: Text) {
    if events == [] || events[0].Failed? then []
    else if events[0].Interrupted? then Payload(events[1..])
    else if IsDelimiter(events[0].b) then []
    else [events[0].b] + Payload(events[1..])
  }

  /** The events left after the delimiter or the failure. */
  function Rest(events: seq<Event>): (r: seq<Event>)
    ensures |r| <= |events|
  {
    if events == [] then []
    else if events[0].Failed? || (events[0].Byte? && IsDelimiter(events[0].b)) then events[1..]
    else Rest(events[1..])
  }

  datatype Ending = Delimited | EndOfFile | ReadFails

  function EndingOf(events: seq<Event>): Ending {
    if events == [] then EndOfFile
    else if events[0].Failed? then ReadFails
    else if events[0].Byte? && IsDelimiter(events[0].b) then Delimited
    else EndingOf(events[1..])
  }

  predicate IsDelimiter(b: Octet) {
    b == NEWLINE || b == NUL
  }

  function Min(a: nat, b: nat): nat {
    if a < b then a else b
  }

  // ----- payloads of plain byte streams -----

  /** The octets a script delivers, whatever interruptions lie between them. */
  function Octets(events: seq<Event>): Text {
    if events == [] then []
    else if events[0].Byte? then [events[0].b] + Octets(events[1..])
    else Octets(events[1..])
  }

  predicate NeverFails(events: seq<Event>) {
    forall e | e in events :: !e.Failed?
  }

  predicate DelimiterFree(s: Text) {
    forall b | b in s :: !IsDelimiter(b)
  }

  /** A field is the longest delimiter-free prefix of the octets delivered, and reading it consumes
      exactly the field and its delimiter, wherever reads are interrupted. */
  lemma {:induction false} PayloadIsField(events: seq<Event>)
    requires NeverFails(events)
    ensures
      var p, octets := Payload(events), Octets(events);
      && p <= octets && DelimiterFree(p)
      && (if |p| == |octets| then EndingOf(events).EndOfFile? && Octets(Rest(events)) == []
          else EndingOf(events).Delimited? && IsDelimiter(octets[|p|]) && Octets(Rest(events)) == octets[|p| + 1..])
      && NeverFails(Rest(events))
  {
    if events != [] {
      assert events[0] in events && forall e | e in events[1..] :: e in events;
      if !(events[0].Byte? && IsDelimiter(events[0].b)) {
        PayloadIsField(events[1..]);
        if events[0].Byte? {
          var p, octets := Payload(events[1..]), Octets(events[1..]);
          assert Payload(events)[1..] == p && Octets(events)[1..] == octets;
          assert octets[..|p|] == p ==> Octets(events)[..|p| + 1] == Payload(events);
        }
      }
    }
  }

  /** The stream delivers these octets before any read fails; more may follow. */
  ghost predicate Delivers(events: seq<Event>, octets: Text) {
    exists head :: DeliversWith(events, octets, head)
  }

  predicate DeliversWith(events: seq<Event>, octets: Text, head: seq<Event>) {
    head <= events && NeverFails(head) && octets <= Octets(head)
  }

  /** So a text framed by a delimiter is read back, and what follows stays in the stream. */
  lemma {:induction false} InterruptsInvisible(events: seq<Event>, s: Text, d: Octet, tail: Text)
    requires DelimiterFree(s) && IsDelimiter(d) && Delivers(events, s + [d] + tail)
    ensures Payload(events) == s && EndingOf(events) == Delimited && Delivers(Rest(events), tail)
    decreases events
  {
    var octets := s + [d] + tail;
    var head :| DeliversWith(events, octets, head);
    assert head != [] && head[0] == events[0] && head[0] in head;
    var head' := head[1..];
    assert head' <= events[1..] && forall e | e in head' :: e in head;
    if events[0].Interrupted? {
      assert DeliversWith(events[1..], octets, head');
      InterruptsInvisible(events[1..], s, d, tail);
    } else if s == [] {
      assert octets[0] == d && octets[1..] == tail && octets[0] == Octets(head)[0];
      assert octets[1..] <= Octets(head)[1..];
      assert DeliversWith(events[1..], tail, head');
    } else {
      assert octets[1..] == s[1..] + [d] + tail && octets[0] == Octets(head)[0];
      assert octets[1..] <= Octets(head)[1..] && s[0] in s;
      assert DeliversWith(events[1..], s[1..] + [d] + tail, head');
      assert forall c | c in s[1..] :: c in s;
      InterruptsInvisible(events[1..], s[1..], d, tail);
    }
  }

  /** The longest delimiter-free prefix. */
  function UpToDelimiter(s: Text): (p: Text)
    ensures p <= s && DelimiterFree(p)
    ensures |p| < |s| ==> IsDelimiter(s[|p|])
    ensures DelimiterFree(s) ==> p == s
  {
    if s == [] || IsDelimiter(s[0]) then [] else [s[0]] + UpToDelimiter(s[1..])
  }

  /** A text with delimiters in it is cut at the first. */
  lemma {:induction false} FieldIsCut(events: seq<Event>, s: Text, d: Octet, tail: Text)
    requires IsDelimiter(d) && Delivers(events, s + [d] + tail)
    ensures Payload(events) == UpToDelimiter(s)
  {
    var p := UpToDelimiter(s);
    if |p| == |s| {
      InterruptsInvisible(events, s, d, tail);
    } else {
      assert s == p + [s[|p|]] + s[|p| + 1..];
      assert s + [d] + tail == p + [s[|p|]] + (s[|p| + 1..] + [d] + tail);
      InterruptsInvisible(events, p, s[|p|], s[|p| + 1..] + [d] + tail);
    }
  }

  // ----- streams that fail or end -----

  /** The k-th read fails, and no octet before it ends a field. */
  predicate FailsAt(events: seq<Event>, k: nat) {
    k < |events| && events[k].Failed? && forall j | 0 <= j < k && events[j].Byte? :: !IsDelimiter(events[j].b)
  }

  /** A failure ends a field iff it comes before every delimiter. */
  lemma {:induction false} FailureIsSeen(events: seq<Event>)
    ensures EndingOf(events).ReadFails? <==> exists k: nat :: FailsAt(events, k)
  {
    if events != [] && !events[0].Failed? && !(events[0].Byte? && IsDelimiter(events[0].b)) {
      FailureIsSeen(events[1..]);
      if k: nat :| FailsAt(events[1..], k) {
        assert FailsAt(events, k + 1);
      }
      if k: nat :| FailsAt(events, k) {
        assert FailsAt(events[1..], k - 1);
      }
    } else if events != [] && events[0].Failed? {
      assert FailsAt(events, 0);
    }
  }

  /** How many fields these octets close. */
  function Delimiters(s: Text): nat {
    multiset(s)[NUL] + multiset(s)[NEWLINE]
  }

  /** Up to a failure, octets without a delimiter are the beginning of a field that fails. */
  lemma {:induction false} OpenFieldFails(head: seq<Event>, rest: seq<Event>)
    requires NeverFails(head) && Delimiters(Octets(head)) == 0
    ensures EndingOf(head + [Failed] + rest) == ReadFails
  {
    var events := head + [Failed] + rest;
    if head != [] {
      assert head[0] in head && events[0] == head[0] && events[1..] == head[1..] + [Failed] + rest;
      assert forall e | e in head[1..] :: e in head;
      if head[0].Byte? {
        assert Octets(head)[0] in Octets(head);
        assert Octets(head) == [head[0].b] + Octets(head[1..]);
      }
      OpenFieldFails(head[1..], rest);
    }
  }

  /** One that has a delimiter is a field like any other. */
  lemma {:induction false} ClosedField(head: seq<Event>, rest: seq<Event>) returns (more: seq<Event>)
    requires NeverFails(head) && Delimiters(Octets(head)) > 0
    ensures EndingOf(head + rest) == Delimited && Rest(head + rest) == more + rest && NeverFails(more)
    ensures Payload(head + rest) == UpToDelimiter(Octets(head))
    ensures Delimiters(Octets(more)) == Delimiters(Octets(head)) - 1
  {
    var events := head + rest;
    assert head != [];
    assert head[0] in head && events[0] == head[0] && events[1..] == head[1..] + rest;
    assert forall e | e in head[1..] :: e in head;
    if head[0].Byte? {
      assert Octets(head) == [head[0].b] + Octets(head[1..]);
    }
    if head[0].Byte? && IsDelimiter(head[0].b) {
      more := head[1..];
    } else {
      more := ClosedField(head[1..], rest);
    }
  }

  /** The octets delivered one by one, without interruption. */
  function Stream(octets: Text): (events: seq<Event>)
    ensures NeverFails(events) && Octets(events) == octets && DeliversWith(events, octets, events)
  {
    if octets == [] then []
    else
      var more := Stream(octets[1..]);
      var events := [Byte(octets[0])] + more;
      assert events[1..] == more;
      events
  }

  // ----- sending -----

  /** The next write's outcome: -1 fails, k >= 0 accepts at most k octets. After the script, writes
      are complete. */
  function WriteOutcome(script: seq<int>, l: nat): int {
    if script == [] then l
    else if script[0] < 0 then -1
    else Min(script[0], l)
  }

  predicate WritesSucceed(script: seq<int>) {
    forall k | k in script :: k >= 0
  }

  /** What `sendMessage` returns, and how many octets it gets out, for a message of l octets. */
  function SendResult(script: seq<int>, l: nat): (int, nat)
    decreases l, |script|
  {
    var w := WriteOutcome(script, l);
    if w < 0 then (-1, 0)
    else if w >= l then (0, l)
    else
      var (r, k) := SendResult(script[1..], l - w);
      (r, w + k)
  }

  function Further(sent: nat, result: (int, nat)): (int, nat) {
    (result.0, sent + result.1)
  }

  lemma {:induction false} SendStep(script: seq<int>, l: nat)
    ensures
      var w := WriteOutcome(script, l);
      SendResult(script, l) ==
        if w < 0 then (-1, 0) else if w >= l then (0, l) else Further(w, SendResult(script[1..], l - w))
  {
  }

  /** Success is the whole message; failure of a non-empty one is a strict prefix; writes that never
      fail, however short, succeed. */
  lemma {:induction false} SendsAllOrStrictPrefix(script: seq<int>, l: nat)
    ensures
      var (r, k) := SendResult(script, l);
      && (r == 0 || r == -1) && k <= l
      && (l > 0 ==> (r == 0 <==> k == l))
      && (WritesSucceed(script) ==> r == 0)
    decreases l, |script|
  {
    var w := WriteOutcome(script, l);
    if 0 <= w < l {
      assert script[0] in script && forall k | k in script[1..] :: k in script;
      SendsAllOrStrictPrefix(script[1..], l - w);
    } else if w < 0 {
      assert script[0] in script;
    }
  }

  class Socket {
    var incoming: seq<Event>
    var outgoing: Text
    var script: seq<int>

    constructor (events: seq<Event>, writes: seq<int>)
      ensures incoming == events && outgoing == [] && script == writes
    {
      incoming, outgoing, script := events, [], writes;
    }

    /** `read(fd, &ch, 1)`; None is end of file. */
    method Read() returns (e: Option<Event>)
      modifies `incoming
      ensures if old(incoming) == [] then e == None && incoming == []
              else e == Some(old(incoming)[0]) && incoming == old(incoming)[1..]
    {
      if incoming == [] {
        return None;
      }
      e, incoming := Some(incoming[0]), incoming[1..];
    }

    /** `write(fd, buffer, l)`. */
    method Write(buffer: Text) returns (r: int)
      modifies `outgoing, `script
      ensures r == WriteOutcome(old(script), |buffer|)
      ensures outgoing == if r > 0 then old(outgoing) + buffer[..r] else old(outgoing)
      ensures script == if old(script) == [] then [] else old(script)[1..]
      ensures WritesSucceed(old(script)) ==> r >= 0 && WritesSucceed(script)
    {
      assert script != [] ==> script[0] in script && forall k | k in script[1..] :: k in script;
      r := WriteOutcome(script, |buffer|);
      if r > 0 {
        outgoing := outgoing + buffer[..r];
      }
      if script != [] {
        script := script[1..];
      }
    }

    /** `sendMessage`. */
    method SendMessage(buffer: Text) returns (r: int)
      modifies `outgoing, `script
      ensures r == SendResult(old(script), |buffer|).0
      ensures SendResult(old(script), |buffer|).1 <= |buffer|
      ensures outgoing == old(outgoing) + buffer[..SendResult(old(script), |buffer|).1]
      ensures WritesSucceed(old(script)) ==> r == 0 && outgoing == old(outgoing) + buffer && WritesSucceed(script)
    {
      hide SendResult;
      SendsAllOrStrictPrefix(script, |buffer|);
      SendStep(script, |buffer|);
      ghost var result := SendResult(script, |buffer|);
      var sent: nat := 0;
      var w := Write(buffer);
      if w > 0 {
        sent := w;
      }
      while w >= 0 && sent < |buffer|
        invariant sent <= |buffer| && outgoing == old(outgoing) + buffer[..sent]
        invariant w < 0 ==> result == (-1, sent)
        invariant w >= 0 && sent == |buffer| ==> result == (0, sent)
        invariant w >= 0 && sent < |buffer| ==> result == Further(sent, SendResult(script, |buffer| - sent))
        invariant WritesSucceed(old(script)) ==> w >= 0 && WritesSucceed(script)
        decreases |buffer| - sent, |script|
      {
        SendStep(script, |buffer| - sent);
        w := Write(buffer[sent..]);
        if w > 0 {
          assert buffer[..sent] + buffer[sent..][..w] == buffer[..sent + w];
          sent := sent + w;
        }
      }
      assert WritesSucceed(old(script)) ==> buffer[..sent] == buffer;
      if w < 0 {
        return -1;
      }
      return 0;
    }

    /** Reads one field into `buffer`: at most n - 1 of its octets are stored and terminated, the
        rest is discarded, and the stream is left right behind the delimiter. The buffer is not
        touched beyond that, and not at all when the stream ends before storing anything. */
    method ReadLine(buffer: array?<Octet>, n: nat) returns (r: int)
      requires buffer != null ==> n <= buffer.Length
      modifies `incoming, buffer
      ensures n == 0 || buffer == null ==> r == -1 && incoming == old(incoming)
      ensures n == 0 && buffer != null ==> buffer[..] == old(buffer[..])
      ensures n > 0 && buffer != null ==>
        && incoming == Rest(old(incoming))
        && (r, buffer[..]) == LineResult(old(incoming), old(buffer[..]), n)
        && (r == -1 <==> exists k: nat :: FailsAt(old(incoming), k))
    {
      if n == 0 || buffer == null {
        return -1;
      }
      hide LineResult;
      FailureIsSeen(incoming);
      OnlyFailureIsNegative(incoming, buffer[..], n);
      var totRead: nat := 0;
      ghost var got: Text := [];
      while true
        invariant totRead == Min(|got|, n - 1)
        invariant Payload(old(incoming)) == got + Payload(incoming)
        invariant EndingOf(old(incoming)) == EndingOf(incoming)
        invariant Rest(old(incoming)) == Rest(incoming)
        invariant forall j | 0 <= j < totRead :: buffer[j] == got[j]
        invariant forall j | totRead <= j < buffer.Length :: buffer[j] == old(buffer[j])
        decreases |incoming|
      {
        Next(got, incoming);
        var e := Read();
        if e == Some(Interrupted) {
          continue;
        }
        if e == Some(Failed) {
          LineDone(old(incoming), old(buffer[..]), n, buffer[..], totRead);
          return -1;
        }
        if e.None? {
          if totRead == 0 {
            LineDone(old(incoming), old(buffer[..]), n, buffer[..], totRead);
            return 0;
          }
          break;
        }
        if IsDelimiter(e.value.b) {
          break;
        }
        if totRead < n - 1 {
          buffer[totRead] := e.value.b;
          totRead := totRead + 1;
        }
        got := got + [e.value.b];
      }
      buffer[totRead] := NUL;
      LineDone(old(incoming), old(buffer[..]), n, buffer[..], totRead);
      return totRead;
    }
  }

  /** One event's part of the payload. */
  lemma {:induction false} Next(got: Text, events: seq<Event>)
    ensures got + Payload(events) ==
      if events != [] && events[0].Byte? && !IsDelimiter(events[0].b) then got + [events[0].b] + Payload(events[1..])
      else if events != [] && events[0].Interrupted? then got + Payload(events[1..])
      else got
  {
  }

  /** Return value and final array of `readLine(fd, buffer, n)`. */
  function LineResult(events: seq<Event>, buffer: Text, n: nat): (int, Text)
    requires 0 < n <= |buffer|
  {
    var p := Payload(events);
    var k := Min(|p|, n - 1);
    var terminated := p[..k] + [NUL] + buffer[k + 1..];
    match EndingOf(events)
    case ReadFails => (-1, p[..k] + buffer[k..])
    case EndOfFile => if k == 0 then (0, buffer) else (k, terminated)
    case Delimited => (k, terminated)
  }

  lemma {:induction false} OnlyFailureIsNegative(events: seq<Event>, buffer: Text, n: nat)
    requires 0 < n <= |buffer|
    ensures LineResult(events, buffer, n).0 == -1 <==> EndingOf(events).ReadFails?
  {
  }

  /** What readLine makes of a stream, read off its events: w is what comes before the first delimiter,
      failure or end. */
  lemma {:induction false} LineIsKept(head: seq<Event>, rest: seq<Event>, buffer: Text, n: nat)
    requires 0 < n <= |buffer| && NeverFails(head) && DelimiterFree(Octets(head))
    requires rest == [] || rest[0].Failed? || (rest[0].Byte? && IsDelimiter(rest[0].b))
    ensures
      var w, (r, after) := Octets(head), LineResult(head + rest, buffer, n);
      && |after| == |buffer|
      && (rest != [] && rest[0].Failed? ==> r == -1)
      && (rest == [] && (w == [] || n == 1) ==> r == 0 && after == buffer)
      && ((if rest == [] then w != [] && n > 1 else !rest[0].Failed?) ==>
            && r == Min(|w|, n - 1) && after == w[..r] + [NUL] + buffer[r + 1..])
    ensures Rest(head + rest) == if rest == [] then [] else rest[1..]
  {
    SplitStream(head, rest);
  }

  lemma {:induction false} SplitStream(head: seq<Event>, rest: seq<Event>)
    requires NeverFails(head) && DelimiterFree(Octets(head))
    requires rest == [] || rest[0].Failed? || (rest[0].Byte? && IsDelimiter(rest[0].b))
    ensures Payload(head + rest) == Octets(head)
    ensures Rest(head + rest) == if rest == [] then [] else rest[1..]
    ensures EndingOf(head + rest) == if rest == [] then EndOfFile else if rest[0].Failed? then ReadFails else Delimited
  {
    var events := head + rest;
    if head == [] {
      assert events == rest;
    } else {
      assert head[0] in head && events[0] == head[0] && events[1..] == head[1..] + rest;
      assert forall e | e in head[1..] :: e in head;
      if head[0].Byte? {
        assert Octets(head) == [head[0].b] + Octets(head[1..]);
        assert head[0].b in Octets(head);
        assert forall b | b in Octets(head[1..]) :: b in Octets(head);
      }
      SplitStream(head[1..], rest);
    }
  }

  /** How the array left by the loop gives the result, for each way the field can end. */
  lemma {:induction false} LineDone(events: seq<Event>, before: Text, n: nat, now: Text, k: nat)
    requires 0 < n <= |before| == |now| && k == Min(|Payload(events)|, n - 1)
    requires forall j | 0 <= j < k :: now[j] == Payload(events)[j]
    requires forall j | k < j < |now| :: now[j] == before[j]
    ensures now[k] == before[k] && EndingOf(events).ReadFails? ==> LineResult(events, before, n) == (-1, now)
    ensures now[k] == before[k] && k == 0 && EndingOf(events).EndOfFile? ==>
      LineResult(events, before, n) == (0, now)
    ensures now[k] == NUL && (EndingOf(events).Delimited? || (EndingOf(events).EndOfFile? && k > 0)) ==>
      LineResult(events, before, n) == (k, now)
  {
    var p := Payload(events);
    assert now[k] == before[k] && k == 0 ==> now == before;
    assert now[k] == before[k] ==> now == p[..k] + before[k..];
    assert now[k] == NUL ==> now == p[..k] + [NUL] + before[k + 1..];
  }
}
